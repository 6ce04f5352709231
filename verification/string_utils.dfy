/**
 * The remaining members of `StringUtils`: null-aware checks, `join` over an
 * array, an iterator and a collection, `toRegexQuoteArray` and the
 * `patternMatching` dispatcher. A Java `String` that may be null is an
 * `Option<string>`; an element's `toString()` is taken as already given, so
 * elements are `Option<string>` too.
 */
module StringUtils {
  import opened Wrappers
  import opened GlobSemantics
  import Matcher

  const Empty: string := ""

  /** `null` and `""` are both empty. */
  function IsEmpty(s: Option<string>): (r: bool)
    ensures r <==> s == None || s == Some("")
  {
    s.None? || |s.value| == 0
  }

  /** Null-aware string comparison. */
  function Equals(cs1: Option<string>, cs2: Option<string>): (r: bool)
    ensures r <==> cs1 == cs2
  {
    // `cs1 == cs2` in the source compares references; two identical
    // non-null references also pass the content comparison below
    if cs1.None? && cs2.None? then true
    else if cs1.None? || cs2.None? then false
    else if |cs1.value| != |cs2.value| then false
    else cs1.value == cs2.value
  }

  // ---------------------------------------------------------------------
  // join
  // ---------------------------------------------------------------------

  /**
   * The text an element or separator contributes: nothing for null, because
   * the source tests for null before every `append` (which on its own would
   * add "null").
   */
  function Text(o: Option<string>): string {
    match o
    case None => ""
    case Some(x) => x
  }

  /** The element texts, in order, with the separator text between neighbours. */
  function Joined(items: seq<Option<string>>, separator: Option<string>): string
    decreases |items|
  {
    if |items| == 0 then ""
    else if |items| == 1 then Text(items[0])
    else Text(items[0]) + Text(separator) + Joined(items[1..], separator)
  }

  /** Appending an element on the right adds one separator and its text. */
  lemma {:induction false} JoinedSnoc(items: seq<Option<string>>, x: Option<string>, separator: Option<string>)
    requires |items| > 0
    ensures Joined(items + [x], separator) == Joined(items, separator) + Text(separator) + Text(x)
    decreases |items|
  {
    var all := items + [x];
    assert all[1..] == items[1..] + [x];
    if |items| > 1 {
      JoinedSnoc(items[1..], x, separator);
    }
  }

  /** Sum of the lengths of the element texts. */
  function TextLength(items: seq<Option<string>>): nat
    decreases |items|
  {
    if items == [] then 0 else |Text(items[0])| + TextLength(items[1..])
  }

  /** A join of `n > 0` elements holds every element text and exactly `n - 1` separators. */
  lemma {:induction false} JoinedLength(items: seq<Option<string>>, separator: Option<string>)
    requires |items| > 0
    ensures |Joined(items, separator)| == TextLength(items) + (|items| - 1) * |Text(separator)|
    decreases |items|
  {
    if |items| > 1 {
      JoinedLength(items[1..], separator);
    }
  }

  /** `n` copies of `s`, concatenated. */
  function Repeat(s: string, n: nat): string
    decreases n
  {
    if n == 0 then "" else s + Repeat(s, n - 1)
  }

  /** Joining `n > 0` nulls gives exactly the `n - 1` separators. */
  lemma {:induction false} JoinedNulls(n: nat, separator: Option<string>)
    requires n > 0
    ensures Joined(seq(n, _ => None), separator) == Repeat(Text(separator), n - 1)
    decreases n
  {
    var items: seq<Option<string>> := seq(n, _ => None);
    if n > 1 {
      assert items[1..] == seq(n - 1, _ => None);
      JoinedNulls(n - 1, separator);
    }
  }

  /** `join(Object[], String)`: null for a null array, else the joined element texts. */
  method JoinArray(objects: array?<Option<string>>, separator: Option<string>) returns (r: Option<string>)
    ensures objects == null ==> r == None
    ensures objects != null ==> r == Some(Joined(objects[..], separator))
  {
    if objects == null {
      return None;
    }
    if objects.Length == 0 {
      return Some(Empty);
    }
    if objects.Length == 1 {
      return Some(if objects[0].None? then Empty else objects[0].value);
    }
    var buf := "";
    if objects[0].Some? {
      buf := buf + objects[0].value;
    }
    assert objects[..1] == [objects[0]];
    for i := 1 to objects.Length
      invariant buf == Joined(objects[..i], separator)
    {
      if separator.Some? {
        buf := buf + separator.value;
      }
      if objects[i].Some? {
        buf := buf + objects[i].value;
      }
      assert objects[..i + 1] == objects[..i] + [objects[i]];
      JoinedSnoc(objects[..i], objects[i], separator);
    }
    assert objects[..objects.Length] == objects[..];
    return Some(buf);
  }

  /**
   * A `java.util.Iterator` over element texts: the sequence it will yield and
   * a cursor that `Next` advances.
   */
  class ElementIterator {
    const items: seq<Option<string>>
    var cursor: nat

    predicate Valid()
      reads this
    {
      cursor <= |items|
    }

    /** What the iterator has not yielded yet. */
    function Remaining(): seq<Option<string>>
      reads this
      requires Valid()
    {
      items[cursor..]
    }

    constructor (items: seq<Option<string>>)
      ensures Valid() && this.items == items && Remaining() == items
    {
      this.items := items;
      cursor := 0;
    }

    method HasNext() returns (b: bool)
      requires Valid()
      ensures b <==> Remaining() != []
    {
      b := cursor < |items|;
    }

    method Next() returns (x: Option<string>)
      requires Valid() && Remaining() != []
      modifies this
      ensures Valid() && cursor == old(cursor) + 1
      ensures x == old(Remaining())[0] && Remaining() == old(Remaining())[1..]
    {
      x := items[cursor];
      cursor := cursor + 1;
    }
  }

  /**
   * `join(Iterator, String)`: null for a null iterator; otherwise it consumes
   * the iterator and joins what it yielded.
   */
  method JoinIterator(iter: ElementIterator?, separator: Option<string>) returns (r: Option<string>)
    requires iter != null ==> iter.Valid()
    modifies iter
    ensures iter == null ==> r == None
    ensures iter != null ==>
      iter.Valid() && iter.Remaining() == [] &&
      r == Some(Joined(old(iter.Remaining()), separator))
  {
    if iter == null {
      return None;
    }
    ghost var start := iter.cursor;
    var more := iter.HasNext();
    if !more {
      return Some(Empty);
    }
    var first := iter.Next();
    more := iter.HasNext();
    if !more {
      assert old(iter.Remaining()) == [first];
      return Some(if first.None? then Empty else first.value);
    }
    var buf := "";
    if first.Some? {
      buf := buf + first.value;
    }
    assert iter.items[start..iter.cursor] == [first];
    while more
      invariant iter.Valid() && start < iter.cursor
      invariant more <==> iter.cursor < |iter.items|
      invariant buf == Joined(iter.items[start..iter.cursor], separator)
      decreases |iter.items| - iter.cursor
    {
      if separator.Some? {
        buf := buf + separator.value;
      }
      ghost var before := iter.items[start..iter.cursor];
      var obj := iter.Next();
      if obj.Some? {
        buf := buf + obj.value;
      }
      assert iter.items[start..iter.cursor] == before + [obj];
      JoinedSnoc(before, obj, separator);
      more := iter.HasNext();
    }
    assert iter.items[start..iter.cursor] == old(iter.Remaining());
    return Some(buf);
  }

  /** `join(Collection, String)`: null for a null collection, else the join of its iteration. */
  method JoinCollection(collection: Option<seq<Option<string>>>, separator: Option<string>) returns (r: Option<string>)
    ensures collection == None ==> r == None
    ensures collection.Some? ==> r == Some(Joined(collection.value, separator))
  {
    if collection.None? {
      return None;
    }
    var iter := new ElementIterator(collection.value);
    r := JoinIterator(iter, separator);
  }

  // ---------------------------------------------------------------------
  // toRegexQuoteArray and patternMatching
  // ---------------------------------------------------------------------

  /**
   * `toRegexQuoteArray`: a fresh array holding `quote` of each input string,
   * in order; `quote` stands for `java.util.regex.Pattern.quote`.
   */
  method ToRegexQuoteArray(stringArray: array?<string>, quote: string -> string) returns (r: array?<string>)
    ensures stringArray == null <==> r == null
    ensures stringArray != null ==>
      fresh(r) && r.Length == stringArray.Length &&
      forall i :: 0 <= i < r.Length ==> r[i] == quote(stringArray[i])
  {
    if stringArray == null {
      return null;
    }
    var regexQuoteArray := new string[stringArray.Length];
    for index := 0 to stringArray.Length
      invariant forall i :: 0 <= i < index ==> regexQuoteArray[i] == quote(stringArray[i])
    {
      regexQuoteArray[index] := quote(stringArray[index]);
    }
    return regexQuoteArray;
  }

  /**
   * The matching mode. `Unlisted` stands for any constant of the enum other
   * than the two the dispatcher names.
   */
  datatype PatternType = Wildcard | Regex | Unlisted

  /**
   * `patternMatching`: wildcard mode is the wildcard matcher; regex mode is a
   * full match by the platform's regular-expression engine, `fullMatch`,
   * which dereferences both strings; any other mode gives false.
   */
  method PatternMatching(patternType: PatternType, subject: Option<string>, pattern: Option<string>,
                         fullMatch: (string, string) -> bool) returns (r: bool)
    requires patternType == Regex ==> subject.Some? && pattern.Some?
    ensures patternType == Wildcard ==>
      (r <==> subject.Some? && pattern.Some? && Matches(subject.value, pattern.value))
    ensures patternType == Regex ==> r == fullMatch(subject.value, pattern.value)
    ensures patternType == Unlisted ==> !r
  {
    match patternType
    case Wildcard =>
      r := Matcher.Matching(subject, pattern);
    case Regex =>
      r := fullMatch(subject.value, pattern.value);
    case Unlisted =>
      r := false;
  }
}
