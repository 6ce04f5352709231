# Wildcard matching and string helpers of jvmbytes commons-utils, in Dafny

This project models the glob-style wildcard matcher of `StringUtils.matching`.
A subject string is matched against a pattern in which `*` stands for any run
of characters (possibly none), `?` for exactly one character, and `\` makes the
next pattern character a literal. Around the matcher it models the rest of
`StringUtils`:

- the `patternMatching` dispatcher;
- the null-aware `isEmpty` and `equals`;
- `join` over an array, an iterator and a collection;
- `toRegexQuoteArray`.

It also models the small helpers of `ArrayUtils` (emptiness, length,
`contains`) and `BitUtils.isIn`.

Files and modules:

- `wrappers.dfy` (`Wrappers`): `Option`, standing for a Java reference that may be null.
- `glob.dfy` (`GlobSemantics`): the meaning of a pattern, independent of any
  algorithm. `Tokenize` resolves escapes into tokens (`Literal`, `AnyOne`,
  `AnyRun`); `Glob` says when a subject is accepted by a token sequence;
  `Matches(s, p)` combines the two. Lemmas give the meaning of each leading
  pattern character and the properties of the pattern language.
- `matcher.dfy` (`Matcher`): the algorithm itself. `Scan`, `SearchSplits` and
  `Restart` describe the scan with two cursors (`sNdx`, `pNdx`) and the escape
  flag (`nextIsNotWildcard`) step by step. The method `MatchingAt` is the
  private recursive `matching`, written with the same `while (true)` loop and
  the same descending loop over split points, and is proved equal to `Restart`.
  `ScanCorrect` proves that every reachable scan state computes what `Matches`
  says, so the public method `Matching` is specified by `Matches` alone.
- `string_utils.dfy` (`StringUtils`): the other `StringUtils` members. The
  iterator that `join` consumes is the class `ElementIterator`: a sequence and
  a cursor.
- `array_utils.dfy` (`ArrayUtils`) and `bit_utils.dfy` (`BitUtils`).

Modelling choices:

- A Java `String` that may be null is an `Option<string>`. A Java array is an
  `array?`, and its `Object` elements are `Option` values.
- A Java `int` used as a bit set is a `bv32`, so `-1` is `0xFFFF_FFFF`.
- Each element's `toString()` is taken as given: the elements of `join` are
  already `Option<string>`.
- `Object.equals` is value equality.
- `java.util.regex.Pattern.quote` is the parameter `quote`.
- `String.matches`, the regular-expression engine, is the parameter `fullMatch`.

The one-star shortcut (`pLen == 1` and the pattern is `*`) sits inside the
private recursive `matching`, so it runs on every recursive call. The model
keeps it there (`Restart`). At a recursive call it would answer "true" even
when subject characters remain. It never changes a result, because the
outermost call already returned "true" for that pattern. `RestartCorrect`
states this precisely.

Collapsing runs of `*` in the raw pattern text is proved to keep the result
for patterns without backslashes (`CollapsePreservesMatch`). With a backslash
it can fail: in `\**` the first `*` is escaped, so it is not part of a run.
`CollapseChangesEscapedPattern` shows a subject that `\**` matches and its
collapsed form `\*` does not.

## Model

| member | source | states |
|---|---|---|
| `Matcher.Matching` | utils/src/main/java/com/jvmbytes/commons/utils/StringUtils.java:44-48 | false when the subject or the pattern is null; otherwise true exactly when the subject matches the pattern in the reference semantics `Matches` |
| `Matcher.MatchingAt` | utils/src/main/java/com/jvmbytes/commons/utils/StringUtils.java:53-135 | the `while (true)` scan with recursive calls at every split point returns what the step-by-step description `Restart` of the same offsets gives |
| `Matcher.Restart` | utils/src/main/java/com/jvmbytes/commons/utils/StringUtils.java:53-63 | a call of the private `matching`: the pattern `*` alone succeeds at once; with the subject exhausted it succeeds iff every remaining pattern character is `*` |
| `Matcher.Scan` | utils/src/main/java/com/jvmbytes/commons/utils/StringUtils.java:67-134 | the `while (true)` loop from a state (both cursors and the escape flag): with the subject exhausted it succeeds iff every remaining pattern character is `*`; an exhausted pattern with subject characters left fails (its full meaning is `ScanCorrect`) |
| `Matcher.SearchSplits` | utils/src/main/java/com/jvmbytes/commons/utils/StringUtils.java:113-120 | the descending loop over split points `k`, `k - 1`, ..., `lo` succeeds iff a restart at some split point in `[lo, k]` succeeds |
| `Matcher.ScanCorrect` | utils/src/main/java/com/jvmbytes/commons/utils/StringUtils.java:67-134 | every reachable state of the scan (both cursors and the escape flag) yields exactly the reference meaning of the remaining subject against the remaining pattern |
| `Matcher.RestartCorrect` | utils/src/main/java/com/jvmbytes/commons/utils/StringUtils.java:53-63 | a call at offsets `(i, j)`, one-star shortcut included, agrees with the reference meaning of the suffixes, whenever the shortcut cannot misfire (pattern other than `*`, or `j == 0`) |
| `Matcher.StarTriesEverySplit` | utils/src/main/java/com/jvmbytes/commons/utils/StringUtils.java:99-120 | an unescaped `*` at `(sNdx, pNdx)` succeeds iff a restart at some split point `i` in `[sNdx, |s|]` with pattern index `pNdx + 1` succeeds |
| `Matcher.SkipStars` | utils/src/main/java/com/jvmbytes/commons/utils/StringUtils.java:72-74 | the result is the first index at or after the start that is not a `*`, with only `*` skipped in between |
| `GlobSemantics.StarMatchesEverything` | utils/src/main/java/com/jvmbytes/commons/utils/StringUtils.java:58-62 | the pattern `*` matches every subject, the empty one included |
| `GlobSemantics.EmptySubjectMatches` | utils/src/main/java/com/jvmbytes/commons/utils/StringUtils.java:71-76 | `""` matches `p` iff every character of `p` is `*` |
| `GlobSemantics.MatchesEmptyPattern` | utils/src/main/java/com/jvmbytes/commons/utils/StringUtils.java:79-81 | the empty pattern matches only the empty subject |
| `GlobSemantics.MatchesStar` | utils/src/main/java/com/jvmbytes/commons/utils/StringUtils.java:99-120 | a leading unescaped `*` matches iff the rest of the pattern matches some suffix of the subject |
| `GlobSemantics.MatchesAnyOne` | utils/src/main/java/com/jvmbytes/commons/utils/StringUtils.java:94-98 | a leading `?` consumes exactly one subject character |
| `GlobSemantics.MatchesEscaped` | utils/src/main/java/com/jvmbytes/commons/utils/StringUtils.java:89-93 | a backslash followed by any character, special ones included, matches exactly that character |
| `GlobSemantics.MatchesLoneEscape` | utils/src/main/java/com/jvmbytes/commons/utils/StringUtils.java:89-93 | a pattern made of a single backslash matches nothing |
| `GlobSemantics.MatchesLiteral` | utils/src/main/java/com/jvmbytes/commons/utils/StringUtils.java:126-133 | a character without special meaning must equal the next subject character |
| `GlobSemantics.StarStar` | utils/src/main/java/com/jvmbytes/commons/utils/StringUtils.java:105-109 | two consecutive unescaped `*` accept exactly what one `*` accepts |
| `GlobSemantics.PlainPatternMatchesItself` | utils/src/main/java/com/jvmbytes/commons/utils/StringUtils.java:126-133 | a pattern without `*`, `?` or `\` matches a subject iff the two are equal |
| `GlobSemantics.TrailingEscapes` | utils/src/main/java/com/jvmbytes/commons/utils/StringUtils.java:89-93 | the length of the run of backslashes that ends the pattern: every one of the last `n` characters is `\`, and the character before them, if any, is not |
| `GlobSemantics.TokenizeFailsIffOddEscapes` | utils/src/main/java/com/jvmbytes/commons/utils/StringUtils.java:89-93 | a pattern is left without a meaning exactly when it ends in an odd run of backslashes, i.e. an unpaired `\` |
| `GlobSemantics.DanglingEscapeNeverMatches` | utils/src/main/java/com/jvmbytes/commons/utils/StringUtils.java:71-81 | a pattern ending in an unpaired `\` matches no subject |
| `GlobSemantics.CollapseStars` | utils/src/main/java/com/jvmbytes/commons/utils/StringUtils.java:105-109 | the collapsed pattern is no longer, keeps the first character, uses only characters of the original and has no two adjacent `*` |
| `GlobSemantics.CollapsePreservesMatch` | utils/src/main/java/com/jvmbytes/commons/utils/StringUtils.java:105-109 | for patterns without backslashes, collapsing runs of `*` keeps the match result for every subject |
| `GlobSemantics.CollapseChangesEscapedPattern` | utils/src/main/java/com/jvmbytes/commons/utils/StringUtils.java:87-109 | with a backslash the raw collapse changes meaning: `*x` matches `\**` but not its collapse `\*` |
| `GlobSemantics.AnyOneExamples` | utils/src/main/java/com/jvmbytes/commons/utils/StringUtils.java:94-98 | `ab` matches `a?` and `a` does not |
| `GlobSemantics.EscapeExamples` | utils/src/main/java/com/jvmbytes/commons/utils/StringUtils.java:87-93 | `a*b` matches `a\*b` and `axb` does not |
| `GlobSemantics.StarSuffixExamples` | utils/src/main/java/com/jvmbytes/commons/utils/StringUtils.java:32-33 | `java.lang.String` matches `*String` and `java.lang.Stringx` does not |
| `StringUtils.PatternMatching` | utils/src/main/java/com/jvmbytes/commons/utils/StringUtils.java:145-155 | wildcard mode is the wildcard match (false on null); regex mode is the engine's full match; any other mode is false |
| `StringUtils.IsEmpty` | utils/src/main/java/com/jvmbytes/commons/utils/StringUtils.java:24-27 | true exactly for null and `""` |
| `StringUtils.Equals` | utils/src/main/java/com/jvmbytes/commons/utils/StringUtils.java:181-192 | true iff both are null or both are non-null with the same content |
| `StringUtils.JoinArray` | utils/src/main/java/com/jvmbytes/commons/utils/StringUtils.java:253-278 | null for a null array; otherwise the element texts in order, null as `""`, with the separator between neighbours |
| `StringUtils.JoinIterator` | utils/src/main/java/com/jvmbytes/commons/utils/StringUtils.java:217-244 | null for a null iterator; otherwise the join of everything the iterator had left, which it consumes completely |
| `StringUtils.JoinCollection` | utils/src/main/java/com/jvmbytes/commons/utils/StringUtils.java:203-208 | null for a null collection; otherwise the join of its elements in iteration order |
| `StringUtils.JoinedSnoc` | utils/src/main/java/com/jvmbytes/commons/utils/StringUtils.java:269-276 | the left-to-right build (separator, then element) gives the same string as the join definition |
| `StringUtils.JoinedLength` | utils/src/main/java/com/jvmbytes/commons/utils/StringUtils.java:229-243 | a join of n > 0 elements is as long as all element texts plus exactly n - 1 separators |
| `StringUtils.JoinedNulls` | utils/src/main/java/com/jvmbytes/commons/utils/StringUtils.java:264-277 | joining n > 0 nulls gives exactly n - 1 copies of the separator |
| `StringUtils.ElementIterator.constructor` | utils/src/main/java/com/jvmbytes/commons/utils/StringUtils.java:207 | a fresh iterator over a collection has all of its elements left |
| `StringUtils.ElementIterator.HasNext` | utils/src/main/java/com/jvmbytes/commons/utils/StringUtils.java:221 | true iff elements remain |
| `StringUtils.ElementIterator.Next` | utils/src/main/java/com/jvmbytes/commons/utils/StringUtils.java:224 | yields the first remaining element and removes it |
| `StringUtils.ToRegexQuoteArray` | utils/src/main/java/com/jvmbytes/commons/utils/StringUtils.java:163-172 | null for null; otherwise a fresh array of the same length whose i-th entry is `quote` of the i-th input |
| `ArrayUtils.IsEmpty` | utils/src/main/java/com/jvmbytes/commons/utils/ArrayUtils.java:17-20 | true iff the array has no elements, a null array having none |
| `ArrayUtils.IsNotEmpty` | utils/src/main/java/com/jvmbytes/commons/utils/ArrayUtils.java:29-31 | true iff the array is non-null with at least one element |
| `ArrayUtils.GetLength` | utils/src/main/java/com/jvmbytes/commons/utils/ArrayUtils.java:40-44 | the number of elements, 0 for null |
| `ArrayUtils.Contains` | utils/src/main/java/com/jvmbytes/commons/utils/ArrayUtils.java:53-60 | true iff some element equals the target, so false on an empty array |
| `ArrayUtils.ContainsIgnoresOrder` | utils/src/main/java/com/jvmbytes/commons/utils/ArrayUtils.java:53-60 | the outcome depends on which elements are present, not on their order |
| `BitUtils.IsIn` | utils/src/main/java/com/jvmbytes/commons/utils/BitUtils.java:17-27 | false for a null or empty mask array; otherwise true iff some mask has all its bits set in the target |
| `BitUtils.ZeroMaskCoversAll` | utils/src/main/java/com/jvmbytes/commons/utils/BitUtils.java:22 | a mask array containing 0 accepts every target |
| `BitUtils.AllOnesInAny` | utils/src/main/java/com/jvmbytes/commons/utils/BitUtils.java:22 | the all-ones target (-1) is in every non-empty mask array |
| `BitUtils.InAnyDependsOnSet` | utils/src/main/java/com/jvmbytes/commons/utils/BitUtils.java:21-26 | the outcome depends only on the set of masks, not on their order or repetition |

## Left out

- The regular-expression branch of `patternMatching` uses the JDK engine. It is the parameter `fullMatch`, and a malformed expression (`PatternSyntaxException`) is not modelled.
- `StringUtils.PatternMatching`: requires non-null strings in regex mode, where the source would throw `NullPointerException`. A null mode, where the `switch` itself throws, is not modelled. The declaration of the `PatternType` enum is not part of this model. `Unlisted` stands for any other constant it may have.
- `java.util.regex.Pattern.quote` is a foreign call, so it is the parameter `quote`. Its escaping is not modelled, and neither is whether a quoted string is matched literally by the regex engine.
- `StringUtils.ToRegexQuoteArray`: the input elements are non-null strings. A null element, on which `Pattern.quote` throws `NullPointerException`, is not modelled.
- `ArrayUtils.Contains`: requires a non-null array and every element to be non-null. The for-each over a null array throws `NullPointerException`, which is not modelled; on elements the source throws only when it reaches a null element before finding the target.
- `Object.toString()` is taken as given for `join` elements, and `Object.equals` is value equality.
- A `Collection` is modelled by its iteration order. `java.util.Iterator` is modelled by `ElementIterator`, a sequence with a cursor.
- Reference identity (`cs1 == cs2` in `equals`) is not modelled. Identical non-null references also pass the content comparison, so the result is the same.
- A Java `String` is a sequence of UTF-16 code units, while a Dafny `string` is a sequence of Unicode scalar values. The two agree only on text without supplementary characters. Subjects or patterns holding supplementary characters (surrogate pairs in Java) are outside the model: there `?` consumes one code point, where the source consumes one code unit, so for a subject made of the single character U+1F600 the pattern `?` fails in the source and succeeds in the model, and `??` the other way round.
- Loop counters are unbounded integers; the source's `int` cannot overflow for strings of realistic length.
- Stack depth and running time are not modelled. Each recursive call of the private `matching` starts at a strictly larger pattern index, so recursion depth is bounded by the number of unescaped, non-collapsed `*` in the pattern plus one; a pattern with very many such `*` can overflow the stack. The subject length together with the number of stars drives the worst-case running time of the backtracking search.
- `IOUtils`, `LazyGet`, `LRUCache` and `UnCaughtException` are not part of this model. They cover stream I/O, lazy initialisation behind `volatile` fields, eviction inherited from `LinkedHashMap`, and an exception type with no logic.
