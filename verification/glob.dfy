/**
 * The meaning of a wildcard pattern, stated independently of the scanning
 * algorithm in `Matcher`: the pattern text is first split into tokens
 * (escapes resolved), and a subject matches when it is the concatenation of
 * pieces each token accepts.
 */
module GlobSemantics {
  import opened Wrappers

  /** One unit of a pattern once escapes are resolved. */
  datatype Token =
    | Literal(c: char)  // a character that must appear as is
    | AnyOne            // `?`: exactly one character
    | AnyRun            // `*`: any run of characters, including none

  /** True when `c` has a special meaning in a pattern. */
  predicate IsSpecial(c: char) {
    c == '*' || c == '?' || c == '\\'
  }

  function Prepend(t: Token, rest: Option<seq<Token>>): Option<seq<Token>> {
    match rest
    case None => None
    case Some(ts) => Some([t] + ts)
  }

  /**
   * Splits pattern text into tokens. A backslash makes the character after it
   * a literal, whatever it is; a backslash with nothing after it leaves the
   * pattern without a meaning (`None`).
   */
  function Tokenize(p: string): Option<seq<Token>>
    decreases |p|
  {
    if p == [] then Some([])
    else if p[0] == '\\' then
      if |p| == 1 then None else Prepend(Literal(p[1]), Tokenize(p[2..]))
    else if p[0] == '?' then Prepend(AnyOne, Tokenize(p[1..]))
    else if p[0] == '*' then Prepend(AnyRun, Tokenize(p[1..]))
    else Prepend(Literal(p[0]), Tokenize(p[1..]))
  }

  /** `s` is accepted by the token sequence `ts`. */
  predicate Glob(s: string, ts: seq<Token>)
    decreases |ts|
  {
    if ts == [] then s == []
    else match ts[0]
      case Literal(c) => s != [] && s[0] == c && Glob(s[1..], ts[1..])
      case AnyOne => s != [] && Glob(s[1..], ts[1..])
      case AnyRun => exists k :: 0 <= k <= |s| && Glob(s[k..], ts[1..])
  }

  /** Reference meaning of "subject `s` matches wildcard pattern `p`". */
  predicate Matches(s: string, p: string) {
    Tokenize(p).Some? && Glob(s, Tokenize(p).value)
  }

  // ---------------------------------------------------------------------
  // One lemma per leading pattern character: how `Matches` unfolds.
  // ---------------------------------------------------------------------

  lemma MatchesEmptyPattern(s: string)
    ensures Matches(s, "") <==> s == []
  {
  }

  /** A leading `*` absorbs some prefix of the subject, possibly empty. */
  lemma MatchesStar(s: string, q: string)
    ensures Matches(s, ['*'] + q) <==> exists k :: 0 <= k <= |s| && Matches(s[k..], q)
  {
  }

  /** A leading `?` consumes exactly one subject character. */
  lemma MatchesAnyOne(s: string, q: string)
    ensures Matches(s, ['?'] + q) <==> s != [] && Matches(s[1..], q)
  {
  }

  /** A backslash followed by `c` matches `c` itself, even when `c` is special. */
  lemma MatchesEscaped(s: string, c: char, q: string)
    ensures Matches(s, ['\\', c] + q) <==> s != [] && s[0] == c && Matches(s[1..], q)
  {
  }

  /** A backslash that ends the pattern matches nothing. */
  lemma MatchesLoneEscape(s: string)
    ensures !Matches(s, ['\\'])
  {
  }

  /** A character without special meaning must equal the subject's next character. */
  lemma MatchesLiteral(s: string, c: char, q: string)
    requires !IsSpecial(c)
    ensures Matches(s, [c] + q) <==> s != [] && s[0] == c && Matches(s[1..], q)
  {
  }

  // ---------------------------------------------------------------------
  // Properties of the pattern language.
  // ---------------------------------------------------------------------

  /** The pattern `*` matches every subject, the empty one included. */
  lemma StarMatchesEverything(s: string)
    ensures Matches(s, "*")
  {
    assert "*" == ['*'] + "";
    MatchesStar(s, "");
    MatchesEmptyPattern(s[|s|..]);
  }

  /** The empty subject matches `p` exactly when every character of `p` is `*`. */
  lemma {:induction false} EmptySubjectMatches(p: string)
    ensures Matches("", p) <==> forall t :: 0 <= t < |p| ==> p[t] == '*'
    decreases |p|
  {
    if p == [] {
      MatchesEmptyPattern("");
    } else {
      var q := p[1..];
      assert p == [p[0]] + q;
      if p[0] == '*' {
        MatchesStar("", q);
        assert ""[0..] == "";
        EmptySubjectMatches(q);
        assert (forall t :: 0 <= t < |q| ==> q[t] == '*') <==> (forall t :: 0 <= t < |p| ==> p[t] == '*') by {
          if forall t :: 0 <= t < |q| ==> q[t] == '*' {
            forall t | 0 <= t < |p| ensures p[t] == '*' {
              if t > 0 { assert p[t] == q[t - 1]; }
            }
          }
        }
      } else if p[0] == '?' {
        MatchesAnyOne("", q);
      } else if p[0] == '\\' {
        if |p| == 1 {
          MatchesLoneEscape("");
        } else {
          var r := p[2..];
          assert q == [q[0]] + r;
          assert p == ['\\', p[1]] + r;
          MatchesEscaped("", p[1], r);
        }
      } else {
        MatchesLiteral("", p[0], q);
      }
    }
  }

  /** Two consecutive `*` accept exactly what one `*` accepts. */
  lemma StarStar(s: string, q: string)
    ensures Matches(s, ['*', '*'] + q) <==> Matches(s, ['*'] + q)
  {
    var q1 := ['*'] + q;
    assert ['*', '*'] + q == ['*'] + q1;
    MatchesStar(s, q1);
    MatchesStar(s, q);
    if Matches(s, ['*'] + q1) {
      var k :| 0 <= k <= |s| && Matches(s[k..], q1);
      MatchesStar(s[k..], q);
      var m :| 0 <= m <= |s[k..]| && Matches(s[k..][m..], q);
      assert s[k..][m..] == s[k + m..];
    }
    if Matches(s, q1) {
      assert s[0..] == s;
    }
  }

  /** A pattern without special characters. */
  predicate Plain(p: string) {
    forall t :: 0 <= t < |p| ==> !IsSpecial(p[t])
  }

  /** A plain pattern matches exactly the subject equal to it. */
  lemma {:induction false} PlainPatternMatchesItself(s: string, p: string)
    requires Plain(p)
    ensures Matches(s, p) <==> s == p
    decreases |p|
  {
    if p == [] {
      MatchesEmptyPattern(s);
    } else {
      var q := p[1..];
      assert p == [p[0]] + q;
      assert !IsSpecial(p[0]);
      MatchesLiteral(s, p[0], q);
      if s != [] {
        assert Plain(q) by {
          forall t | 0 <= t < |q| ensures !IsSpecial(q[t]) { assert q[t] == p[t + 1]; }
        }
        PlainPatternMatchesItself(s[1..], q);
        assert s == [s[0]] + s[1..];
      }
    }
  }

  // ---------------------------------------------------------------------
  // Patterns that end in an unpaired backslash.
  // ---------------------------------------------------------------------

  /** Number of backslashes at the end of `p`. */
  function TrailingEscapes(p: string): (n: nat)
    ensures n <= |p|
    ensures forall t :: |p| - n <= t < |p| ==> p[t] == '\\'
    ensures n < |p| ==> p[|p| - n - 1] != '\\'
    decreases |p|
  {
    if p != [] && p[|p| - 1] == '\\' then 1 + TrailingEscapes(p[..|p| - 1]) else 0
  }

  /** How the trailing backslash count changes when a character is put in front. */
  lemma {:induction false} TrailingEscapesCons(a: char, q: string)
    ensures TrailingEscapes([a] + q) ==
      if TrailingEscapes(q) == |q| && a == '\\' then |q| + 1 else TrailingEscapes(q)
    decreases |q|
  {
    var p := [a] + q;
    if q != [] {
      assert p[|p| - 1] == q[|q| - 1];
      if q[|q| - 1] == '\\' {
        var q' := q[..|q| - 1];
        assert p[..|p| - 1] == [a] + q';
        TrailingEscapesCons(a, q');
      }
    } else {
      assert p[..|p| - 1] == [];
    }
  }

  /** A pattern has no meaning exactly when it ends in an odd run of backslashes. */
  lemma {:induction false} TokenizeFailsIffOddEscapes(p: string)
    ensures Tokenize(p).None? <==> TrailingEscapes(p) % 2 == 1
    decreases |p|
  {
    if p == [] {
    } else if p[0] == '\\' && |p| == 1 {
      assert p[..0] == [];
    } else {
      var q := p[1..];
      assert p == [p[0]] + q;
      TrailingEscapesCons(p[0], q);
      if p[0] == '\\' {
        var r := p[2..];
        assert q == [q[0]] + r;
        TrailingEscapesCons(q[0], r);
        TokenizeFailsIffOddEscapes(r);
      } else {
        TokenizeFailsIffOddEscapes(q);
      }
    }
  }

  /** A pattern ending in an unpaired backslash matches no subject. */
  lemma DanglingEscapeNeverMatches(s: string, p: string)
    requires TrailingEscapes(p) % 2 == 1
    ensures !Matches(s, p)
  {
    TokenizeFailsIffOddEscapes(p);
  }

  // ---------------------------------------------------------------------
  // Collapsing runs of `*`.
  // ---------------------------------------------------------------------

  /** Replaces every run of consecutive `*` in `p` by a single `*`. */
  function CollapseStars(p: string): (r: string)
    ensures |r| <= |p|
    ensures p != [] ==> r != [] && r[0] == p[0]
    ensures forall t :: 0 <= t < |r| ==> r[t] in p
    ensures forall t :: 0 <= t < |r| - 1 ==> !(r[t] == '*' && r[t + 1] == '*')
    decreases |p|
  {
    if p == [] then []
    else if |p| >= 2 && p[0] == '*' && p[1] == '*' then CollapseStars(p[1..])
    else [p[0]] + CollapseStars(p[1..])
  }

  /** For a pattern without backslashes, collapsing runs of `*` keeps its meaning. */
  lemma {:induction false} CollapsePreservesMatch(s: string, p: string)
    requires '\\' !in p
    ensures Matches(s, CollapseStars(p)) <==> Matches(s, p)
    decreases |p|
  {
    if p == [] {
      return;
    }
    var q := p[1..];
    assert p == [p[0]] + q;
    assert '\\' !in q;
    if |p| >= 2 && p[0] == '*' && p[1] == '*' {
      CollapsePreservesMatch(s, q);
      assert p == ['*', '*'] + q[1..];
      assert q == ['*'] + q[1..];
      StarStar(s, q[1..]);
    } else {
      var cq := CollapseStars(q);
      assert CollapseStars(p) == [p[0]] + cq;
      if p[0] == '*' {
        MatchesStar(s, cq);
        MatchesStar(s, q);
        forall k | 0 <= k <= |s| ensures Matches(s[k..], cq) <==> Matches(s[k..], q) {
          CollapsePreservesMatch(s[k..], q);
        }
      } else if p[0] == '?' {
        MatchesAnyOne(s, cq);
        MatchesAnyOne(s, q);
        if s != [] { CollapsePreservesMatch(s[1..], q); }
      } else {
        assert !IsSpecial(p[0]);
        MatchesLiteral(s, p[0], cq);
        MatchesLiteral(s, p[0], q);
        if s != [] { CollapsePreservesMatch(s[1..], q); }
      }
    }
  }

  /**
   * With a backslash the raw-text collapse changes the meaning: in `\**` the
   * first `*` is a literal, so it is not part of a run.
   */
  lemma CollapseChangesEscapedPattern()
    ensures Matches("*x", "\\**")
    ensures CollapseStars("\\**") == "\\*"
    ensures !Matches("*x", "\\*")
  {
    assert "\\**" == ['\\', '*'] + "*";
    MatchesEscaped("*x", '*', "*");
    assert "*x"[1..] == "x";
    StarMatchesEverything("x");
    assert "\\*" == ['\\', '*'] + "";
    MatchesEscaped("*x", '*', "");
    MatchesEmptyPattern("x");
    assert CollapseStars("*") == "*";
    assert CollapseStars("**") == "*";
  }

  // ---------------------------------------------------------------------
  // Worked examples.
  // ---------------------------------------------------------------------

  /** `?` demands exactly one character. */
  lemma AnyOneExamples()
    ensures Matches("ab", "a?")
    ensures !Matches("a", "a?")
  {
  }

  /** An escaped `*` is a literal star. */
  lemma EscapeExamples()
    ensures Matches("a*b", "a\\*b")
    ensures !Matches("axb", "a\\*b")
  {
  }

  /** A leading `*` lets a plain suffix match the end of a qualified name. */
  lemma StarSuffixExamples()
    ensures Matches("java.lang.String", "*String")
    ensures !Matches("java.lang.Stringx", "*String")
  {
    assert "*String" == ['*'] + "String";
    assert Plain("String");
    var s := "java.lang.String";
    MatchesStar(s, "String");
    assert s[10..] == "String";
    PlainPatternMatchesItself(s[10..], "String");
    var t := "java.lang.Stringx";
    MatchesStar(t, "String");
    forall k | 0 <= k <= |t| ensures !Matches(t[k..], "String") {
      PlainPatternMatchesItself(t[k..], "String");
      if |t[k..]| == 6 {
        assert t[k..][5] == 'x';
      }
    }
  }
}
