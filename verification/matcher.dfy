/**
 * The wildcard matcher of `StringUtils.matching`: a scan with two cursors
 * (`sNdx` into the subject, `pNdx` into the pattern) and a flag saying that
 * the next pattern character is a literal, with a backtracking search over
 * every split point of the subject when a `*` is met.
 *
 * `Scan`, `SearchSplits` and `Restart` state the scan step by step as
 * functions. The method `MatchingAt` is the private recursive code itself and
 * is proved equal to `Restart`. `RestartCorrect` ties the scan to the
 * reference meaning `GlobSemantics.Matches`, and through it the public method
 * `Matching` is specified by `Matches` alone.
 */
module Matcher {
  import opened Wrappers
  import opened GlobSemantics

  /** First pattern index at or after `j` whose character is not `*`. */
  function SkipStars(p: string, j: nat): (r: nat)
    requires j <= |p|
    ensures j <= r <= |p|
    ensures forall t :: j <= t < r ==> p[t] == '*'
    ensures r < |p| ==> p[r] != '*'
    decreases |p| - j
  {
    if j < |p| && p[j] == '*' then SkipStars(p, j + 1) else j
  }

  /**
   * Result of the scan loop from subject index `i` and pattern index `j`;
   * `literalNext` is the escape flag (`nextIsNotWildcard`).
   */
  function Scan(s: string, p: string, i: nat, j: nat, literalNext: bool): (r: bool)
    requires i <= |s| && j <= |p|
    ensures i == |s| ==> (r <==> forall t :: j <= t < |p| ==> p[t] == '*')
    ensures i < |s| && j == |p| ==> !r
    decreases |p| - j, |s| + 2
  {
    if i >= |s| then
      // subject exhausted: only trailing stars may remain
      SkipStars(p, j) >= |p|
    else if j >= |p| then
      false
    else if literalNext then
      p[j] == s[i] && Scan(s, p, i + 1, j + 1, false)
    else if p[j] == '\\' then
      Scan(s, p, i, j + 1, true)
    else if p[j] == '?' then
      Scan(s, p, i + 1, j + 1, false)
    else if p[j] == '*' then
      if j + 1 < |p| && p[j + 1] == '*' then Scan(s, p, i, j + 1, false)
      else SearchSplits(s, p, j + 1, i, |s|)
    else
      p[j] == s[i] && Scan(s, p, i + 1, j + 1, false)
  }

  /** The descending split-point loop: tries restarts at `k`, `k - 1`, ..., `lo`. */
  function SearchSplits(s: string, p: string, j: nat, lo: nat, k: int): (r: bool)
    requires lo <= |s| && j <= |p| && lo - 1 <= k <= |s|
    ensures r <==> exists m :: lo <= m <= k && Restart(s, p, m, j)
    decreases |p| - j + 1, k - lo + 1
  {
    if k < lo then false
    else if Restart(s, p, k, j) then
      assert lo <= k <= k && Restart(s, p, k, j);  // `k` is the witness
      true
    else
      // `k` failed, so a successful split lies in `[lo, k - 1]`, and back
      var rest := SearchSplits(s, p, j, lo, k - 1);
      assert (exists m :: lo <= m <= k && Restart(s, p, m, j)) ==> rest;
      assert rest ==> exists m :: lo <= m <= k && Restart(s, p, m, j);
      rest
  }

  /** A call of the private recursive `matching`: the one-star shortcut, then the scan. */
  function Restart(s: string, p: string, i: nat, j: nat): (r: bool)
    requires i <= |s| && j <= |p|
    ensures p == "*" ==> r
    ensures i == |s| ==> (r <==> forall t :: j <= t < |p| ==> p[t] == '*')
    decreases |p| - j, |s| + 3
  {
    if |p| == 1 && p[0] == '*' then true else Scan(s, p, i, j, false)
  }

  /** Some restart at a split point in `[lo, k]` succeeds. */
  predicate SomeSplitMatches(s: string, p: string, j: nat, lo: nat, k: int)
    requires j <= |p| && k <= |s|
  {
    exists m :: lo <= m <= k && Restart(s, p, m, j)
  }

  /** What a scan state promises in the reference semantics. */
  predicate StateMeaning(s: string, p: string, i: nat, j: nat, literalNext: bool)
    requires i <= |s| && j <= |p|
  {
    if literalNext then j < |p| && i < |s| && p[j] == s[i] && Matches(s[i + 1..], p[j + 1..])
    else Matches(s[i..], p[j..])
  }

  /**
   * Every reachable scan state computes what the reference semantics says
   * (the escape flag is only ever set while subject characters remain).
   */
  lemma {:induction false} ScanCorrect(s: string, p: string, i: nat, j: nat, literalNext: bool)
    requires i <= |s| && j <= |p|
    requires literalNext ==> i < |s|
    ensures Scan(s, p, i, j, literalNext) == StateMeaning(s, p, i, j, literalNext)
    decreases |p| - j
  {
    if i >= |s| {
      assert s[i..] == "";
      EmptySubjectMatches(p[j..]);
      return;
    }
    if j >= |p| {
      assert p[j..] == "";
      MatchesEmptyPattern(s[i..]);
      return;
    }
    var x, q := s[i..], p[j + 1..];
    assert p[j..] == [p[j]] + q;
    assert x != [] && x[0] == s[i] && x[1..] == s[i + 1..];
    if literalNext {
      ScanCorrect(s, p, i + 1, j + 1, false);
    } else if p[j] == '\\' {
      ScanCorrect(s, p, i, j + 1, true);
      if j + 1 < |p| {
        assert p[j..] == ['\\', p[j + 1]] + p[j + 2..];
        MatchesEscaped(x, p[j + 1], p[j + 2..]);
      } else {
        assert p[j..] == ['\\'];
        MatchesLoneEscape(x);
      }
    } else if p[j] == '?' {
      ScanCorrect(s, p, i + 1, j + 1, false);
      MatchesAnyOne(x, q);
    } else if p[j] == '*' {
      if j + 1 < |p| && p[j + 1] == '*' {
        ScanCorrect(s, p, i, j + 1, false);
        assert q == ['*'] + p[j + 2..];
        assert p[j..] == ['*', '*'] + p[j + 2..];
        StarStar(x, p[j + 2..]);
      } else {
        MatchesStar(x, q);
        if |p| == 1 {
          // the one-star shortcut of the restart at the end of the subject
          assert Restart(s, p, |s|, j + 1);
          assert x[|x|..] == "" && q == "";
          MatchesEmptyPattern(x[|x|..]);
        } else {
          forall m | i <= m <= |s|
            ensures Restart(s, p, m, j + 1) == Matches(s[m..], q)
          {
            ScanCorrect(s, p, m, j + 1, false);
          }
          if Matches(x, p[j..]) {
            var k :| 0 <= k <= |x| && Matches(x[k..], q);
            assert x[k..] == s[i + k..];
          }
          if SomeSplitMatches(s, p, j + 1, i, |s|) {
            var m :| i <= m <= |s| && Restart(s, p, m, j + 1);
            assert x[m - i..] == s[m..];
          }
        }
      }
    } else {
      ScanCorrect(s, p, i + 1, j + 1, false);
      MatchesLiteral(x, p[j], q);
    }
  }

  /**
   * A call of the private `matching` at offsets `(i, j)` agrees with the
   * reference semantics on the remaining subject and pattern, except for the
   * one-star shortcut, which the public entry only ever meets at `j == 0`.
   */
  lemma RestartCorrect(s: string, p: string, i: nat, j: nat)
    requires i <= |s| && j <= |p|
    requires p == "*" ==> j == 0
    ensures Restart(s, p, i, j) <==> Matches(s[i..], p[j..])
  {
    if p == "*" {
      assert p[j..] == "*";
      StarMatchesEverything(s[i..]);
    } else {
      ScanCorrect(s, p, i, j, false);
    }
  }

  /**
   * An unescaped `*` at `(i, j)` succeeds exactly when some split point of
   * the remaining subject matches the rest of the pattern.
   */
  lemma StarTriesEverySplit(s: string, p: string, i: nat, j: nat)
    requires i <= |s| && j < |p| && p[j] == '*'
    ensures Scan(s, p, i, j, false) <==> SomeSplitMatches(s, p, j + 1, i, |s|)
  {
    ScanCorrect(s, p, i, j, false);
    var x, q := s[i..], p[j + 1..];
    assert p[j..] == ['*'] + q;
    MatchesStar(x, q);
    if p == "*" {
      assert Restart(s, p, |s|, j + 1);
      StarMatchesEverything(x);
    } else {
      forall k | i <= k <= |s| ensures Restart(s, p, k, j + 1) == Matches(s[k..], q) {
        RestartCorrect(s, p, k, j + 1);
      }
      if Scan(s, p, i, j, false) {
        var m :| 0 <= m <= |x| && Matches(x[m..], q);
        assert x[m..] == s[i + m..];
      }
      if SomeSplitMatches(s, p, j + 1, i, |s|) {
        var k :| i <= k <= |s| && Restart(s, p, k, j + 1);
        assert x[k - i..] == s[k..];
      }
    }
  }

  /**
   * The private `matching`: the `while (true)` scan, with a recursive call
   * per split point when it meets a `*`.
   */
  method MatchingAt(s: string, p: string, stringStart: nat, patternStart: nat) returns (r: bool)
    requires stringStart <= |s| && patternStart <= |p|
    ensures r == Restart(s, p, stringStart, patternStart)
    decreases |p| - patternStart
  {
    var pNdx: nat := patternStart;
    var sNdx: nat := stringStart;
    var pLen := |p|;
    if pLen == 1 {
      // speed-up
      if p[0] == '*' {
        return true;
      }
    }
    var sLen := |s|;
    var literalNext := false;
    while true
      invariant sNdx <= sLen && patternStart <= pNdx <= pLen
      invariant Scan(s, p, sNdx, pNdx, literalNext) == Restart(s, p, stringStart, patternStart)
      decreases pLen - pNdx
    {
      if sNdx >= sLen {
        ghost var from := pNdx;
        while pNdx < pLen && p[pNdx] == '*'
          invariant from <= pNdx <= pLen
          invariant SkipStars(p, pNdx) == SkipStars(p, from)
        {
          pNdx := pNdx + 1;
        }
        return pNdx >= pLen;
      }
      if pNdx >= pLen {
        return false;
      }
      var c := p[pNdx];
      if !literalNext {
        if c == '\\' {
          pNdx := pNdx + 1;
          literalNext := true;
          continue;
        }
        if c == '?' {
          sNdx := sNdx + 1;
          pNdx := pNdx + 1;
          continue;
        }
        if c == '*' {
          var next := '\0';
          if pNdx + 1 < pLen {
            next := p[pNdx + 1];
          }
          // a double '*' has the same effect as one '*'
          if next == '*' {
            pNdx := pNdx + 1;
            continue;
          }
          pNdx := pNdx + 1;
          var k: int := sLen;
          while k >= sNdx
            invariant sNdx - 1 <= k <= sLen
            invariant SearchSplits(s, p, pNdx, sNdx, k) == Restart(s, p, stringStart, patternStart)
            decreases k - sNdx + 1
          {
            var found := MatchingAt(s, p, k, pNdx);
            if found {
              return true;
            }
            k := k - 1;
          }
          return false;
        }
      } else {
        literalNext := false;
      }
      if c != s[sNdx] {
        return false;
      }
      sNdx := sNdx + 1;
      pNdx := pNdx + 1;
    }
  }

  /**
   * The public `matching`: false when either argument is null, otherwise the
   * private scan from the start of both strings.
   */
  method Matching(subject: Option<string>, wildcard: Option<string>) returns (r: bool)
    ensures r <==> subject.Some? && wildcard.Some? && Matches(subject.value, wildcard.value)
  {
    if wildcard.None? || subject.None? {
      return false;
    }
    r := MatchingAt(subject.value, wildcard.value, 0, 0);
    RestartCorrect(subject.value, wildcard.value, 0, 0);
    assert subject.value[0..] == subject.value && wildcard.value[0..] == wildcard.value;
  }
}
