/** The wildcard matcher behind the `matches` operator of rules and groups
    (crates/s2l-store/src/match_.rs). */
module Glob {
  import opened Wrappers

  type Text = seq<char>

  /** What a pattern means: from position `j` it matches `h` from position `i`.
      A star stands for any run of characters, every other character for itself. */
  predicate MatchAt(h: Text, p: Text, i: nat, j: nat)
    requires i <= |h| && j <= |p|
    decreases |h| - i + |p| - j
  {
    if j == |p| then i == |h|
    else if p[j] == '*' then MatchAt(h, p, i, j + 1) || (i < |h| && MatchAt(h, p, i + 1, j))
    else i < |h| && h[i] == p[j] && MatchAt(h, p, i + 1, j + 1)
  }

  predicate Match(h: Text, p: Text) {
    MatchAt(h, p, 0, 0)
  }

  predicate AllStars(p: Text, j: nat)
    requires j <= |p|
  {
    forall k :: j <= k < |p| ==> p[k] == '*'
  }

  /** The indices of the scan always stand in this relation. */
  predicate ScanState(h: Text, p: Text, hi: nat, pi: nat, star: Option<nat>, starHi: nat) {
    && starHi <= hi <= |h|
    && pi <= |p|
    && (star.Some? ==> star.value < pi && p[star.value] == '*')
  }

  /** The rest of the scan from a given state: a literal step, a new star, a
      return to the last star, or failure. */
  function Scan(h: Text, p: Text, hi: nat, pi: nat, star: Option<nat>, starHi: nat): bool
    requires ScanState(h, p, hi, pi, star, starHi)
    decreases |p| - (if star.Some? then star.value + 1 else 0), |h| - starHi, |h| - hi
  {
    if hi == |h| then AllStars(p, pi)
    else if pi < |p| && p[pi] == h[hi] then Scan(h, p, hi + 1, pi + 1, star, starHi)
    else if pi < |p| && p[pi] == '*' then Scan(h, p, hi, pi + 1, Some(pi), hi)
    else if star.Some? then Scan(h, p, starHi + 1, star.value + 1, star, starHi + 1)
    else false
  }

  function GlobResult(h: Text, p: Text): bool {
    Scan(h, p, 0, 0, None, 0)
  }

  /** The matcher as the program runs it: one remembered star, indices that move back. */
  method Glob(h: Text, p: Text) returns (matched: bool)
    ensures matched == GlobResult(h, p)
    ensures matched ==> Match(h, p)
    ensures StarsOnlyLast(h) ==> matched == Match(h, p)
  {
    var hi: nat, pi: nat := 0, 0;
    var star: Option<nat>, starHi: nat := None, 0;
    while hi < |h|
      invariant ScanState(h, p, hi, pi, star, starHi)
      invariant GlobResult(h, p) == Scan(h, p, hi, pi, star, starHi)
      decreases |p| - (if star.Some? then star.value + 1 else 0), |h| - starHi, |h| - hi
    {
      if pi < |p| && p[pi] == h[hi] {
        hi, pi := hi + 1, pi + 1;
      } else if pi < |p| && p[pi] == '*' {
        star, starHi := Some(pi), hi;
        pi := pi + 1;
      } else if star.Some? {
        pi := star.value + 1;
        starHi := starHi + 1;
        hi := starHi;
      } else {
        SoundAndComplete(h, p);
        return false;
      }
    }
    ghost var tail := pi;
    while pi < |p| && p[pi] == '*'
      invariant tail <= pi <= |p|
      invariant forall k :: tail <= k < pi ==> p[k] == '*'
    {
      pi := pi + 1;
    }
    SoundAndComplete(h, p);
    return pi == |p|;
  }

  /** No star in the text except possibly as its last character. */
  predicate StarsOnlyLast(h: Text) {
    forall i :: 0 <= i < |h| - 1 ==> h[i] != '*'
  }

  // ----- soundness: a scan that succeeds has found a match -----

  lemma {:induction false} StarAbsorbs(h: Text, p: Text, i: nat, i': nat, j: nat)
    requires i <= i' <= |h| && j < |p| && p[j] == '*'
    requires MatchAt(h, p, i', j)
    ensures MatchAt(h, p, i, j)
    decreases i' - i
  {
    if i < i' {
      StarAbsorbs(h, p, i + 1, i', j);
    }
  }

  lemma {:induction false} StarsMatchNothing(h: Text, p: Text, j: nat)
    requires j <= |p|
    ensures MatchAt(h, p, |h|, j) <==> AllStars(p, j)
    decreases |p| - j
  {
    if j < |p| && p[j] == '*' {
      StarsMatchNothing(h, p, j + 1);
    }
  }

  /** The pattern after its star at `s` matches the text from `k`. */
  predicate AfterStar(h: Text, p: Text, s: nat, k: nat)
    requires s < |p| && k <= |h|
  {
    MatchAt(h, p, k, s + 1)
  }

  /** Some later placement of the remembered star matches. */
  ghost predicate LaterPlacement(h: Text, p: Text, star: Option<nat>, starHi: nat)
    requires star.Some? ==> star.value < |p|
  {
    star.Some? && exists k: nat :: starHi < k <= |h| && AfterStar(h, p, star.value, k)
  }

  lemma {:induction false} ScanIsSound(h: Text, p: Text, hi: nat, pi: nat, star: Option<nat>, starHi: nat)
    requires ScanState(h, p, hi, pi, star, starHi)
    requires Scan(h, p, hi, pi, star, starHi)
    ensures MatchAt(h, p, hi, pi) || LaterPlacement(h, p, star, starHi)
    decreases |p| - (if star.Some? then star.value + 1 else 0), |h| - starHi, |h| - hi
  {
    if hi == |h| {
      StarsMatchNothing(h, p, pi);
    } else if pi < |p| && p[pi] == h[hi] {
      ScanIsSound(h, p, hi + 1, pi + 1, star, starHi);
    } else if pi < |p| && p[pi] == '*' {
      ScanIsSound(h, p, hi, pi + 1, Some(pi), hi);
      if !MatchAt(h, p, hi, pi + 1) {
        var k: nat :| hi < k <= |h| && AfterStar(h, p, pi, k);
        StarAbsorbs(h, p, hi, k, pi);
      }
    } else {
      ScanIsSound(h, p, starHi + 1, star.value + 1, star, starHi + 1);
      if MatchAt(h, p, starHi + 1, star.value + 1) {
        assert AfterStar(h, p, star.value, starHi + 1);
      }
    }
  }

  // ----- completeness: the last star is the only one worth remembering -----

  /** Since the remembered star, the pattern was matched character by character. */
  predicate LiteralRun(h: Text, p: Text, hi: nat, pi: nat, star: Option<nat>, starHi: nat)
    requires ScanState(h, p, hi, pi, star, starHi)
  {
    star.Some? ==>
      && hi - starHi == pi - (star.value + 1)
      && forall k :: star.value < k < pi ==> p[k] != '*'
  }

  lemma {:induction false} LiteralsConsume(h: Text, p: Text, i: nat, j: nat, j': nat)
    requires i <= |h| && j <= j' <= |p|
    requires forall k :: j <= k < j' ==> p[k] != '*'
    requires MatchAt(h, p, i, j)
    ensures i + (j' - j) <= |h| && MatchAt(h, p, i + (j' - j), j')
    decreases j' - j
  {
    if j < j' {
      LiteralsConsume(h, p, i + 1, j + 1, j');
    }
  }

  /** A later placement of the old star is subsumed once a new star is reached. */
  lemma NewStarSubsumes(h: Text, p: Text, hi: nat, pi: nat, star: Option<nat>, starHi: nat)
    requires ScanState(h, p, hi, pi, star, starHi) && LiteralRun(h, p, hi, pi, star, starHi)
    requires pi < |p| && p[pi] == '*'
    requires LaterPlacement(h, p, star, starHi)
    ensures MatchAt(h, p, hi, pi)
  {
    var k: nat :| starHi < k <= |h| && AfterStar(h, p, star.value, k);
    LiteralsConsume(h, p, k, star.value + 1, pi);
    StarAbsorbs(h, p, hi, k + (pi - star.value - 1), pi);
  }

  lemma {:induction false} OnlyStarsMatchALoneStar(h: Text, p: Text, i: nat, j: nat)
    requires i <= |h| && j <= |p| && |h| - 1 <= i && (i < |h| ==> h[i] == '*')
    requires MatchAt(h, p, i, j)
    ensures AllStars(p, j)
    decreases |h| - i + |p| - j
  {
    if i == |h| {
      StarsMatchNothing(h, p, j);
    } else if j < |p| && p[j] == '*' {
      if MatchAt(h, p, i, j + 1) {
        OnlyStarsMatchALoneStar(h, p, i, j + 1);
      } else {
        OnlyStarsMatchALoneStar(h, p, i + 1, j);
      }
    }
  }

  lemma {:induction false} ScanIsComplete(h: Text, p: Text, hi: nat, pi: nat, star: Option<nat>, starHi: nat)
    requires StarsOnlyLast(h)
    requires ScanState(h, p, hi, pi, star, starHi) && LiteralRun(h, p, hi, pi, star, starHi)
    requires MatchAt(h, p, hi, pi) || LaterPlacement(h, p, star, starHi)
    ensures Scan(h, p, hi, pi, star, starHi)
    decreases |p| - (if star.Some? then star.value + 1 else 0), |h| - starHi, |h| - hi
  {
    if hi == |h| {
      if MatchAt(h, p, hi, pi) {
        StarsMatchNothing(h, p, pi);
      } else {
        var k: nat :| starHi < k <= |h| && AfterStar(h, p, star.value, k);
        LiteralsConsume(h, p, k, star.value + 1, pi);
      }
    } else if pi < |p| && p[pi] == h[hi] == '*' {
      if !MatchAt(h, p, hi, pi) {
        NewStarSubsumes(h, p, hi, pi, star, starHi);
      }
      OnlyStarsMatchALoneStar(h, p, hi, pi);
    } else if pi < |p| && p[pi] == h[hi] {
      ScanIsComplete(h, p, hi + 1, pi + 1, star, starHi);
    } else if pi < |p| && p[pi] == '*' {
      if !MatchAt(h, p, hi, pi) {
        NewStarSubsumes(h, p, hi, pi, star, starHi);
      }
      if !MatchAt(h, p, hi, pi + 1) {
        StarPlacement(h, p, hi, pi);
        assert !AfterStar(h, p, pi, hi);
      }
      ScanIsComplete(h, p, hi, pi + 1, Some(pi), hi);
    } else {
      var k: nat :| starHi < k <= |h| && AfterStar(h, p, star.value, k);
      assert k == starHi + 1 || starHi + 1 < k;
      ScanIsComplete(h, p, starHi + 1, star.value + 1, star, starHi + 1);
    }
  }

  lemma {:induction false} StarPlacement(h: Text, p: Text, i: nat, j: nat)
    requires i <= |h| && j < |p| && p[j] == '*'
    requires MatchAt(h, p, i, j)
    ensures exists k: nat :: i <= k <= |h| && AfterStar(h, p, j, k)
    decreases |h| - i
  {
    if !AfterStar(h, p, j, i) {
      StarPlacement(h, p, i + 1, j);
    }
  }

  lemma SoundAndComplete(h: Text, p: Text)
    ensures GlobResult(h, p) ==> Match(h, p)
    ensures StarsOnlyLast(h) ==> GlobResult(h, p) == Match(h, p)
  {
    if GlobResult(h, p) {
      ScanIsSound(h, p, 0, 0, None, 0);
    }
    if StarsOnlyLast(h) && Match(h, p) {
      ScanIsComplete(h, p, 0, 0, None, 0);
    }
  }

  // ----- where it goes wrong -----

  /** The pattern that repeats the text up to and including one of its stars is
      matched letter by letter and then has nothing left for the rest. */
  lemma {:induction false} PrefixPatternScan(h: Text, i: nat, k: nat)
    requires k <= i + 1 < |h| && h[i] == '*'
    ensures !Scan(h, h[..i + 1], k, k, None, 0)
    decreases i + 1 - k
  {
    if k < i + 1 {
      PrefixPatternScan(h, i, k + 1);
    }
  }

  lemma {:induction false} PrefixPatternMatches(h: Text, i: nat, k: nat)
    requires k <= i < |h| && h[i] == '*'
    ensures MatchAt(h, h[..i + 1], k, k)
    decreases i - k
  {
    var p := h[..i + 1];
    if k == i {
      assert MatchAt(h, p, |h|, i + 1);
      StarsMatchNothing(h, p, i);
      StarAbsorbs(h, p, i, |h|, i);
    } else {
      PrefixPatternMatches(h, i, k + 1);
      if h[k] == '*' {
        assert MatchAt(h, p, k + 1, k + 1);
        assert p[k] == '*';
        assert MatchAt(h, p, k + 1, k);
      }
    }
  }

  /** The exact scope of the matcher: it agrees with the meaning of every pattern
      precisely on the texts whose only possible star is their last character. */
  lemma ExactScope(h: Text)
    ensures (forall p: Text :: GlobResult(h, p) == Match(h, p)) <==> StarsOnlyLast(h)
  {
    if StarsOnlyLast(h) {
      forall p: Text ensures GlobResult(h, p) == Match(h, p) {
        SoundAndComplete(h, p);
      }
    } else {
      var i: nat :| i < |h| - 1 && h[i] == '*';
      PrefixPatternScan(h, i, 0);
      PrefixPatternMatches(h, i, 0);
      assert GlobResult(h, h[..i + 1]) != Match(h, h[..i + 1]);
    }
  }
}
