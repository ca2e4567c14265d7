/**
 * Reading the aggregate score out of ffmpeg's standard error: the first
 * match of the regular expression `VMAF score: (\d+\.\d+)`, converted with
 * `float`, or `None` when the text has no match.
 */
module VmafScore {
  import opened Wrappers
  import opened Decimal
  import opened PyString

  const Label := "VMAF score: "

  /** Length of the maximal run of digits in s starting at i, the part a greedy `\d+` consumes. */
  function DigitRun(s: string, i: nat): (n: nat)
    requires i <= |s|
    ensures i + n <= |s|
    ensures forall k | i <= k < i + n :: IsDigit(s[k])
    ensures i + n == |s| || !IsDigit(s[i + n])
    decreases |s| - i
  {
    if i < |s| && IsDigit(s[i]) then 1 + DigitRun(s, i + 1) else 0
  }

  /** A run of digits that ends before a non-digit (or the end) is exactly the greedy run. */
  lemma DigitRunExact(s: string, i: nat, n: nat)
    requires i + n <= |s|
    requires forall k | i <= k < i + n :: IsDigit(s[k])
    requires i + n == |s| || !IsDigit(s[i + n])
    ensures DigitRun(s, i) == n
  {
  }

  /**
   * After the label at p: n digits, then a point, then at least one more
   * digit, which is all that `\d+\.\d+` needs.
   */
  ghost predicate ScoreShapeAt(s: string, p: nat, n: nat) {
    var a := p + |Label|;
    0 < n && a + n + 1 < |s| && (forall k | a <= k < a + n :: IsDigit(s[k]))
    && s[a + n] == '.' && IsDigit(s[a + n + 1])
  }

  /** What the pattern requires at position p, read literally: the label, digits, a point, a digit. */
  ghost predicate PatternAt(s: string, p: nat) {
    OccursAt(s, Label, p) && exists n: nat :: ScoreShapeAt(s, p, n)
  }

  /**
   * The pattern tried at position p, as a regular-expression engine does:
   * the group's whole digits and fractional digits, each run taken greedily.
   */
  function MatchAt(s: string, p: nat): (g: Option<(string, string)>)
    ensures g.Some? ==> |g.value.0| > 0 && |g.value.1| > 0 && AllDigits(g.value.0) && AllDigits(g.value.1)
  {
    if OccursAt(s, Label, p) then
      var a := p + |Label|;
      var n1 := DigitRun(s, a);
      if n1 > 0 && a + n1 + 1 < |s| && s[a + n1] == '.' && IsDigit(s[a + n1 + 1]) then
        var b := a + n1 + 1;
        var n2 := DigitRun(s, b);
        Some((s[a..a + n1], s[b..b + n2]))
      else None
    else None
  }

  /** MatchAt succeeds exactly where the pattern can match. */
  lemma MatchAtPattern(s: string, p: nat)
    ensures MatchAt(s, p).Some? <==> PatternAt(s, p)
  {
    if OccursAt(s, Label, p) {
      var a := p + |Label|;
      var n1 := DigitRun(s, a);
      if PatternAt(s, p) {
        var n :| ScoreShapeAt(s, p, n);
        DigitRunExact(s, a, n);
      }
      if MatchAt(s, p).Some? {
        assert ScoreShapeAt(s, p, n1);
      }
    }
  }

  /**
   * A match's group is the text right after the label, with the fractional
   * digits running up to a non-digit or the end.
   */
  lemma MatchAtText(s: string, p: nat)
    ensures MatchAt(s, p).Some? ==>
      var (whole, frac) := MatchAt(s, p).value;
      var m := Label + whole + "." + frac;
      OccursAt(s, m, p) && (p + |m| == |s| || !IsDigit(s[p + |m|]))
  {
    if MatchAt(s, p).Some? {
      var (whole, frac) := MatchAt(s, p).value;
      MatchAtParts(s, p);
      OccursConcat(s, Label, whole, p);
      OccursAround(s, Label + whole, '.', frac, p);
    }
  }

  /** The pieces a match is read from, one after another from p. */
  lemma MatchAtParts(s: string, p: nat)
    requires MatchAt(s, p).Some?
    ensures var (whole, frac) := MatchAt(s, p).value;
      var a := p + |Label|;
      var b := a + |whole| + 1;
      OccursAt(s, Label, p) && OccursAt(s, whole, a) && a + |whole| < |s| && s[a + |whole|] == '.'
      && OccursAt(s, frac, b) && (b + |frac| == |s| || !IsDigit(s[b + |frac|]))
  {
  }

  /**
   * `re.search`: the pattern tried at start positions p, p + 1, ..., end in
   * turn, giving what it reads at the first position where it succeeds.
   */
  function FirstHit<T>(tryAt: nat -> Option<T>, p: nat, end: nat): Option<T>
    requires p <= end
    decreases end - p
  {
    if tryAt(p).Some? then tryAt(p)
    else if p == end then None
    else FirstHit(tryAt, p + 1, end)
  }

  /**
   * The search finds nothing exactly when no position from p to end
   * succeeds, and otherwise gives the result at the leftmost one that does.
   */
  lemma {:induction false} FirstHitLeftmost<T>(tryAt: nat -> Option<T>, p: nat, end: nat)
    requires p <= end
    ensures FirstHit(tryAt, p, end).None? ==> forall q | p <= q <= end :: tryAt(q).None?
    ensures FirstHit(tryAt, p, end).Some? ==>
      exists q | p <= q <= end :: tryAt(q) == FirstHit(tryAt, p, end) && forall q' | p <= q' < q :: tryAt(q').None?
    decreases end - p
  {
    if tryAt(p).Some? {
      assert FirstHit(tryAt, p, end) == tryAt(p);
    } else if p < end {
      assert FirstHit(tryAt, p, end) == FirstHit(tryAt, p + 1, end);
      FirstHitLeftmost(tryAt, p + 1, end);
      if FirstHit(tryAt, p + 1, end).Some? {
        var q :| p + 1 <= q <= end && tryAt(q) == FirstHit(tryAt, p + 1, end)
          && forall q' | p + 1 <= q' < q :: tryAt(q').None?;
        assert forall q' | p <= q' < q :: tryAt(q').None?;
      }
    }
  }

  /** Searching from k, with no success before p, stops at p. */
  lemma {:induction false} FirstHitReaches<T>(tryAt: nat -> Option<T>, k: nat, p: nat, end: nat)
    requires k <= p <= end && tryAt(p).Some?
    requires forall q | k <= q < p :: tryAt(q).None?
    ensures FirstHit(tryAt, k, end) == tryAt(p)
    decreases p - k
  {
    if k < p {
      assert tryAt(k).None?;
      assert FirstHit(tryAt, k, end) == FirstHit(tryAt, k + 1, end);
      FirstHitReaches(tryAt, k + 1, p, end);
    }
  }

  /** `re.search(pattern, s)`: the groups of the leftmost match in s. */
  function FindMatch(s: string): Option<(string, string)> {
    FirstHit((q: nat) => MatchAt(s, q), 0, |s|)
  }

  /** FindMatch finds nothing exactly when no position matches, and otherwise the leftmost match. */
  lemma FindMatchLeftmost(s: string)
    ensures FindMatch(s).None? ==> forall q | 0 <= q <= |s| :: MatchAt(s, q).None?
    ensures FindMatch(s).Some? ==>
      exists q | 0 <= q <= |s| :: MatchAt(s, q) == FindMatch(s) && forall q' | 0 <= q' < q :: MatchAt(s, q').None?
  {
    var tryAt := (q: nat) => MatchAt(s, q);
    FirstHitLeftmost(tryAt, 0, |s|);
    if FindMatch(s).None? {
      forall q | 0 <= q <= |s| ensures MatchAt(s, q).None? {
        assert tryAt(q).None?;
      }
    } else {
      var q :| 0 <= q <= |s| && tryAt(q) == FirstHit(tryAt, 0, |s|) && forall q' | 0 <= q' < q :: tryAt(q').None?;
      assert MatchAt(s, q) == tryAt(q);
      forall q' | 0 <= q' < q ensures MatchAt(s, q').None? {
        assert tryAt(q').None?;
      }
    }
  }

  /** With no match before p, FindMatch gives the match at p. */
  lemma FindMatchReaches(s: string, p: nat)
    requires p <= |s| && MatchAt(s, p).Some?
    requires forall q | 0 <= q < p :: MatchAt(s, q).None?
    ensures FindMatch(s) == MatchAt(s, p)
  {
    var tryAt := (q: nat) => MatchAt(s, q);
    forall q | 0 <= q < p ensures tryAt(q).None? {
      assert MatchAt(s, q).None?;
    }
    FirstHitReaches(tryAt, 0, p, |s|);
  }

  /**
   * `run_vmaf`'s parse of ffmpeg's standard error: the score of the first
   * match, or `None` when nothing matches.
   */
  function ExtractScore(stderr: string): (r: Option<real>)
    ensures r.None? <==> forall q | 0 <= q <= |stderr| :: MatchAt(stderr, q).None?
    ensures r.Some? ==> exists q | 0 <= q <= |stderr| ::
      MatchAt(stderr, q).Some? && r.value == FixedPoint(MatchAt(stderr, q).value.0, MatchAt(stderr, q).value.1)
      && forall q' | 0 <= q' < q :: MatchAt(stderr, q').None?
    ensures r.Some? ==> r.value >= 0.0
  {
    FindMatchLeftmost(stderr);
    match FindMatch(stderr)
    case None => None
    case Some((whole, frac)) =>
      ParseFixedPoint(whole, frac);
      ParseDecimal(whole + "." + frac)
  }

  /** No match starts at a character other than the label's first. */
  lemma NoMatchWithoutV(s: string, q: nat)
    requires q < |s| && s[q] != 'V'
    ensures MatchAt(s, q).None?
  {
  }

  /** A score written right after the label at p, ending before a non-digit, is what MatchAt reads there. */
  lemma MatchesWrittenScore(s: string, p: nat, whole: string, frac: string)
    requires |whole| > 0 && |frac| > 0 && AllDigits(whole) && AllDigits(frac)
    requires OccursAt(s, Label, p)
    requires var a := p + |Label|; OccursAt(s, whole, a) && a + |whole| < |s| && s[a + |whole|] == '.'
    requires var b := p + |Label| + |whole| + 1; OccursAt(s, frac, b) && (b + |frac| == |s| || !IsDigit(s[b + |frac|]))
    ensures MatchAt(s, p) == Some((whole, frac))
  {
    var a := p + |Label|;
    var b := a + |whole| + 1;
    DigitsWritten(s, a, whole);
    DigitsWritten(s, b, frac);
  }

  /** Digits written at i and followed by a non-digit (or the end) are the greedy run there. */
  lemma DigitsWritten(s: string, i: nat, d: string)
    requires AllDigits(d) && OccursAt(s, d, i)
    requires i + |d| < |s| ==> !IsDigit(s[i + |d|])
    ensures DigitRun(s, i) == |d|
  {
    forall k | i <= k < i + |d| ensures IsDigit(s[k]) {
      assert s[k] == s[i..i + |d|][k - i];
    }
    DigitRunExact(s, i, |d|);
  }

  /**
   * A score line after text without a 'V' (ffmpeg's `[Parsed_libvmaf_cuda_4 @ 0x...]`
   * prefix, for one) yields that line's score.
   */
  lemma ScoreLineFound(prefix: string, whole: string, frac: string, rest: string)
    requires 'V' !in prefix
    requires |whole| > 0 && |frac| > 0 && AllDigits(whole) && AllDigits(frac)
    requires rest == [] || !IsDigit(rest[0])
    ensures ExtractScore(prefix + Label + whole + "." + frac + rest) == Some(FixedPoint(whole, frac))
  {
    var s := prefix + Label + whole + "." + frac + rest;
    var p := |prefix|;
    var a := p + |Label|;
    var b := a + |whole| + 1;
    forall q | 0 <= q < p ensures MatchAt(s, q).None? {
      assert s[q] == prefix[q];
      NoMatchWithoutV(s, q);
    }
    assert s[p..a] == Label;
    assert s[a..a + |whole|] == whole;
    assert s[a + |whole|] == '.';
    assert s[b..b + |frac|] == frac;
    assert b + |frac| < |s| ==> s[b + |frac|] == rest[0];
    MatchesWrittenScore(s, p, whole, frac);
    FindMatchReaches(s, p);
    ParseFixedPoint(whole, frac);
  }
}
