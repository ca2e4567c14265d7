/**
 * `find_best_crf`: a binary search over the integer CRF range [18, 51] for
 * the CRF whose VMAF score is closest to a target. Encoding the sample and
 * measuring it is an oracle from CRF to an optional score (`None` when the
 * measurement failed).
 */
module CrfSearch {
  import opened Wrappers

  const CrfMin := 18
  const CrfMax := 51
  /** How close to the target a score must be to end the search at once. */
  const Precision: real := 0.5
  /** The most encode-and-measure rounds one search performs. */
  const MaxIterations := 10

  /**
   * The search variables between rounds: the CRF range still open, the best
   * CRF so far and its distance to the target (`None` is the initial
   * `float('inf')`).
   */
  datatype SearchState = SearchState(low: int, high: int, best: int, bestDiff: Option<real>)

  const Initial := SearchState(CrfMin, CrfMax, CrfMax, None)

  /** One round as it happened: the CRF encoded and the score measured for it. */
  datatype Probe = Probe(crf: int, score: Option<real>)

  /** The result of a search: the final variables and every round, in order. */
  datatype Outcome = Outcome(final: SearchState, probes: seq<Probe>)

  function Abs(x: real): real {
    if x < 0.0 then -x else x
  }

  /** The CRF a round tests: `(low_crf + high_crf) // 2` (floor division). */
  function Midpoint(s: SearchState): int {
    (s.low + s.high) / 2
  }

  /** A distance strictly smaller than the best one so far. */
  predicate Improves(d: real, bestDiff: Option<real>) {
    bestDiff.None? || d < bestDiff.value
  }

  function Distance(p: Probe, target: real): real
    requires p.score.Some?
  {
    Abs(p.score.value - target)
  }

  /**
   * The loop body after the measurement `score` of the midpoint: the next
   * variables, and whether the loop ends (`break`).
   */
  function Round(s: SearchState, score: Option<real>, target: real): (SearchState, bool) {
    match score
    case None => (s.(low := Midpoint(s) + 1), false)  // measurement failed: `continue` without the collapse check
    case Some(v) =>
      var d := Abs(v - target);
      if d <= Precision then (Recorded(s, d), true)
      else
        var n := Narrowed(Recorded(s, d), Midpoint(s), v, target);
        (n, n.low > n.high)
  }

  /** The variables after a round's best-distance update: the midpoint becomes the best on a smaller distance. */
  function Recorded(s: SearchState, d: real): SearchState {
    if Improves(d, s.bestDiff) then s.(best := Midpoint(s), bestDiff := Some(d)) else s
  }

  /** A score above the target raises the lower bound past the tested CRF c, any other lowers the upper bound. */
  function Narrowed(s: SearchState, c: int, v: real, target: real): SearchState {
    if v > target then s.(low := c + 1) else s.(high := c - 1)
  }

  /** At most `rounds` more rounds from s. */
  function Run(s: SearchState, rounds: nat, target: real, measure: int -> Option<real>): Outcome
    decreases rounds
  {
    if rounds == 0 then Outcome(s, [])
    else
      var c := Midpoint(s);
      var (next, stop) := Round(s, measure(c), target);
      if stop then Outcome(next, [Probe(c, measure(c))])
      else
        var rest := Run(next, rounds - 1, target, measure);
        Outcome(rest.final, [Probe(c, measure(c))] + rest.probes)
  }

  /** The whole search for a target score. */
  function Search(target: real, measure: int -> Option<real>): Outcome {
    Run(Initial, MaxIterations, target, measure)
  }

  /**
   * What holds at the top of every round: the lower bound is at most one past
   * the upper bound, both lie in the CRF range, the best CRF is in range, and
   * no score so far came within the precision (or the loop would have ended).
   */
  predicate Live(s: SearchState) {
    CrfMin <= s.low <= s.high + 1 && CrfMin <= s.high <= CrfMax
    && CrfMin <= s.best <= CrfMax
    && (s.bestDiff.Some? ==> s.bestDiff.value > Precision)
  }

  /**
   * One round from a live state: the tested CRF is in range, the bounds only
   * move inward, a failed measurement raises the lower bound and never ends
   * the loop, a score within the precision ends it with that CRF as the best,
   * any other score moves one bound past the midpoint and ends the loop exactly
   * when the range collapses, and the best CRF changes only to the midpoint on
   * a strictly smaller distance.
   */
  lemma RoundFacts(s: SearchState, score: Option<real>, target: real)
    requires Live(s)
    ensures var c := Midpoint(s); CrfMin <= c <= CrfMax && s.low <= c + 1
    ensures var (n, stop) := Round(s, score, target);
      s.low <= n.low && n.high <= s.high && CrfMin <= n.best <= CrfMax && (!stop ==> Live(n))
    ensures var (n, stop) := Round(s, score, target);
      score.None? ==> !stop && n.low == Midpoint(s) + 1 && n.high == s.high && n.best == s.best
    ensures var (n, stop) := Round(s, score, target);
      score.Some? && Abs(score.value - target) <= Precision ==> stop && n.best == Midpoint(s)
    ensures var (n, stop) := Round(s, score, target);
      score.Some? && Abs(score.value - target) > Precision ==>
        (stop <==> n.low > n.high)
        && (score.value > target ==> n.low == Midpoint(s) + 1 && n.high == s.high)
        && (score.value <= target ==> n.high == Midpoint(s) - 1 && n.low == s.low)
    ensures var (n, stop) := Round(s, score, target);
      n.best != s.best ==> score.Some? && Improves(Abs(score.value - target), s.bestDiff) && n.best == Midpoint(s)
  {
  }

  /**
   * Any number of rounds from a live state: at most that many rounds, at
   * least one, every tested CRF in range and measured by the oracle, the
   * bounds only move inward, the best CRF stays in range, and a score within
   * the precision can only come from the last round, whose CRF is then the
   * result.
   */
  lemma {:induction false} RunFacts(s: SearchState, rounds: nat, target: real, measure: int -> Option<real>)
    requires Live(s)
    ensures var o := Run(s, rounds, target, measure);
      |o.probes| <= rounds && (rounds > 0 ==> |o.probes| > 0)
      && (forall j | 0 <= j < |o.probes| ::
            CrfMin <= o.probes[j].crf <= CrfMax && o.probes[j].score == measure(o.probes[j].crf))
      && CrfMin <= o.final.best <= CrfMax
      && s.low <= o.final.low && o.final.high <= s.high
    ensures var o := Run(s, rounds, target, measure);
      forall j | 0 <= j < |o.probes| && o.probes[j].score.Some? && Distance(o.probes[j], target) <= Precision ::
        j == |o.probes| - 1 && o.final.best == o.probes[j].crf
    decreases rounds
  {
    if rounds > 0 {
      var c := Midpoint(s);
      RoundFacts(s, measure(c), target);
      var (next, stop) := Round(s, measure(c), target);
      if !stop {
        RunFacts(next, rounds - 1, target, measure);
        var rest := Run(next, rounds - 1, target, measure);
        var o := Run(s, rounds, target, measure);
        assert o.probes == [Probe(c, measure(c))] + rest.probes;
        forall j | 0 <= j < |o.probes| && o.probes[j].score.Some? && Distance(o.probes[j], target) <= Precision
          ensures j == |o.probes| - 1 && o.final.best == o.probes[j].crf
        {
          assert j > 0;
          assert o.probes[j] == rest.probes[j - 1];
        }
      }
    }
  }

  /**
   * The probe at k is the closest to the target, and the earliest such: every
   * scored probe before it is strictly farther, every later one at least as far.
   */
  ghost predicate ClosestAt(probes: seq<Probe>, k: nat, target: real) {
    k < |probes| && probes[k].score.Some?
    && (forall j | 0 <= j < k && probes[j].score.Some? :: Distance(probes[j], target) > Distance(probes[k], target))
    && (forall j | k < j < |probes| && probes[j].score.Some? :: Distance(probes[j], target) >= Distance(probes[k], target))
  }

  /** Unfolds one round of `Run`. */
  lemma RunStep(s: SearchState, rounds: nat, target: real, measure: int -> Option<real>)
    requires rounds > 0
    ensures var c := Midpoint(s);
      var r := Round(s, measure(c), target);
      var rest := Run(r.0, rounds - 1, target, measure);
      Run(s, rounds, target, measure)
        == if r.1 then Outcome(r.0, [Probe(c, measure(c))]) else Outcome(rest.final, [Probe(c, measure(c))] + rest.probes)
  {
  }

  /** A closest probe stays closest behind an earlier probe that is strictly farther. */
  lemma ClosestBehind(p0: Probe, rest: seq<Probe>, k: nat, target: real)
    requires ClosestAt(rest, k, target)
    requires p0.score.Some? ==> Distance(p0, target) > Distance(rest[k], target)
    ensures ClosestAt([p0] + rest, k + 1, target)
  {
    var ps := [p0] + rest;
    forall j | 0 < j < |ps|
      ensures ps[j] == rest[j - 1]
    {
    }
  }

  /** A probe at least as close as every later one is the closest. */
  lemma ClosestInFront(p0: Probe, rest: seq<Probe>, target: real)
    requires p0.score.Some?
    requires forall j | 0 <= j < |rest| && rest[j].score.Some? :: Distance(rest[j], target) >= Distance(p0, target)
    ensures ClosestAt([p0] + rest, 0, target)
  {
    var ps := [p0] + rest;
    forall j | 0 < j < |ps|
      ensures ps[j] == rest[j - 1]
    {
    }
  }

  /**
   * The rounds from s either leave the best CRF and distance alone, no score
   * beating the best distance so far, or end on the earliest closest probe,
   * which beats the best distance so far.
   */
  ghost predicate Tracks(s: SearchState, o: Outcome, target: real) {
    (o.final.best == s.best && o.final.bestDiff == s.bestDiff
      && forall j | 0 <= j < |o.probes| && o.probes[j].score.Some? :: !Improves(Distance(o.probes[j], target), s.bestDiff))
    || (exists k: nat :: EndsOn(s, o, k, target))
  }

  /** The probe p beats the best distance of s. */
  predicate Better(p: Probe, s: SearchState, target: real) {
    p.score.Some? && Improves(Distance(p, target), s.bestDiff)
  }

  /** A round records its probe as the best exactly when the probe beats the best distance so far. */
  lemma RoundRecords(s: SearchState, score: Option<real>, target: real)
    ensures var n := Round(s, score, target).0;
      var p := Probe(Midpoint(s), score);
      n.best == (if Better(p, s, target) then p.crf else s.best)
      && n.bestDiff == (if Better(p, s, target) then Some(Distance(p, target)) else s.bestDiff)
  {
  }

  /** The probe at k ends the rounds as the closest one and beats the best distance of s. */
  ghost predicate EndsOn(s: SearchState, o: Outcome, k: nat, target: real) {
    ClosestAt(o.probes, k, target) && Improves(Distance(o.probes[k], target), s.bestDiff)
    && o.final.best == o.probes[k].crf && o.final.bestDiff == Some(Distance(o.probes[k], target))
  }

  /** A later probe that beats the best distance after the first round beats it before as well. */
  lemma TracksBehind(s: SearchState, p0: Probe, next: SearchState, rest: Outcome, k: nat, target: real)
    requires next.best == (if Better(p0, s, target) then p0.crf else s.best)
    requires next.bestDiff == (if Better(p0, s, target) then Some(Distance(p0, target)) else s.bestDiff)
    requires EndsOn(next, rest, k, target)
    ensures EndsOn(s, Outcome(rest.final, [p0] + rest.probes), k + 1, target)
  {
    ClosestBehind(p0, rest.probes, k, target);
    assert ([p0] + rest.probes)[k + 1] == rest.probes[k];
  }

  /** When no later probe beats the first, a first probe that beats the best distance is the closest. */
  lemma TracksInFront(s: SearchState, p0: Probe, next: SearchState, rest: Outcome, target: real)
    requires Better(p0, s, target)
    requires next.best == p0.crf && next.bestDiff == Some(Distance(p0, target))
    requires rest.final.best == next.best && rest.final.bestDiff == next.bestDiff
    requires forall j | 0 <= j < |rest.probes| && rest.probes[j].score.Some? :: !Improves(Distance(rest.probes[j], target), next.bestDiff)
    ensures EndsOn(s, Outcome(rest.final, [p0] + rest.probes), 0, target)
  {
    ClosestInFront(p0, rest.probes, target);
  }

  /** When neither the first probe nor a later one beats the best distance, nothing changes. */
  lemma TracksNone(s: SearchState, p0: Probe, next: SearchState, rest: Outcome, target: real)
    requires !Better(p0, s, target) && next.bestDiff == s.bestDiff
    requires forall j | 0 <= j < |rest.probes| && rest.probes[j].score.Some? :: !Improves(Distance(rest.probes[j], target), next.bestDiff)
    ensures var ps := [p0] + rest.probes;
      forall j | 0 <= j < |ps| && ps[j].score.Some? :: !Improves(Distance(ps[j], target), s.bestDiff)
  {
    var ps := [p0] + rest.probes;
    forall j | 0 <= j < |ps| && ps[j].score.Some?
      ensures !Improves(Distance(ps[j], target), s.bestDiff)
    {
      if j > 0 { assert ps[j] == rest.probes[j - 1]; }
    }
  }

  /** The first round followed by rounds that keep track of the closest probe. */
  lemma TracksAfterRound(s: SearchState, p0: Probe, next: SearchState, rest: Outcome, target: real)
    requires next.best == (if Better(p0, s, target) then p0.crf else s.best)
    requires next.bestDiff == (if Better(p0, s, target) then Some(Distance(p0, target)) else s.bestDiff)
    requires Tracks(next, rest, target)
    ensures Tracks(s, Outcome(rest.final, [p0] + rest.probes), target)
  {
    if exists k: nat :: EndsOn(next, rest, k, target) {
      var k: nat :| EndsOn(next, rest, k, target);
      TracksBehind(s, p0, next, rest, k, target);
    } else if Better(p0, s, target) {
      TracksInFront(s, p0, next, rest, target);
    } else {
      TracksNone(s, p0, next, rest, target);
    }
  }

  /** Every run of rounds keeps track of the closest probe. */
  lemma {:induction false} RunTracksClosest(s: SearchState, rounds: nat, target: real, measure: int -> Option<real>)
    ensures Tracks(s, Run(s, rounds, target, measure), target)
    decreases rounds
  {
    if rounds > 0 {
      var c := Midpoint(s);
      var p0 := Probe(c, measure(c));
      var r := Round(s, measure(c), target);
      RunStep(s, rounds, target, measure);
      RoundRecords(s, measure(c), target);
      if r.1 {
        var none := Outcome(r.0, []);
        assert Tracks(r.0, none, target);
        TracksAfterRound(s, p0, r.0, none, target);
        assert [p0] + none.probes == [p0];
      } else {
        RunTracksClosest(r.0, rounds - 1, target, measure);
        TracksAfterRound(s, p0, r.0, Run(r.0, rounds - 1, target, measure), target);
      }
    }
  }

  /**
   * The search performs between one and `MAX_ITERATIONS` rounds, tests only
   * CRFs in [18, 51] and returns a CRF in [18, 51].
   */
  lemma SearchBounded(target: real, measure: int -> Option<real>)
    ensures var o := Search(target, measure);
      0 < |o.probes| <= MaxIterations
      && (forall j | 0 <= j < |o.probes| :: CrfMin <= o.probes[j].crf <= CrfMax)
      && CrfMin <= o.final.best <= CrfMax
  {
    RunFacts(Initial, MaxIterations, target, measure);
  }

  /**
   * The search returns the CRF of the earliest round whose score is closest
   * to the target, or 51 when no round produced a score.
   */
  lemma SearchPicksClosest(target: real, measure: int -> Option<real>)
    ensures var o := Search(target, measure);
      if exists j | 0 <= j < |o.probes| :: o.probes[j].score.Some?
      then exists k: nat :: ClosestAt(o.probes, k, target) && o.final.best == o.probes[k].crf
      else o.final.best == CrfMax
  {
    RunTracksClosest(Initial, MaxIterations, target, measure);
    assert Initial.bestDiff.None?;
  }

  /**
   * A score within the precision ends the search at once, and the CRF just
   * tested is the result.
   */
  lemma SearchStopsWithinPrecision(target: real, measure: int -> Option<real>)
    ensures var o := Search(target, measure);
      forall j | 0 <= j < |o.probes| && o.probes[j].score.Some? && Distance(o.probes[j], target) <= Precision ::
        j == |o.probes| - 1 && o.final.best == o.probes[j].crf
  {
    RunFacts(Initial, MaxIterations, target, measure);
  }

  /**
   * One round keeps the loop invariant: a round that ends the loop leaves
   * the search's final variables, any other a live state from which one
   * round fewer reaches them.
   */
  lemma Advance(s: SearchState, rounds: nat, target: real, measure: int -> Option<real>, goal: SearchState)
    requires Live(s) && rounds > 0 && Run(s, rounds, target, measure).final == goal
    ensures var r := Round(s, measure(Midpoint(s)), target);
      CrfMin <= r.0.best <= CrfMax
      && if r.1 then r.0 == goal else Live(r.0) && Run(r.0, rounds - 1, target, measure).final == goal
  {
    RoundFacts(s, measure(Midpoint(s)), target);
    RunStep(s, rounds, target, measure);
  }

  /**
   * One pass of `find_best_crf`'s loop body on its variables: measure the
   * midpoint, record it if it is closer than the best so far, and move a
   * bound; `stop` is whether the body leaves the loop.
   */
  method ProbeRound(lowCrf: int, highCrf: int, bestCrf: int, bestScoreDiff: Option<real>, target: real, measure: int -> Option<real>)
    returns (low: int, high: int, best: int, bestDiff: Option<real>, stop: bool)
    ensures var s := SearchState(lowCrf, highCrf, bestCrf, bestScoreDiff);
      (SearchState(low, high, best, bestDiff), stop) == Round(s, measure(Midpoint(s)), target)
  {
    low, high, best, bestDiff, stop := lowCrf, highCrf, bestCrf, bestScoreDiff, false;
    var currentCrf := (lowCrf + highCrf) / 2;
    var vmafScore := measure(currentCrf);
    if vmafScore.None? {
      low := currentCrf + 1;
      return;  // `continue`
    }
    var diff := Abs(vmafScore.value - target);
    if bestDiff.None? || diff < bestDiff.value {
      bestDiff := Some(diff);
      best := currentCrf;
    }
    if diff <= Precision {
      stop := true;
      return;
    }
    if vmafScore.value > target {
      low := currentCrf + 1;
    } else {
      high := currentCrf - 1;
    }
    stop := low > high;
  }

  /** `find_best_crf`: at most `MAX_ITERATIONS` passes of the loop body. */
  method FindBestCrf(target: real, measure: int -> Option<real>) returns (bestCrf: int)
    ensures bestCrf == Search(target, measure).final.best
    ensures CrfMin <= bestCrf <= CrfMax
  {
    var lowCrf, highCrf := CrfMin, CrfMax;
    bestCrf := highCrf;
    var bestScoreDiff: Option<real> := None;
    ghost var goal := Search(target, measure).final;
    for i := 0 to MaxIterations
      invariant Live(SearchState(lowCrf, highCrf, bestCrf, bestScoreDiff))
      invariant Run(SearchState(lowCrf, highCrf, bestCrf, bestScoreDiff), MaxIterations - i, target, measure).final == goal
    {
      ghost var before := SearchState(lowCrf, highCrf, bestCrf, bestScoreDiff);
      Advance(before, MaxIterations - i, target, measure, goal);
      var stop;
      lowCrf, highCrf, bestCrf, bestScoreDiff, stop := ProbeRound(lowCrf, highCrf, bestCrf, bestScoreDiff, target, measure);
      if stop {
        break;
      }
    }
  }
}
