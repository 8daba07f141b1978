/** What the search for a slower output covers, and the one place where it
    misses parameters. */
module PllSlower {
  import opened Options
  import opened PllTable
  import opened Pll

  /** From entry 20 on no product occurs twice. */
  lemma {:induction false} Increasing(t: seq<(nat, nat)>, ps: seq<nat>, i: nat, j: nat)
    requires Dense(t, ps) && 20 <= i < j < FACTORS
    ensures ps[i] < ps[j]
    decreases j - i
  {
    assert RiseAt(ps, i);
    if i + 1 < j { Increasing(t, ps, i + 1, j); }
  }

  lemma SmallIsEarly(t: seq<(nat, nat)>, ps: seq<nat>, i: nat)
    requires TableOk(t, ps) && Dense(t, ps) && i < FACTORS
    ensures ps[i] <= 16 <==> i < 20
  {
    if i < 20 { Sorted(t, ps, i, 19); } else { Sorted(t, ps, 20, i); }
  }

  /** A product above 16 occurs once. */
  lemma OnlyEntry(t: seq<(nat, nat)>, ps: seq<nat>, i: nat, j: nat)
    requires TableOk(t, ps) && Dense(t, ps) && i < FACTORS && j < FACTORS && ps[i] == ps[j] > 16
    ensures i == j
  {
    SmallIsEarly(t, ps, i);
    SmallIsEarly(t, ps, j);
    if i < j { Increasing(t, ps, i, j); } else if j < i { Increasing(t, ps, j, i); }
  }

  lemma SixteenIs(t: seq<(nat, nat)>, ps: seq<nat>, i: nat)
    requires TableOk(t, ps) && Dense(t, ps) && i < FACTORS && ps[i] == 16
    ensures i == 18 || i == 19
  {
    SmallIsEarly(t, ps, i);
    if i < 18 { Sorted(t, ps, i, 17); }
  }

  /** For goals up to 16 the product is the goal itself, and the pairs are tried
      from its first entry on. */
  lemma ExactGoal(t: seq<(nat, nat)>, ps: seq<nat>, g: nat, roundUp: bool, last: nat, next: nat)
    requires TableOk(t, ps) && Dense(t, ps) && 1 <= g <= 16 && last < g && next < |ps| && ps[next] >= g
    requires next > 0 ==> ps[next - 1] < g || ps[next - 1] <= last
    ensures ps[next] == g && !Keeps(g, roundUp, last, ps[next])
    ensures forall i :: 0 <= i < |ps| && ps[i] == g ==> next <= i
  {
    forall i | 0 <= i < |ps| && ps[i] == g
      ensures next <= i
    {
      if i < next { Sorted(t, ps, i, next - 1); }
    }
    Sorted(t, ps, next, FirstEntry(g));
  }

  /** For larger goals a product up to 16 is used only in one case: 16, kept for
      the goal 17, which lies between 16 and 18. */
  lemma SmallKept(t: seq<(nat, nat)>, ps: seq<nat>, g: nat, roundUp: bool, last: nat, next: nat)
    requires TableOk(t, ps) && Dense(t, ps) && g >= 17 && last <= 16 && next < |ps| && ps[next] >= g
    requires next > 0 ==> ps[next - 1] < g || ps[next - 1] <= last
    ensures Keeps(g, roundUp, last, ps[next]) ==> g == 17 && last == 16 && roundUp
  {
    SmallIsEarly(t, ps, next);
    if next > 20 {
      assert RiseAt(ps, next - 1);
    }
  }

  lemma ExactCandidate(c: Candidate, f: nat, last: nat, lastAt: nat, t: seq<(nat, nat)>, ps: seq<nat>, invRatio: nat)
    requires TableOk(t, ps) && Dense(t, ps) && ChosenAt(c, f, last, lastAt, t, ps, invRatio)
    requires last < Goal(invRatio, f) <= 16
    ensures ps[c.at] == Goal(invRatio, f) && StartOf(c, ps, invRatio, last, lastAt) == c.next
    ensures forall i :: 0 <= i < |ps| && ps[i] == Goal(invRatio, f) ==> c.next <= i
  {
    ExactGoal(t, ps, Goal(invRatio, f), RoundsUp(invRatio, f), last, c.next);
  }

  /** As long as the goal is at most 16 every candidate is exactly the goal. */
  lemma {:induction false} SmallGoals(tried: seq<Candidate>, t: seq<(nat, nat)>, ps: seq<nat>, invRatio: nat)
    requires TableOk(t, ps) && Dense(t, ps) && ChosenOk(tried, t, ps, invRatio) && invRatio >= ONE
    requires Goal(invRatio, |tried|) <= 16
    ensures LastProduct(tried, ps) == Goal(invRatio, |tried|)
    decreases |tried|
  {
    if tried != [] {
      var front, c := tried[..|tried| - 1], tried[|tried| - 1];
      GoalGrows(invRatio, |front|);
      SmallGoals(front, t, ps, invRatio);
      ExactCandidate(c, |tried|, LastProduct(front, ps), LastAt(front), t, ps, invRatio);
    }
  }

  /** A product up to 16 for a larger goal is 16, kept for 17. */
  lemma SmallCandidate(c: Candidate, f: nat, last: nat, lastAt: nat, t: seq<(nat, nat)>, ps: seq<nat>, invRatio: nat)
    requires TableOk(t, ps) && Dense(t, ps) && ChosenAt(c, f, last, lastAt, t, ps, invRatio)
    requires Goal(invRatio, f) >= 17 && ps[c.at] <= 16
    ensures Goal(invRatio, f) == 17 && last == 16 && KeepsLast(invRatio, f, last, ps[c.next]) && c.at == lastAt
  {
    SmallKept(t, ps, Goal(invRatio, f), RoundsUp(invRatio, f), last, c.next);
    SmallIsEarly(t, ps, c.next);
    SmallIsEarly(t, ps, c.at);
  }

  /** Product 16 has two entries, (1, 16) and (4, 4). */
  function Sixteen(i: nat): (nat, nat) {
    if i == 18 then (1, 16) else (4, 4)
  }

  /** The entry in hand after multiplier f, whose goal is 16, and the other one. */
  function Held(freqIn: nat, f: nat): nat {
    if Dead(freqIn, f, (1, 16)) then 19 else 18
  }

  function Other(freqIn: nat, f: nat): nat {
    if Dead(freqIn, f, (1, 16)) then 18 else 19
  }

  /** Product 16, met for multiplier f, is used again for the goal 17 of f + 1; the
      pair in hand is then outside the limits and the other one within them. */
  predicate Misses(freqIn: nat, invRatio: nat, f: nat) {
    && Goal(invRatio, f) == 16 && Goal(invRatio, f + 1) == 17 && RoundsUp(invRatio, f + 1)
    && Dead(freqIn, f + 1, Sixteen(Held(freqIn, f))) && !Dead(freqIn, f + 1, Sixteen(Other(freqIn, f)))
  }

  lemma RejectedCovers(c: Candidate, f: nat, last: nat, lastAt: nat, t: seq<(nat, nat)>, ps: seq<nat>, freqIn: nat, invRatio: nat, e: int, i: nat)
    requires TableOk(t, ps) && Dense(t, ps) && ChosenAt(c, f, last, lastAt, t, ps, invRatio)
    requires JudgedAt(c, last, lastAt, t, ps, freqIn, invRatio, e) && !InSpec(freqIn, c.r, f)
    requires i < |t| && ps[i] == ps[c.at] && (Goal(invRatio, f) <= 16 ==> last < Goal(invRatio, f))
    ensures Dead(freqIn, f, t[i]) || (Goal(invRatio, f) == 17 && last == 16 && (i == 18 || i == 19) && i != lastAt)
  {
    if Goal(invRatio, f) <= 16 {
      ExactCandidate(c, f, last, lastAt, t, ps, invRatio);
    } else if ps[i] <= 16 {
      SmallCandidate(c, f, last, lastAt, t, ps, invRatio);
      SixteenIs(t, ps, i);
    } else {
      OnlyEntry(t, ps, i, StartOf(c, ps, invRatio, last, lastAt));
    }
  }

  lemma {:induction false} JudgedFront(tried: seq<Candidate>, t: seq<(nat, nat)>, ps: seq<nat>, freqIn: nat, invRatio: nat, e: int, k: nat)
    requires JudgedOk(tried, t, ps, freqIn, invRatio, e) && k <= |tried|
    ensures JudgedOk(tried[..k], t, ps, freqIn, invRatio, e)
    decreases |tried|
  {
    if k < |tried| {
      JudgedFront(tried[..|tried| - 1], t, ps, freqIn, invRatio, e, k);
      assert tried[..|tried| - 1][..k] == tried[..k];
    } else {
      assert tried[..k] == tried;
    }
  }

  /** The pair a multiplier with goal 16 leaves in hand. */
  lemma HeldAfter16(tried: seq<Candidate>, t: seq<(nat, nat)>, ps: seq<nat>, freqIn: nat, invRatio: nat, e: int)
    requires TableOk(t, ps) && Dense(t, ps) && ChosenOk(tried, t, ps, invRatio) && JudgedOk(tried, t, ps, freqIn, invRatio, e)
    requires invRatio >= ONE && tried != [] && Goal(invRatio, |tried|) == 16
    ensures LastAt(tried) == Held(freqIn, |tried|) && LastProduct(tried, ps) == 16
  {
    var front, c := tried[..|tried| - 1], tried[|tried| - 1];
    GoalGrows(invRatio, |front|);
    SmallGoals(front, t, ps, invRatio);
    ExactCandidate(c, |tried|, LastProduct(front, ps), LastAt(front), t, ps, invRatio);
    SixteenIs(t, ps, c.at);
    SixteenIs(t, ps, c.next);
  }

  /** For the goal 17, rounded up, 16 is as near as 18 and is kept. */
  lemma KeptFor17(c: Candidate, f: nat, lastAt: nat, t: seq<(nat, nat)>, ps: seq<nat>, invRatio: nat)
    requires TableOk(t, ps) && Dense(t, ps) && ChosenAt(c, f, 16, lastAt, t, ps, invRatio)
    requires Goal(invRatio, f) == 17 && RoundsUp(invRatio, f)
    ensures c.at == lastAt && StartOf(c, ps, invRatio, 16, lastAt) == lastAt && ps[c.at] == 16
  {
    SmallIsEarly(t, ps, c.next);
    if c.next > 0 { SmallIsEarly(t, ps, c.next - 1); }
    SmallIsEarly(t, ps, c.at);
  }

  /** The candidate for multiplier k + 1 when k had goal 16 and k + 1 has 17. */
  lemma KeptCandidate(tried: seq<Candidate>, t: seq<(nat, nat)>, ps: seq<nat>, freqIn: nat, invRatio: nat, e: int, k: nat)
    requires TableOk(t, ps) && Dense(t, ps) && ChosenOk(tried, t, ps, invRatio) && JudgedOk(tried, t, ps, freqIn, invRatio, e)
    requires invRatio >= ONE && k < |tried| && Goal(invRatio, k) == 16 && Goal(invRatio, k + 1) == 17 && RoundsUp(invRatio, k + 1)
    ensures tried[k].at == Held(freqIn, k) && tried[k].at < |t| && ps[tried[k].at] == 16 && Holds(t, tried[k].at, tried[k].r, tried[k].od)
  {
    ChosenPrefix(tried, t, ps, invRatio, k);
    JudgedFront(tried, t, ps, freqIn, invRatio, e, k);
    HeldAfter16(tried[..k], t, ps, freqIn, invRatio, e);
    KeptFor17(tried[k], k + 1, LastAt(tried[..k]), t, ps, invRatio);
  }

  /** A pair passed over for multiplier k + 1 shows that product 16 was kept. */
  lemma PassedIsMiss(tried: seq<Candidate>, t: seq<(nat, nat)>, ps: seq<nat>, freqIn: nat, invRatio: nat, e: int, k: nat, i: nat)
    requires TableOk(t, ps) && Dense(t, ps) && ChosenOk(tried, t, ps, invRatio) && JudgedOk(tried, t, ps, freqIn, invRatio, e)
    requires invRatio >= ONE && k < |tried| && i < |t| && tried[k].at < |t| && ps[i] == ps[tried[k].at]
    requires !InSpec(freqIn, tried[k].r, k + 1) && !Dead(freqIn, k + 1, t[i])
    ensures Goal(invRatio, k) == 16 && Goal(invRatio, k + 1) == 17 && RoundsUp(invRatio, k + 1)
    ensures ps[i] == 16 && i != Held(freqIn, k) && Dead(freqIn, k + 1, t[Held(freqIn, k)])
  {
    var front, c := tried[..k], tried[k];
    ChosenPrefix(tried, t, ps, invRatio, k);
    JudgedPrefix(tried, t, ps, freqIn, invRatio, e, k);
    JudgedFront(tried, t, ps, freqIn, invRatio, e, k);
    GoalGrows(invRatio, k);
    if Goal(invRatio, k) <= 16 { SmallGoals(front, t, ps, invRatio); }
    RejectedCovers(c, k + 1, LastProduct(front, ps), LastAt(front), t, ps, freqIn, invRatio, e, i);
    SmallCandidate(c, k + 1, LastProduct(front, ps), LastAt(front), t, ps, invRatio);
    SmallKept(t, ps, 17, RoundsUp(invRatio, k + 1), 16, c.next);
    HeldAfter16(front, t, ps, freqIn, invRatio, e);
  }

  /** Exactly when, and which, pair of the product chosen for multiplier k + 1 is
      passed over: rejected with it although it is within the limits. */
  lemma PassedExactly(tried: seq<Candidate>, t: seq<(nat, nat)>, ps: seq<nat>, freqIn: nat, invRatio: nat, e: int, k: nat, i: nat)
    requires TableOk(t, ps) && Dense(t, ps) && ChosenOk(tried, t, ps, invRatio) && JudgedOk(tried, t, ps, freqIn, invRatio, e)
    requires invRatio >= ONE && k < |tried| && i < |t| && tried[k].at < |t| && ps[i] == ps[tried[k].at]
    ensures !InSpec(freqIn, tried[k].r, k + 1) && !Dead(freqIn, k + 1, t[i]) <==> Misses(freqIn, invRatio, k) && i == Other(freqIn, k)
  {
    if !InSpec(freqIn, tried[k].r, k + 1) && !Dead(freqIn, k + 1, t[i]) {
      PassedIsMiss(tried, t, ps, freqIn, invRatio, e, k, i);
      SixteenIs(t, ps, i);
    } else if Misses(freqIn, invRatio, k) {
      KeptCandidate(tried, t, ps, freqIn, invRatio, e, k);
    }
  }

  /** The search misses a pair of a product it chose, for some multiplier, exactly
      for these frequencies. */
  lemma MissesExactly(tried: seq<Candidate>, t: seq<(nat, nat)>, ps: seq<nat>, freqIn: nat, invRatio: nat, e: int, k: nat)
    requires TableOk(t, ps) && Dense(t, ps) && ChosenOk(tried, t, ps, invRatio) && JudgedOk(tried, t, ps, freqIn, invRatio, e)
    requires invRatio >= ONE && k < |tried|
    ensures tried[k].at < |ps|
    ensures (!InSpec(freqIn, tried[k].r, k + 1) && exists i :: 0 <= i < |t| && ps[i] == ps[tried[k].at] && !Dead(freqIn, k + 1, t[i]))
        <==> Misses(freqIn, invRatio, k)
  {
    ChosenPrefix(tried, t, ps, invRatio, k);
    forall i: nat | i < |t| && ps[i] == ps[tried[k].at]
      ensures !InSpec(freqIn, tried[k].r, k + 1) && !Dead(freqIn, k + 1, t[i]) <==> Misses(freqIn, invRatio, k) && i == Other(freqIn, k)
    {
      PassedExactly(tried, t, ps, freqIn, invRatio, e, k, i);
    }
    if Misses(freqIn, invRatio, k) {
      KeptCandidate(tried, t, ps, freqIn, invRatio, e, k);
    }
  }

  /** For every multiplier and every table pair of the product chosen for it,
      either way round: if it is within the limits the result is at least as good,
      unless the frequencies are such that it is passed over. */
  lemma ProductCovered(tried: seq<Candidate>, t: seq<(nat, nat)>, ps: seq<nat>, freqIn: nat, invRatio: nat, e: int, k: nat, i: nat)
    requires TableOk(t, ps) && Dense(t, ps) && ChosenOk(tried, t, ps, invRatio) && JudgedOk(tried, t, ps, freqIn, invRatio, e) && invRatio >= ONE
    requires k < |tried| && i < |t| && tried[k].at < |t| && ps[i] == ps[tried[k].at] && !Dead(freqIn, k + 1, t[i])
    ensures ps[i] > 0 && (e <= Error(invRatio, k + 1, ps[i]) || (Misses(freqIn, invRatio, k) && i == Other(freqIn, k)))
  {
    ChosenPrefix(tried, t, ps, invRatio, k);
    JudgedPrefix(tried, t, ps, freqIn, invRatio, e, k);
    PassedExactly(tried, t, ps, freqIn, invRatio, e, k, i);
  }

  /** A candidate that nothing beats is outside the limits, either way round. */
  lemma CandidateDead(c: Candidate, f: nat, last: nat, lastAt: nat, t: seq<(nat, nat)>, ps: seq<nat>, freqIn: nat, invRatio: nat)
    requires ChosenAt(c, f, last, lastAt, t, ps, invRatio) && JudgedAt(c, last, lastAt, t, ps, freqIn, invRatio, I64_MAX)
    requires f <= 256 && invRatio <= 256 * ONE + 1
    ensures !InSpec(freqIn, c.r, f) && Dead(freqIn, f, (c.r, c.od))
  {
    ErrorFits(invRatio, f, ps[c.at]);
    assert Dead(freqIn, f, t[c.at]) ==> Dead(freqIn, f, (c.r, c.od));
  }

  /** When the search finds nothing, every candidate is outside the limits either
      way round, and any other table pair of its product is outside them too if
      and only if it was not passed over. */
  lemma NothingFound(tried: seq<Candidate>, t: seq<(nat, nat)>, ps: seq<nat>, freqIn: nat, invRatio: nat, k: nat, i: nat)
    requires TableOk(t, ps) && Dense(t, ps) && ChosenOk(tried, t, ps, invRatio) && ONE <= invRatio <= 256 * ONE + 1
    requires JudgedOk(tried, t, ps, freqIn, invRatio, I64_MAX)
    requires k < |tried| && i < |t| && tried[k].at < |t| && ps[i] == ps[tried[k].at]
    ensures Dead(freqIn, k + 1, t[i]) <==> !(Misses(freqIn, invRatio, k) && i == Other(freqIn, k))
    ensures Dead(freqIn, k + 1, (tried[k].r, tried[k].od))
  {
    ChosenPrefix(tried, t, ps, invRatio, k);
    JudgedPrefix(tried, t, ps, freqIn, invRatio, I64_MAX, k);
    GoalGrows(invRatio, k + 1);
    CandidateDead(tried[k], k + 1, LastProduct(tried[..k], ps), LastAt(tried[..k]), t, ps, freqIn, invRatio);
    PassedExactly(tried, t, ps, freqIn, invRatio, I64_MAX, k, i);
  }

  // ---------------------------------------------------------------------
  // A pair that is passed over
  // ---------------------------------------------------------------------

  /** 22.4 MHz to 21.4 MHz. Only r = 1 divides little enough, and the VCO is fast
      enough from f = 16 on. */
  const MISSED_IN: nat := 22_400_000
  const MISSED_OUT: nat := 21_400_000

  ghost function MissedRatio(): nat {
    DivRoundClosest(MISSED_IN * ONE, MISSED_OUT)
  }

  lemma MissedGoals()
    ensures ONE <= MissedRatio() <= 256 * ONE
    ensures Goal(MissedRatio(), 15) == 16 && Goal(MissedRatio(), 16) == 17 && RoundsUp(MissedRatio(), 16)
  {
    ScaledIs(MissedRatio(), 15);
    ScaledIs(MissedRatio(), 16);
  }

  lemma MissedLimits(r: nat, f: nat)
    requires InSpec(MISSED_IN, r, f)
    ensures r == 1 && f >= 16
  {
  }

  /** The pair (1, 16) with f = 16 is within the limits. */
  lemma MissedIsFine()
    ensures InSpec(MISSED_IN, 1, 16)
  {
  }

  lemma {:induction false} LargerGoal(invRatio: nat, f: nat, g: nat)
    requires invRatio >= ONE && f < g
    ensures Goal(invRatio, f) < Goal(invRatio, g)
    decreases g
  {
    GoalGrows(invRatio, g - 1);
    if f < g - 1 { LargerGoal(invRatio, f, g - 1); }
  }

  /** A factor 1 occurs in no entry from 20 on, so it needs a product up to 16. */
  ghost predicate UnitEarly(t: seq<(nat, nat)>) {
    |t| == FACTORS && forall i :: 20 <= i < |t| ==> t[i].0 != 1 && t[i].1 != 1
  }

  /** The factor 1 is tried from f = 16 on only with product 16, kept for goal 17. */
  lemma UnitTried(tried: seq<Candidate>, t: seq<(nat, nat)>, ps: seq<nat>, invRatio: nat, k: nat)
    requires TableOk(t, ps) && Dense(t, ps) && UnitEarly(t) && ChosenOk(tried, t, ps, invRatio)
    requires invRatio >= ONE && Goal(invRatio, 16) == 17 && k < |tried| && tried[k].r == 1 && k >= 15
    ensures k == 15
  {
    ChosenPrefix(tried, t, ps, invRatio, k);
    SmallIsEarly(t, ps, tried[k].at);
    if k > 15 { LargerGoal(invRatio, 16, k + 1); }
    SmallCandidate(tried[k], k + 1, LastProduct(tried[..k], ps), LastAt(tried[..k]), t, ps, invRatio);
  }

  lemma FactorUnitEarly()
    ensures UnitEarly(Table(Pair))
  {
    forall i: nat | 20 <= i < FACTORS
      ensures Pair(i).0 != 1 && Pair(i).1 != 1
    {
      UnitFactor(i);
    }
  }

  /** Here multiplier 16 misses (1, 16), the only pair that could have helped. */
  lemma MissedMisses()
    ensures Misses(MISSED_IN, MissedRatio(), 15) && Sixteen(Other(MISSED_IN, 15)) == (1, 16)
  {
    MissedGoals();
    MissedIsFine();
    assert Dead(MISSED_IN, 15, (1, 16)) && Dead(MISSED_IN, 16, (4, 4));
  }

  lemma NoneBest(best: Option<Params>, e: i64, tried: seq<Candidate>, t: seq<(nat, nat)>, ps: seq<nat>, invRatio: nat)
    requires TableOk(t, ps) && Dense(t, ps) && UnitEarly(t)
    requires ChosenOk(tried, t, ps, invRatio) && JudgedOk(tried, t, ps, MISSED_IN, invRatio, e)
    requires invRatio >= ONE && Misses(MISSED_IN, invRatio, 15)
    requires BestOk(best, e, MISSED_IN, invRatio) && BestIsTried(best, tried)
    ensures best.None?
  {
    if best.Some? {
      MissedLimits(best.value.clkr + 1, best.value.clkf + 1);
      UnitTried(tried, t, ps, invRatio, best.value.clkf);
      MissesExactly(tried, t, ps, MISSED_IN, invRatio, e, 15);
    }
  }

  /** For these frequencies the search returns nothing, although r = 1, f = 16,
      od = 16 is within the limits: (1, 16) was rejected for f = 15 and is not
      tried again when product 16 is used a second time. */
  method MissedPair() returns (best: Option<Params>)
    ensures best.None? && InSpec(MISSED_IN, 1, 16)
  {
    ghost var e, tried;
    best, e, tried := ComputeParams(MISSED_IN, MISSED_OUT);
    MissedGoals();
    MissedIsFine();
    MissedMisses();
    FactorTableDense();
    FactorUnitEarly();
    NoneBest(best, e, tried, Table(Pair), Products(PairProduct), MissedRatio());
  }
}
