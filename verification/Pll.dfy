/** The PLL parameter search: given input and output frequency, find divider r,
    multiplier f and output divider od with the least frequency error that keep
    the internal clocks within their limits. Ratios are 32.32 fixed point. */
module Pll {
  import opened Options
  import opened PllTable

  type u8 = x: nat | x < 0x100
  type u32 = x: nat | x < 0x1_0000_0000
  type u64 = x: nat | x < 0x1_0000_0000_0000_0000
  type i64 = x: int | -0x8000_0000_0000_0000 <= x < 0x8000_0000_0000_0000

  const VCO_MIN: nat := 340_000_000
  const VCO_MAX: nat := 1_750_000_000
  const DIV_MIN: nat := 13_300_000
  const F_MAX: nat := 64
  const OUT_MIN: nat := 21_250_000
  const OUT_MAX: nat := 1_750_000_000
  const IN_MIN: nat := 13_300_000
  const IN_MAX: nat := 1_750_000_000
  const ONE: nat := 0x1_0000_0000
  const HALF: nat := 0x8000_0000
  const I64_MAX: int := 0x7fff_ffff_ffff_ffff

  const U64: nat := 0x1_0000_0000_0000_0000

  datatype Params = Params(clkr: u8, clkf: u8, clkod: u8, bwadj: u8)

  // ---------------------------------------------------------------------
  // What the hardware demands and what is minimised
  // ---------------------------------------------------------------------

  function DivRoundClosest(n: nat, d: nat): nat
    requires d > 0
  {
    (n + d / 2) / d
  }

  function AbsDiff(a: nat, b: nat): nat {
    if a > b then a - b else b - a
  }

  /** Divided clock at least 13.3 MHz and VCO between 340 MHz and 1.75 GHz. */
  predicate InSpec(freqIn: nat, r: nat, f: nat) {
    0 < r <= freqIn / DIV_MIN && VCO_MIN <= DivRoundClosest(freqIn * f, r) <= VCO_MAX
  }

  /** Relative frequency error of f / p, in units of 2^-16. */
  function Error(invRatio: nat, f: nat, p: nat): nat
    requires p > 0
  {
    AbsDiff(DivRoundClosest(f * invRatio, p), ONE) / 0x1_0000
  }

  /** The multiplier that goes with product p when the output is faster. */
  function Multiplier(ratio: nat, p: nat): nat {
    var f := (p * ratio + HALF) / ONE;
    if f > F_MAX then F_MAX else f
  }

  // ---------------------------------------------------------------------
  // Arithmetic
  // ---------------------------------------------------------------------

  lemma DivAtLeast(n: nat, d: nat, k: nat)
    requires d > 0 && n >= d * k
    ensures n / d >= k
  {
    var q := n / d;
    assert n == d * q + n % d;
    assert q <= k - 1 ==> d * q <= d * (k - 1);
    assert d * (k - 1) == d * k - d;
  }

  lemma DivAtMost(n: nat, d: nat, k: nat)
    requires d > 0 && n < d * (k + 1)
    ensures n / d <= k
  {
    var q := n / d;
    assert n == d * q + n % d;
    assert q >= k + 1 ==> d * q >= d * (k + 1);
  }

  lemma DivSmaller(n: nat, d: nat)
    requires d > 0
    ensures n / d <= n
  {
    MulMono(1, n + 1, d, n + 1);
    DivAtMost(n, d, n);
  }

  lemma MulMono(a: nat, b: nat, c: nat, d: nat)
    requires a <= c && b <= d
    ensures a * b <= c * d
  {
    assert a * b <= c * b;
    assert c * b <= c * d;
  }

  lemma DivRoundSmall(n: nat, d: nat)
    requires d > 0
    ensures DivRoundClosest(n, d) <= n + 1
  {
    assert d * (n + 2) >= n + d by { MulMono(n, 1, n, d); assert d * (n + 2) == n * d + 2 * d; }
    DivAtMost(n + d / 2, d, n + 1);
  }

  /** `div_round_closest` gives the integer nearest to n / d, the larger of two. */
  lemma NearestExactly(n: nat, d: nat, q: nat)
    requires d > 0
    ensures q == DivRoundClosest(n, d) <==> 2 * (q * d) <= 2 * n + d < 2 * (q * d) + 2 * d
  {
    var m := n + d / 2;
    assert m == d * (m / d) + m % d;
    QuotientIs(m, d, q);
  }

  lemma QuotientIs(m: nat, d: nat, q: nat)
    requires d > 0
    ensures q == m / d <==> q * d <= m < q * d + d
  {
    var k := m / d;
    assert m == k * d + m % d;
    if q < k {
      MulMono(q + 1, d, k, d);
      assert (q + 1) * d == q * d + d;
    } else if k < q {
      MulMono(k + 1, d, q, d);
      assert (k + 1) * d == k * d + d;
    }
  }

  lemma RoundedAtMost(n: nat, r: nat, k: nat)
    requires r > 0 && DivRoundClosest(n, r) <= k
    ensures n < r * (k + 1)
  {
    var q := DivRoundClosest(n, r);
    assert n + r / 2 == r * q + (n + r / 2) % r;
    MulMono(r, q, r, k);
    assert r * (k + 1) == r * k + r;
  }

  lemma DividedClock(freqIn: nat, r: nat)
    requires r <= freqIn / DIV_MIN
    ensures r * DIV_MIN <= freqIn
  {
  }

  lemma CancelFactor(r: nat, a: nat, b: nat)
    requires r * a < r * b
    ensures a < b
  {
    if a >= b { MulMono(r, b, r, a); }
  }

  /** Parameters within the limits have a multiplier of at most 131. */
  lemma InSpecBoundsF(freqIn: nat, r: nat, f: nat)
    requires InSpec(freqIn, r, f)
    ensures f <= 131
  {
    DividedClock(freqIn, r);
    RoundedAtMost(freqIn * f, r, VCO_MAX);
    MulMono(r * DIV_MIN, f, freqIn, f);
    assert r * DIV_MIN * f == r * (DIV_MIN * f);
    CancelFactor(r, DIV_MIN * f, VCO_MAX + 1);
  }

  lemma {:induction false} Sorted(t: seq<(nat, nat)>, ps: seq<nat>, i: nat, j: nat)
    requires TableOk(t, ps) && i <= j < |ps|
    ensures ps[i] <= ps[j]
    decreases j - i
  {
    if i < j {
      assert StepAt(ps, i);
      Sorted(t, ps, i + 1, j);
    }
  }

  // ---------------------------------------------------------------------
  // Enforcing the limits on one candidate
  // ---------------------------------------------------------------------

  datatype Verdict = Evaluate | Reject | Exhausted

  /** A pair outside the limits either way round. */
  predicate Dead(freqIn: nat, f: nat, pair: (nat, nat)) {
    !InSpec(freqIn, pair.0, f) && !InSpec(freqIn, pair.1, f)
  }

  method Quotient(n: u64, d: u32) returns (q: u64)
    requires d > 0 && n / d < U64
    ensures q == n / d
  {
    q := n / d;
  }

  /** `div_round_closest`, whose sum must fit 64 bits. */
  method DivRound(n: u64, d: u32) returns (q: u64)
    requires d > 0 && n + d / 2 < U64
    ensures q == DivRoundClosest(n, d)
  {
    DivSmaller(n + d / 2, d);
    var sum: u64 := n + d / 2;
    q := Quotient(sum, d);
  }

  /** The product of two factors. */
  method Product(r: u32, od: u32) returns (p: u32)
    requires 1 <= r <= 16 && 1 <= od <= 16
    ensures p == Area((r, od)) && 1 <= p <= 256
  {
    AreaRange((r, od));
    p := r * od;
  }

  method OutOfSpec(freqIn: u32, f: u32, r: u32) returns (outOfSpec: bool)
    requires 1 <= r <= 16 && f <= 256
    ensures outOfSpec <==> !InSpec(freqIn, r, f)
  {
    outOfSpec := false;
    if r > freqIn / DIV_MIN {
      outOfSpec := true;
    } else {
      MulMono(freqIn, f, 0x1_0000_0000, 256);
      var wide: u64 := freqIn * f;
      var vco := DivRound(wide, r);
      if vco > VCO_MAX || vco < VCO_MIN {
        outOfSpec := true;
      }
    }
  }

  /** Whether a pair has the same product as the next table entry. */
  method SameProduct(t: seq<(nat, nat)>, ghost ps: seq<nat>, i: nat, r: u32, od: u32) returns (same: bool)
    requires TableOk(t, ps) && ProductsOf(t, ps) && i < |t| && 1 <= r <= 16 && 1 <= od <= 16
    ensures same <==> Area((r, od)) == ps[i]
  {
    assert ps[i] == Area(t[i]);
    var here := Product(r, od);
    var there := Product(t[i].0, t[i].1);
    same := here == there;
  }

  /** The pair (r, od) is table entry `at`, either way round. */
  predicate Holds(t: seq<(nat, nat)>, at: nat, r: nat, od: nat) {
    at < |t| && ((r, od) == t[at] || (od, r) == t[at])
  }

  lemma HeldArea(t: seq<(nat, nat)>, ps: seq<nat>, at: nat, r: nat, od: nat)
    requires TableOk(t, ps) && ProductsOf(t, ps) && Holds(t, at, r, od)
    ensures Area((r, od)) == ps[at] && 1 <= r <= 16 && 1 <= od <= 16
  {
    assert ps[at] == Area(t[at]);
    assert Area((r, od)) == Area((od, r));
  }

  /** Entry `start` and every entry of product p from `from` on are dead, and
      entry `at` is the last of them. */
  ghost predicate AllDead(t: seq<(nat, nat)>, ps: seq<nat>, freqIn: nat, f: nat, p: nat, start: nat, from: nat, at: nat) {
    && |ps| == |t| && start < |t| && Dead(freqIn, f, t[start])
    && (forall i {:trigger Dead(freqIn, f, t[i])} :: from <= i < |t| && ps[i] == p ==> Dead(freqIn, f, t[i]))
    && (forall i :: from <= i < |t| && ps[i] == p ==> i <= at)
  }

  /** The pair as it is, or turned round if that way r is outside the limits. */
  function Turned(freqIn: nat, f: nat, pair: (nat, nat)): (nat, nat) {
    if InSpec(freqIn, pair.0, f) then pair else (pair.1, pair.0)
  }

  /** Swap r and od, then look ahead to further factors of the same product p,
      until the limits hold or the product has no factors left: the first pair
      within them in reading order is the one taken. */
  method Enforce(t: seq<(nat, nat)>, ghost ps: seq<nat>, freqIn: u32, f: u32, r0: u32, od0: u32, idx0: nat, ghost start: nat)
      returns (verdict: Verdict, r: u32, od: u32, idx: nat, ghost at: nat)
    requires TableOk(t, ps) && ProductsOf(t, ps) && idx0 <= |t| && f <= 256
    requires Holds(t, start, r0, od0) && (idx0 < |t| ==> ps[start] <= ps[idx0])
    ensures Holds(t, at, r, od) && ps[at] == ps[start] && at == (if idx == idx0 then start else idx - 1)
    ensures (r, od) == Turned(freqIn, f, if idx == idx0 then (r0, od0) else t[at])
    ensures idx > idx0 ==> Dead(freqIn, f, t[start])
    ensures forall i :: idx0 <= i < idx - 1 ==> Dead(freqIn, f, t[i])
    ensures idx0 <= idx <= |t| && forall i :: idx0 <= i < idx ==> ps[i] == ps[start]
    ensures idx < |t| ==> ps[start] <= ps[idx]
    ensures verdict.Evaluate? <==> InSpec(freqIn, r, f)
    ensures !verdict.Evaluate? ==> AllDead(t, ps, freqIn, f, ps[start], start, idx0, at)
    ensures verdict.Exhausted? ==> idx == |t|
  {
    r, od, idx := r0, od0, idx0;
    var swapped := false;
    at := start;
    ghost var p := ps[start];
    while true
      invariant Holds(t, at, r, od) && ps[at] == p
      invariant (if swapped then (od, r) else (r, od)) == if idx == idx0 then (r0, od0) else t[at]
      invariant swapped ==> !InSpec(freqIn, od, f)
      invariant idx0 <= idx <= |t| && forall i :: idx0 <= i < idx ==> ps[i] == p
      invariant idx < |t| ==> p <= ps[idx]
      invariant at == if idx == idx0 then start else idx - 1
      invariant idx > idx0 ==> Dead(freqIn, f, t[start])
      invariant forall i :: idx0 <= i < idx - 1 ==> Dead(freqIn, f, t[i])
      decreases |t| - idx, !swapped
    {
      HeldArea(t, ps, at, r, od);
      var outOfSpec := OutOfSpec(freqIn, f, r);
      if !outOfSpec {
        return Evaluate, r, od, idx, at;
      }
      if !swapped {
        r, od := od, r;
        swapped := true;
      } else if idx == |t| {
        return Exhausted, r, od, idx, at;
      } else {
        var same := SameProduct(t, ps, idx, r, od);
        if same {
          if idx + 1 < |t| { assert StepAt(ps, idx); }
          at := idx;
          r, od := t[idx].0, t[idx].1;
          idx := idx + 1;
          swapped := false;
        } else {
          NoMore(t, ps, p, idx);
          return Reject, r, od, idx, at;
        }
      }
    }
  }

  lemma NoMore(t: seq<(nat, nat)>, ps: seq<nat>, p: nat, idx: nat)
    requires TableOk(t, ps) && idx < |t| && p < ps[idx]
    ensures forall i :: idx <= i < |t| ==> ps[i] != p
  {
    forall i | idx <= i < |t|
      ensures ps[i] != p
    {
      Sorted(t, ps, idx, i);
    }
  }

  // ---------------------------------------------------------------------
  // Keeping the best candidate
  // ---------------------------------------------------------------------

  function FactorPair(p: Params): (nat, nat) {
    (p.clkr + 1, p.clkod + 1)
  }

  /** The parameters kept so far are within the limits and have error `bestError`. */
  ghost predicate BestOk(best: Option<Params>, bestError: i64, freqIn: nat, invRatio: nat) {
    match best
    case None => bestError == I64_MAX
    case Some(p) =>
      && p.clkr < 16 && p.clkod < 16 && p.clkf <= 130 && p.bwadj == p.clkf
      && InSpec(freqIn, p.clkr + 1, p.clkf + 1)
      && Area(FactorPair(p)) > 0
      && bestError == Error(invRatio, p.clkf + 1, Area(FactorPair(p)))
  }

  /** The error is the deviation of f * invRatio from p * 2^32 relative to the latter,
      in units of 2^-16, rounded down; the division by p may be off by one half. */
  lemma ErrorIs(invRatio: nat, f: nat, p: nat)
    requires p > 0
    ensures var e, d := Error(invRatio, f, p), AbsDiff(f * invRatio, p * ONE);
      2 * (0x1_0000 * (e * p)) <= 2 * d + p && d < 0x1_0000 * (e * p) + 0x1_0000 * p
  {
    var n := f * invRatio;
    var q := DivRoundClosest(n, p);
    NearestExactly(n, p, q);
    var a := AbsDiff(q, ONE);
    var e := Error(invRatio, f, p);
    MulMono(0x1_0000 * e, p, a, p);
    MulMono(a, p, 0x1_0000 * e + 0xFFFF, p);
    AbsTimes(q, ONE, p);
    assert 0x1_0000 * e * p == 0x1_0000 * (e * p);
    assert (0x1_0000 * e + 0xFFFF) * p == 0x1_0000 * (e * p) + 0xFFFF * p;
  }

  lemma AbsTimes(a: nat, b: nat, p: nat)
    ensures AbsDiff(a * p, b * p) == AbsDiff(a, b) * p
  {
    if a > b { MulMono(b, p, a, p); assert (a - b) * p == a * p - b * p; }
    else { MulMono(a, p, b, p); assert (b - a) * p == b * p - a * p; }
  }

  lemma ErrorFits(invRatio: nat, f: nat, p: nat)
    requires f <= 256 && invRatio <= 256 * ONE + 1 && p > 0
    ensures DivRoundClosest(f * invRatio, p) <= 0x2_0000_0000_0000
  {
    MulMono(f, invRatio, 256, 256 * ONE + 1);
    DivRoundSmall(f * invRatio, p);
  }

  lemma TimesFits(f: nat, invRatio: nat)
    requires f <= 257 && invRatio <= 256 * ONE + 1
    ensures f * invRatio < U64
  {
    MulMono(f, invRatio, 257, 256 * ONE + 1);
  }

  method Times(f: u32, invRatio: u64) returns (wide: u64)
    requires f <= 257 && invRatio <= 256 * ONE + 1
    ensures wide == f * invRatio
  {
    TimesFits(f, invRatio);
    wide := f * invRatio;
  }

  method RelativeError(invRatio: u64, f: u32, p: u32) returns (error: i64)
    requires 1 <= p <= 256 && f <= 256 && invRatio <= 256 * ONE + 1
    ensures error == Error(invRatio, f, p) < I64_MAX
  {
    ErrorFits(invRatio, f, p);
    MulMono(f, invRatio, 257, 256 * ONE + 1);
    var wide: u64 := Times(f, invRatio);
    var quotient := DivRound(wide, p);
    var rounded: i64 := quotient;
    var diff: i64 := rounded - ONE;
    error := (if diff < 0 then -diff else diff) / 0x1_0000;
  }

  /** Compute the error of a candidate within the limits and keep it if it is
      strictly better. */
  method Consider(best: Option<Params>, bestError: i64, freqIn: u32, invRatio: u64, r: u32, f: u32, od: u32)
      returns (best': Option<Params>, bestError': i64, error: i64)
    requires BestOk(best, bestError, freqIn, invRatio)
    requires 1 <= r <= 16 && 1 <= od <= 16 && 1 <= f <= 256 && invRatio <= 256 * ONE + 1 && InSpec(freqIn, r, f)
    ensures Area((r, od)) > 0 && BestOk(best', bestError', freqIn, invRatio)
    ensures error == Error(invRatio, f, Area((r, od)))
    ensures bestError' == if error < bestError then error else bestError
    ensures best' == if error < bestError then Some(Params(r - 1, f - 1, od - 1, f - 1)) else best
    ensures best'.Some?
  {
    InSpecBoundsF(freqIn, r, f);
    var p := Product(r, od);
    error := RelativeError(invRatio, f, p);
    best', bestError' := best, bestError;
    if error < bestError {
      bestError' := error;
      best' := Some(Params(r - 1, f - 1, od - 1, f - 1));
    }
  }

  // ---------------------------------------------------------------------
  // Output faster than input
  // ---------------------------------------------------------------------

  /** A factor pair with product p within the limits does not beat bestError. */
  ghost predicate Covered(pair: (nat, nat), p: nat, freqIn: nat, ratio: nat, invRatio: nat, bestError: int)
    requires p > 0
  {
    var f := Multiplier(ratio, p);
    !Dead(freqIn, f, pair) ==> bestError <= Error(invRatio, f, p)
  }

  /** All entries below upTo and all entries with product p are covered. */
  ghost predicate AllCovered(t: seq<(nat, nat)>, ps: seq<nat>, freqIn: nat, ratio: nat, invRatio: nat,
                             bestError: int, upTo: nat, p: nat)
    requires TableOk(t, ps)
  {
    forall i :: 0 <= i < |t| && (i < upTo || ps[i] == p) ==> Covered(t[i], ps[i], freqIn, ratio, invRatio, bestError)
  }

  /** f is p * ratio rounded to the nearest whole number, halves up, or 64 where that
      is more. */
  predicate Rounds(ratio: nat, p: nat, f: nat) {
    var x := p * ratio;
    if 2 * x < 129 * ONE then 2 * f * ONE - ONE <= 2 * x < 2 * f * ONE + ONE else f == 64
  }

  lemma MultiplierRounds(ratio: nat, p: nat, f: nat)
    ensures f == Multiplier(ratio, p) <==> Rounds(ratio, p, f)
  {
  }

  /** So no multiplier from 1 to 64 comes nearer to p * ratio. */
  lemma RoundsNearest(ratio: nat, p: nat, f: nat, g: nat)
    requires Rounds(ratio, p, f) && g <= 64
    ensures AbsDiff(f * ONE, p * ratio) <= AbsDiff(g * ONE, p * ratio)
  {
    if 2 * (p * ratio) < 129 * ONE { NearestOf(p * ratio, f, g); } else { CapNearest(p * ratio, g); }
  }

  lemma NearestOf(x: nat, f: nat, g: nat)
    requires 2 * f * ONE - ONE <= 2 * x < 2 * f * ONE + ONE
    ensures AbsDiff(f * ONE, x) <= AbsDiff(g * ONE, x)
  {
    if g < f { assert (f - 1) * ONE >= g * ONE; } else if g > f { assert (f + 1) * ONE <= g * ONE; }
  }

  lemma CapNearest(x: nat, g: nat)
    requires 2 * x >= 129 * ONE && g <= 64
    ensures AbsDiff(64 * ONE, x) <= AbsDiff(g * ONE, x)
  {
    assert g * ONE <= 64 * ONE;
  }

  /** For every table pair within the limits, with its rounded multiplier, the result
      is at least as good. */
  ghost predicate NoneBetter(t: seq<(nat, nat)>, ps: seq<nat>, freqIn: nat, ratio: nat, invRatio: nat, bestError: int)
    requires TableOk(t, ps)
  {
    forall i, f: nat :: 0 <= i < |t| && Rounds(ratio, ps[i], f) && !Dead(freqIn, f, t[i]) ==> bestError <= Error(invRatio, f, ps[i])
  }

  /** Of equally good pairs the one of the smallest product was kept. */
  ghost predicate EarlierWorse(best: Option<Params>, e: int, t: seq<(nat, nat)>, ps: seq<nat>, freqIn: nat, ratio: nat, invRatio: nat)
    requires TableOk(t, ps)
  {
    best.Some? ==>
      forall i, f: nat :: 0 <= i < |t| && ps[i] < Area(FactorPair(best.value)) && Rounds(ratio, ps[i], f) && !Dead(freqIn, f, t[i]) ==>
        e < Error(invRatio, f, ps[i])
  }

  lemma NewIsEarliest(best: Option<Params>, e: int, e0: int, t: seq<(nat, nat)>, ps: seq<nat>, freqIn: nat, ratio: nat, invRatio: nat,
                      first: nat, lastP: nat)
    requires TableOk(t, ps) && first < |t| && best.Some? && Area(FactorPair(best.value)) == ps[first] && e < e0
    requires AllCovered(t, ps, freqIn, ratio, invRatio, e0, first, lastP)
    ensures EarlierWorse(best, e, t, ps, freqIn, ratio, invRatio)
  {
    forall i, f: nat | 0 <= i < |t| && ps[i] < ps[first] && Rounds(ratio, ps[i], f) && !Dead(freqIn, f, t[i])
      ensures e < Error(invRatio, f, ps[i])
    {
      if i >= first { Sorted(t, ps, first, i); }
      MultiplierRounds(ratio, ps[i], f);
      assert Covered(t[i], ps[i], freqIn, ratio, invRatio, e0);
    }
  }

  lemma CoveredIsBest(t: seq<(nat, nat)>, ps: seq<nat>, freqIn: nat, ratio: nat, invRatio: nat, e: int)
    requires TableOk(t, ps) && AllCovered(t, ps, freqIn, ratio, invRatio, e, |t|, 0)
    ensures NoneBetter(t, ps, freqIn, ratio, invRatio, e)
  {
    forall i, f: nat | 0 <= i < |t| && Rounds(ratio, ps[i], f) && !Dead(freqIn, f, t[i])
      ensures e <= Error(invRatio, f, ps[i])
    {
      MultiplierRounds(ratio, ps[i], f);
      assert Covered(t[i], ps[i], freqIn, ratio, invRatio, e);
    }
  }

  lemma MultiplierRange(ratio: nat, p: nat)
    requires ONE <= ratio <= 64 * ONE && 1 <= p <= 256
    ensures 1 <= Multiplier(ratio, p) <= 64
    ensures p * ratio + HALF < 0x1_0000_0000_0000_0000
    ensures (p * ratio + HALF) / ONE < 0x1_0000_0000
  {
    MulMono(1, ONE, p, ratio);
    MulMono(p, ratio, 256, 64 * ONE);
    DivAtLeast(p * ratio + HALF, ONE, 1);
  }

  method RoundedMultiplier(ratio: u64, p: u32) returns (f: u32)
    requires ONE <= ratio <= 64 * ONE && 1 <= p <= 256
    ensures f == Multiplier(ratio, p) && 1 <= f <= 64
  {
    MultiplierRange(ratio, p);
    var wide: u64 := p * ratio;
    var sum: u64 := wide + HALF;
    f := sum / ONE;
    if f > F_MAX {
      f := F_MAX;
    }
  }

  /** Skip the remaining factors of the product p tried last. */
  method NextProduct(t: seq<(nat, nat)>, ghost ps: seq<nat>, p: u32, idx0: nat)
      returns (ok: bool, r: u32, od: u32, idx: nat)
    requires TableOk(t, ps) && ProductsOf(t, ps) && idx0 <= |t|
    ensures idx0 <= idx <= |t|
    ensures ok ==> idx > idx0 && (r, od) == t[idx - 1] && ps[idx - 1] != p
    ensures forall i :: idx0 <= i < (if ok then idx - 1 else idx) ==> ps[i] == p
    ensures !ok ==> idx == |t|
  {
    ok, r, od, idx := false, 0, 0, idx0;
    while idx < |t|
      invariant idx0 <= idx <= |t|
      invariant forall i :: idx0 <= i < idx ==> ps[i] == p
    {
      assert ps[idx] == Area(t[idx]);
      r, od := t[idx].0, t[idx].1;
      idx := idx + 1;
      var product := Product(r, od);
      if product != p {
        ok := true;
        return;
      }
    }
  }

  ghost predicate MultiplierFits(best: Option<Params>, ratio: nat) {
    best.Some? ==> Rounds(ratio, Area(FactorPair(best.value)), best.value.clkf + 1)
  }

  /** One round of the upward search, for the pair at table index first. */
  method TryProduct(t: seq<(nat, nat)>, ghost ps: seq<nat>, freqIn: u32, ratio: u64, invRatio: u64, first: nat,
                    best0: Option<Params>, e0: i64, ghost lastP: nat)
      returns (stop: bool, idx: nat, best: Option<Params>, e: i64)
    requires TableOk(t, ps) && ProductsOf(t, ps) && ONE <= ratio <= 64 * ONE && invRatio <= 256 * ONE + 1
    requires first < |t| && BestOk(best0, e0, freqIn, invRatio) && MultiplierFits(best0, ratio)
    requires EarlierWorse(best0, e0, t, ps, freqIn, ratio, invRatio)
    requires AllCovered(t, ps, freqIn, ratio, invRatio, e0, first, lastP)
    ensures first < idx <= |t| && BestOk(best, e, freqIn, invRatio) && MultiplierFits(best, ratio)
    ensures EarlierWorse(best, e, t, ps, freqIn, ratio, invRatio)
    ensures AllCovered(t, ps, freqIn, ratio, invRatio, e, idx, ps[first])
    ensures stop ==> idx == |t| || e <= 0
  {
    assert ps[first] == Area(t[first]);
    var p := Product(t[first].0, t[first].1);
    var f := RoundedMultiplier(ratio, p);
    var verdict, r, od;
    ghost var at;
    if first + 1 < |t| { assert StepAt(ps, first); }
    verdict, r, od, idx, at := Enforce(t, ps, freqIn, f, t[first].0, t[first].1, first + 1, first);
    HeldArea(t, ps, at, r, od);
    best, e := best0, e0;
    stop := verdict.Exhausted?;
    if verdict.Evaluate? {
      var error;
      best, e, error := Consider(best0, e0, freqIn, invRatio, r, f, od);
      MultiplierRounds(ratio, p, f);
      if error < e0 { NewIsEarliest(best, e, e0, t, ps, freqIn, ratio, invRatio, first, lastP); }
      EvaluatedCovers(t, ps, freqIn, ratio, invRatio, e0, e, first, idx, p, lastP);
      stop := error == 0;
    } else {
      RejectedCovers(t, ps, freqIn, ratio, invRatio, e0, first, idx, p, lastP);
    }
  }

  /** The search when the output is faster: every table product is tried, in
      order, with its own rounded multiplier. */
  method SearchUp(t: seq<(nat, nat)>, ghost ps: seq<nat>, freqIn: u32, ratio: u64, invRatio: u64)
      returns (best: Option<Params>, bestError: i64)
    requires TableOk(t, ps) && ProductsOf(t, ps) && ONE <= ratio <= 64 * ONE && invRatio <= 256 * ONE + 1
    ensures BestOk(best, bestError, freqIn, invRatio) && MultiplierFits(best, ratio)
    ensures EarlierWorse(best, bestError, t, ps, freqIn, ratio, invRatio)
    ensures AllCovered(t, ps, freqIn, ratio, invRatio, bestError, |t|, 0) && NoneBetter(t, ps, freqIn, ratio, invRatio, bestError)
  {
    best, bestError := None, I64_MAX;
    var p: u32, idx, stop := 0, 0, false;
    while !stop
      invariant idx <= |t|
      invariant BestOk(best, bestError, freqIn, invRatio) && MultiplierFits(best, ratio)
      invariant EarlierWorse(best, bestError, t, ps, freqIn, ratio, invRatio)
      invariant AllCovered(t, ps, freqIn, ratio, invRatio, bestError, idx, p)
      invariant stop ==> idx == |t| || bestError <= 0
      decreases !stop, |t| - idx
    {
      ghost var lastP := p;
      var ok, r, od;
      ok, r, od, idx := NextProduct(t, ps, p, idx);
      if ok {
        assert ps[idx - 1] == Area(t[idx - 1]);
        p := Product(r, od);
        stop, idx, best, bestError := TryProduct(t, ps, freqIn, ratio, invRatio, idx - 1, best, bestError, lastP);
      } else {
        stop := true;
      }
    }
    if idx < |t| {
      ExactCovers(t, ps, freqIn, ratio, invRatio, bestError);
    }
    CoveredIsBest(t, ps, freqIn, ratio, invRatio, bestError);
  }

  /** An exact candidate cannot be beaten. */
  lemma ExactCovers(t: seq<(nat, nat)>, ps: seq<nat>, freqIn: nat, ratio: nat, invRatio: nat, e: int)
    requires TableOk(t, ps) && e <= 0
    ensures AllCovered(t, ps, freqIn, ratio, invRatio, e, |t|, 0)
  {
  }

  lemma EvaluatedCovers(t: seq<(nat, nat)>, ps: seq<nat>, freqIn: nat, ratio: nat, invRatio: nat, e: int, e': int,
                        first: nat, idx: nat, p: nat, lastP: nat)
    requires TableOk(t, ps) && first < idx <= |t| && p > 0 && e' <= e && e' <= Error(invRatio, Multiplier(ratio, p), p)
    requires AllCovered(t, ps, freqIn, ratio, invRatio, e, first, lastP)
    requires forall i :: first <= i < idx ==> ps[i] == p
    ensures AllCovered(t, ps, freqIn, ratio, invRatio, e', idx, p)
  {
  }

  lemma RejectedCovers(t: seq<(nat, nat)>, ps: seq<nat>, freqIn: nat, ratio: nat, invRatio: nat, e: int,
                       first: nat, idx: nat, p: nat, lastP: nat)
    requires TableOk(t, ps) && first < idx <= |t| && p > 0
    requires AllCovered(t, ps, freqIn, ratio, invRatio, e, first, lastP)
    requires forall i :: first <= i < idx ==> ps[i] == p
    requires forall i :: first <= i < |t| && ps[i] == p ==> Dead(freqIn, Multiplier(ratio, p), t[i])
    ensures AllCovered(t, ps, freqIn, ratio, invRatio, e, idx, p)
  {
  }

  // ---------------------------------------------------------------------
  // Output not faster than input
  // ---------------------------------------------------------------------

  /** f * invRatio, by repeated addition. */
  function Scaled(invRatio: nat, f: nat): nat {
    if f == 0 then 0 else Scaled(invRatio, f - 1) + invRatio
  }

  lemma {:induction false} ScaledIs(invRatio: nat, f: nat)
    ensures Scaled(invRatio, f) == f * invRatio
  {
    if f > 0 { ScaledIs(invRatio, f - 1); }
  }

  /** The product r * od that would be exact for multiplier f, rounded. */
  function Goal(invRatio: nat, f: nat): nat {
    (Scaled(invRatio, f) + HALF) / ONE
  }

  predicate RoundsUp(invRatio: nat, f: nat) {
    Scaled(invRatio, f) / HALF % 2 == 1
  }

  /** The source computes the goal from the integer part and bit 31. */
  lemma GoalSplit(x: nat)
    ensures (x + HALF) / ONE == x / ONE + (if x / HALF % 2 == 1 then 1 else 0)
  {
  }

  /** The goal grows by at least one for every step of f. */
  lemma {:induction false} GoalGrows(invRatio: nat, f: nat)
    requires invRatio >= ONE
    ensures Goal(invRatio, f + 1) > Goal(invRatio, f) && Goal(invRatio, f) >= f
  {
    if f > 0 { GoalGrows(invRatio, f - 1); }
  }

  /** The goal is f * invRatio / 2^32 rounded to the nearest whole number, halves up,
      and was rounded up exactly if it is above that. */
  lemma GoalNearest(invRatio: nat, f: nat)
    ensures var x, g := f * invRatio, Goal(invRatio, f);
      2 * g * ONE - ONE <= 2 * x < 2 * g * ONE + ONE && (RoundsUp(invRatio, f) <==> g * ONE > x)
  {
    ScaledIs(invRatio, f);
    GoalSplit(f * invRatio);
  }

  /** The product kept is the one nearer to f * invRatio / 2^32 itself. */
  lemma KeepsNearer(invRatio: nat, f: nat, last: nat, next: nat)
    requires next >= Goal(invRatio, f)
    ensures var x := f * invRatio;
      if KeepsLast(invRatio, f, last, next) then AbsDiff(last * ONE, x) <= AbsDiff(next * ONE, x)
      else AbsDiff(next * ONE, x) <= AbsDiff(last * ONE, x)
  {
    GoalNearest(invRatio, f);
  }

  /** Product p is the one to try for multiplier f after product `last`: the
      nearer to the goal of `last` and the next table product not below the
      goal, ties going down exactly if the goal was rounded up. */
  ghost predicate Chosen(ps: seq<nat>, invRatio: nat, f: nat, last: nat, p: nat, next: nat) {
    var g := Goal(invRatio, f);
    && next < |ps| && ps[next] >= g
    && (next > 0 ==> ps[next - 1] < g || ps[next - 1] <= last)
    && p == if KeepsLast(invRatio, f, last, ps[next]) then last else ps[next]
  }

  /** The last pair is kept rather than the next one read. */
  predicate KeepsLast(invRatio: nat, f: nat, last: nat, next: nat) {
    Keeps(Goal(invRatio, f), RoundsUp(invRatio, f), last, next)
  }

  predicate Keeps(goal: nat, roundUp: bool, last: nat, next: nat) {
    AbsDiff(last, goal) < AbsDiff(next, goal) || (roundUp && AbsDiff(last, goal) == AbsDiff(next, goal))
  }

  /** A candidate of the slower search: the table entry `at` of its pair and the
      entry `next` it was compared with. */
  datatype Candidate = Candidate(r: nat, f: nat, od: nat, at: nat, next: nat)

  /** The entry whose pair is tried first. */
  function StartOf(c: Candidate, ps: seq<nat>, invRatio: nat, last: nat, lastAt: nat): nat
    requires c.next < |ps|
  {
    if KeepsLast(invRatio, c.f, last, ps[c.next]) then lastAt else c.next
  }

  /** Candidate c is the one chosen for multiplier f after product `last` at
      entry `lastAt`. */
  ghost predicate ChosenAt(c: Candidate, f: nat, last: nat, lastAt: nat, t: seq<(nat, nat)>, ps: seq<nat>, invRatio: nat) {
    && |ps| == |t| && Holds(t, c.at, c.r, c.od) && c.f == f && ps[c.at] > 0
    && Chosen(ps, invRatio, f, last, ps[c.at], c.next)
    && var start := StartOf(c, ps, invRatio, last, lastAt);
    && (c.at == start || c.next <= c.at) && start < |t| && ps[start] == ps[c.at]
  }

  /** Within the limits the candidate is no better than bestError; outside them,
      so is every pair that was left to try for its product. Another pair than the
      first was taken only because the first is outside them. */
  ghost predicate JudgedAt(c: Candidate, last: nat, lastAt: nat, t: seq<(nat, nat)>, ps: seq<nat>,
                           freqIn: nat, invRatio: nat, bestError: int)
  {
    && c.at < |ps| && c.next < |ps| && ps[c.at] > 0
    && var start := StartOf(c, ps, invRatio, last, lastAt);
    && start < |t| && (c.at == start || Dead(freqIn, c.f, t[start]))
    && (if InSpec(freqIn, c.r, c.f) then bestError <= Error(invRatio, c.f, ps[c.at])
        else AllDead(t, ps, freqIn, c.f, ps[c.at], start, c.next, c.at))
  }

  /** One candidate was chosen per multiplier 1, 2, 3, ... */
  ghost predicate ChosenOk(tried: seq<Candidate>, t: seq<(nat, nat)>, ps: seq<nat>, invRatio: nat)
    decreases |tried|
  {
    tried != [] ==>
      var front, c := tried[..|tried| - 1], tried[|tried| - 1];
      ChosenOk(front, t, ps, invRatio) && ChosenAt(c, |tried|, LastProduct(front, ps), LastAt(front), t, ps, invRatio)
  }

  ghost predicate JudgedOk(tried: seq<Candidate>, t: seq<(nat, nat)>, ps: seq<nat>, freqIn: nat, invRatio: nat, bestError: int)
    decreases |tried|
  {
    tried != [] ==>
      var front, c := tried[..|tried| - 1], tried[|tried| - 1];
      && JudgedOk(front, t, ps, freqIn, invRatio, bestError)
      && JudgedAt(c, LastProduct(front, ps), LastAt(front), t, ps, freqIn, invRatio, bestError)
  }

  ghost predicate BestIsTried(best: Option<Params>, tried: seq<Candidate>) {
    best.Some? ==>
      best.value.clkf < |tried| && var c := tried[best.value.clkf]; Describes(best.value, c.r, c.f, c.od)
  }

  predicate Describes(p: Params, r: nat, f: nat, od: nat) {
    p.clkr + 1 == r && p.clkf + 1 == f && p.clkod + 1 == od
  }

  function LastAt(tried: seq<Candidate>): nat {
    if tried == [] then 0 else tried[|tried| - 1].at
  }

  function LastProduct(tried: seq<Candidate>, ps: seq<nat>): nat {
    if tried == [] || LastAt(tried) >= |ps| then 0 else ps[LastAt(tried)]
  }

  /** No table product is left for this goal after product p: the largest is
      below the goal or not above p. */
  ghost predicate UsedUp(ps: seq<nat>, goal: nat, p: nat) {
    |ps| > 0 && (ps[|ps| - 1] < goal || ps[|ps| - 1] <= p)
  }

  /** The search may end: it has an exact candidate, or the table has nothing
      for the next multiplier. */
  ghost predicate Finished(tried: seq<Candidate>, ps: seq<nat>, invRatio: nat, bestError: int) {
    bestError <= 0 || UsedUp(ps, Goal(invRatio, |tried| + 1), LastProduct(tried, ps))
  }

  /** The next table entry not below the goal, and its product. */
  method NextNear(t: seq<(nat, nat)>, ghost ps: seq<nat>, goal: u32, idx0: nat) returns (idx: nat, p: u32)
    requires TableOk(t, ps) && ProductsOf(t, ps) && idx0 <= |t|
    ensures idx0 <= idx <= |t|
    ensures idx0 < idx ==> ps[idx - 1] < goal
    ensures idx < |t| ==> ps[idx] == p >= goal
  {
    idx, p := idx0, 0;
    while idx < |t|
      invariant idx0 <= idx <= |t|
      invariant idx0 < idx ==> ps[idx - 1] < goal
    {
      assert ps[idx] == Area(t[idx]);
      p := Product(t[idx].0, t[idx].1);
      if p >= goal {
        break;
      }
      idx := idx + 1;
    }
  }

  method RoundedGoal(invRatio: u64, f: u32) returns (goal: u32, roundUp: bool)
    requires 1 <= f <= 257 && ONE <= invRatio <= 256 * ONE + 1
    ensures goal == Goal(invRatio, f) && roundUp == RoundsUp(invRatio, f) && goal >= f
  {
    var tmp := Times(f, invRatio);
    ScaledIs(invRatio, f);
    roundUp := tmp / HALF % 2 == 1;
    GoalSplit(tmp);
    GoalGrows(invRatio, f);
    MulMono(f, invRatio, 257, 256 * ONE + 1);
    var whole: u32 := tmp / ONE;
    goal := whole + (if roundUp then 1 else 0);
  }

  /** The next table product not below a goal is less than twice the goal. */
  lemma GapBound(t: seq<(nat, nat)>, ps: seq<nat>, goal: nat, idx: nat)
    requires TableOk(t, ps) && idx < |ps| && goal >= 1
    requires idx > 0 ==> ps[idx - 1] < goal
    ensures ps[idx] < 2 * goal
  {
    if idx > 0 { assert StepAt(ps, idx - 1); }
  }

  /** The pair used last, the read position of the table, and the best so far. */
  datatype Progress = Progress(r: u32, od: u32, p: u32, idx: nat, best: Option<Params>, bestError: i64)

  /** The pair is table entry `at`, and the entries read so far are not above its
      product or below the goal. */
  ghost predicate PairOk(s: Progress, at: nat, t: seq<(nat, nat)>, ps: seq<nat>, goal: nat)
    requires |ps| == |t|
  {
    && s.idx <= |t|
    && ((s.p == 0 && s.idx == 0) || (Holds(t, at, s.r, s.od) && s.p == ps[at] > 0))
    && (s.idx < |t| ==> s.p <= ps[s.idx])
    && (s.idx > 0 ==> ps[s.idx - 1] < goal || ps[s.idx - 1] <= s.p)
  }

  /** Moving on to entry `next`, the first not below the goal. */
  lemma AdvanceOk(s: Progress, t: seq<(nat, nat)>, ps: seq<nat>, goal: nat, next: nat)
    requires TableOk(t, ps) && next < |t| && s.r == t[next].0 && s.od == t[next].1 && s.p == ps[next] && s.idx == next + 1
    ensures PairOk(s, next, t, ps, goal) && s.p > 0
  {
    if next + 1 < |t| { Sorted(t, ps, next, next + 1); }
  }

  /** Keeping the last pair while reading up to entry `next`. */
  lemma KeepOk(s: Progress, at: nat, t: seq<(nat, nat)>, ps: seq<nat>, goal: nat, roundUp: bool, next: nat)
    requires TableOk(t, ps) && goal >= 1 && PairOk(s, at, t, ps, goal) && s.idx <= next < |t| && ps[next] >= goal
    requires (s.idx < next ==> ps[next - 1] < goal) && Keeps(goal, roundUp, s.p, ps[next])
    ensures PairOk(s.(idx := next), at, t, ps, goal) && s.p > 0
  {
    Sorted(t, ps, s.idx, next);
    if s.p == 0 { GapBound(t, ps, goal, next); }
  }

  /** Choose the pair for a goal: the last pair, or the next table pair not below
      the goal. Fails when the table is exhausted. */
  method PickFor(t: seq<(nat, nat)>, ghost ps: seq<nat>, goal: u32, roundUp: bool, s: Progress, ghost lastAt: nat)
      returns (ok: bool, keep: bool, s': Progress, next: nat)
    requires TableOk(t, ps) && ProductsOf(t, ps) && goal >= 1 && PairOk(s, lastAt, t, ps, goal)
    ensures !ok ==> UsedUp(ps, goal, s.p)
    ensures ok ==> next < |t| && ps[next] >= goal && (next > 0 ==> ps[next - 1] < goal || ps[next - 1] <= s.p)
    ensures ok ==> (keep <==> Keeps(goal, roundUp, s.p, ps[next])) && s'.p > 0
    ensures ok ==> PairOk(s', if keep then lastAt else next, t, ps, goal)
    ensures ok ==> s'.p == (if keep then s.p else ps[next]) && s'.idx == if keep then next else next + 1
    ensures s'.best == s.best && s'.bestError == s.bestError
  {
    var p;
    next, p := NextNear(t, ps, goal, s.idx);
    s' := s;
    if next == |t| {
      return false, false, s', next;
    }
    var err: u32, lastErr: u32 := AbsDiff(p, goal), AbsDiff(s.p, goal);
    keep := lastErr < err || (roundUp && lastErr == err);
    if keep {
      KeepOk(s, lastAt, t, ps, goal, roundUp, next);
      s' := s.(idx := next);
    } else {
      s' := Progress(t[next].0, t[next].1, p, next + 1, s.best, s.bestError);
      AdvanceOk(s', t, ps, goal, next);
    }
    ok := true;
  }

  /** The choice for multiplier f. */
  method PickPair(t: seq<(nat, nat)>, ghost ps: seq<nat>, invRatio: u64, f: u32, s: Progress, ghost lastAt: nat)
      returns (ok: bool, s': Progress, ghost start: nat, ghost next: nat)
    requires TableOk(t, ps) && ProductsOf(t, ps) && 1 <= f <= 257 && ONE <= invRatio <= 256 * ONE + 1
    requires PairOk(s, lastAt, t, ps, Goal(invRatio, f))
    ensures !ok ==> UsedUp(ps, Goal(invRatio, f), s.p)
    ensures ok ==> f <= 256 && s'.p > 0 && PairOk(s', start, t, ps, Goal(invRatio, f)) && Chosen(ps, invRatio, f, s.p, s'.p, next)
    ensures ok ==> start == if KeepsLast(invRatio, f, s.p, ps[next]) then lastAt else next
    ensures ok ==> next <= s'.idx <= next + 1 && (s'.idx == next + 1 ==> start == next)
    ensures s'.best == s.best && s'.bestError == s.bestError
  {
    var goal, roundUp := RoundedGoal(invRatio, f);
    var keep;
    ok, keep, s', next := PickFor(t, ps, goal, roundUp, s, lastAt);
    start := if keep then lastAt else next;
  }

  /** Keep the candidate if it is within the limits and better than the best so far. */
  method Evaluated(s: Progress, verdict: Verdict, freqIn: u32, invRatio: u64, r: u32, f: u32, od: u32, idx: nat, ghost p: nat)
      returns (s': Progress, error: i64)
    requires BestOk(s.best, s.bestError, freqIn, invRatio) && s.p == p == Area((r, od))
    requires 1 <= r <= 16 && 1 <= od <= 16 && 1 <= f <= 256 && invRatio <= 256 * ONE + 1
    requires verdict.Evaluate? <==> InSpec(freqIn, r, f)
    ensures s' == Progress(r, od, s.p, idx, s'.best, s'.bestError) && BestOk(s'.best, s'.bestError, freqIn, invRatio)
    ensures s'.bestError <= s.bestError && (error == 0 ==> s'.bestError <= 0)
    ensures verdict.Evaluate? ==> p > 0 && s'.bestError <= Error(invRatio, f, p)
    ensures s'.best == s.best || (s'.bestError < s.bestError && s'.best.Some? && Describes(s'.best.value, r, f, od))
  {
    var best, bestError := s.best, s.bestError;
    error := 1;
    if verdict.Evaluate? {
      InSpecBoundsF(freqIn, r, f);
      best, bestError, error := Consider(s.best, s.bestError, freqIn, invRatio, r, f, od);
    }
    s' := Progress(r, od, s.p, idx, best, bestError);
  }

  /** Enforce the limits on the pair chosen for multiplier f, and keep it if it
      is better than the best so far. */
  method JudgePair(t: seq<(nat, nat)>, ghost ps: seq<nat>, freqIn: u32, invRatio: u64, f: u32, s: Progress,
                   ghost start: nat) returns (stop: bool, s': Progress, ghost at: nat)
    requires TableOk(t, ps) && ProductsOf(t, ps) && ONE <= invRatio <= 256 * ONE + 1 && 1 <= f <= 256
    requires PairOk(s, start, t, ps, Goal(invRatio, f)) && s.p > 0 && BestOk(s.best, s.bestError, freqIn, invRatio)
    ensures PairOk(s', at, t, ps, Goal(invRatio, f)) && s'.p == s.p && BestOk(s'.best, s'.bestError, freqIn, invRatio)
    ensures stop ==> s'.bestError <= 0 || UsedUp(ps, Goal(invRatio, f), s'.p)
    ensures s'.bestError <= s.bestError && Holds(t, at, s'.r, s'.od)
    ensures start < |t| && (at == start || (s.idx <= at && Dead(freqIn, f, t[start])))
    ensures if InSpec(freqIn, s'.r, f) then s'.bestError <= Error(invRatio, f, s.p)
            else AllDead(t, ps, freqIn, f, s.p, start, s.idx, at)
    ensures s'.best == s.best || (s'.bestError < s.bestError && s'.best.Some? && Describes(s'.best.value, s'.r, f, s'.od))
  {
    var verdict, r, od, idx;
    verdict, r, od, idx, at := Enforce(t, ps, freqIn, f, s.r, s.od, s.idx, start);
    HeldArea(t, ps, at, r, od);
    var error;
    s', error := Evaluated(s, verdict, freqIn, invRatio, r, f, od, idx, s.p);
    stop := verdict.Exhausted? || error == 0;
  }

  /** The outcome for the chosen pair, as a candidate. */
  lemma CandidateFrom(t: seq<(nat, nat)>, ps: seq<nat>, freqIn: nat, invRatio: nat, c: Candidate, f: nat, last: nat, lastAt: nat,
                      from: nat, bestError: int)
    requires |ps| == |t| && Holds(t, c.at, c.r, c.od) && c.f == f && ps[c.at] > 0
    requires Chosen(ps, invRatio, f, last, ps[c.at], c.next)
    requires var start := StartOf(c, ps, invRatio, last, lastAt);
      && start < |t| && ps[start] == ps[c.at] && (c.at == start || (from <= c.at && Dead(freqIn, f, t[start])))
      && c.next <= from <= c.next + 1 && (from == c.next + 1 ==> start == c.next)
      && (if InSpec(freqIn, c.r, f) then bestError <= Error(invRatio, f, ps[c.at])
          else AllDead(t, ps, freqIn, f, ps[c.at], start, from, c.at))
    ensures ChosenAt(c, f, last, lastAt, t, ps, invRatio) && JudgedAt(c, last, lastAt, t, ps, freqIn, invRatio, bestError)
  {
  }

  /** One round of the slower search, for multiplier f. */
  method TryMultiplier(t: seq<(nat, nat)>, ghost ps: seq<nat>, freqIn: u32, invRatio: u64, f: u32, s: Progress, ghost lastAt: nat)
      returns (stop: bool, s': Progress, ghost c: Option<Candidate>)
    requires TableOk(t, ps) && ProductsOf(t, ps) && ONE <= invRatio <= 256 * ONE + 1 && 1 <= f <= 257
    requires PairOk(s, lastAt, t, ps, Goal(invRatio, f)) && BestOk(s.best, s.bestError, freqIn, invRatio)
    ensures BestOk(s'.best, s'.bestError, freqIn, invRatio)
    ensures c.None? ==> stop && s' == s
    ensures stop ==> s'.bestError <= 0 || UsedUp(ps, Goal(invRatio, f), s'.p)
    ensures c.Some? ==> f <= 256 && s'.bestError <= s.bestError && PairOk(s', c.value.at, t, ps, Goal(invRatio, f)) && s'.p > 0
    ensures c.Some? ==> ChosenAt(c.value, f, s.p, lastAt, t, ps, invRatio)
    ensures c.Some? ==> JudgedAt(c.value, s.p, lastAt, t, ps, freqIn, invRatio, s'.bestError)
    ensures c.Some? ==> s'.best == s.best || (s'.bestError < s.bestError && s'.best.Some? && Describes(s'.best.value, c.value.r, c.value.f, c.value.od))
  {
    var ok, picked;
    ghost var start, next, at;
    ok, picked, start, next := PickPair(t, ps, invRatio, f, s, lastAt);
    if !ok {
      return true, s, None;
    }
    stop, s', at := JudgePair(t, ps, freqIn, invRatio, f, picked, start);
    c := Some(Candidate(s'.r, f, s'.od, at, next));
    CandidateFrom(t, ps, freqIn, invRatio, c.value, f, s.p, lastAt, picked.idx, s'.bestError);
  }

  lemma PairOkGrows(s: Progress, at: nat, t: seq<(nat, nat)>, ps: seq<nat>, goal: nat, goal': nat)
    requires |ps| == |t| && PairOk(s, at, t, ps, goal) && goal <= goal'
    ensures PairOk(s, at, t, ps, goal')
  {
  }

  /** Of equally good candidates the one tried first was kept. */
  ghost predicate FirstBest(best: Option<Params>, e: int, tried: seq<Candidate>, ps: seq<nat>, freqIn: nat, invRatio: nat) {
    best.Some? ==> forall k: nat :: k < best.value.clkf && k < |tried| ==> Worse(tried[k], k + 1, e, ps, freqIn, invRatio)
  }

  ghost predicate Worse(c: Candidate, f: nat, e: int, ps: seq<nat>, freqIn: nat, invRatio: nat) {
    c.at < |ps| && ps[c.at] > 0 && InSpec(freqIn, c.r, f) ==> e < Error(invRatio, f, ps[c.at])
  }

  lemma FirstBestSnoc(best: Option<Params>, e: i64, best': Option<Params>, e': i64, tried: seq<Candidate>, c: Candidate,
                      t: seq<(nat, nat)>, ps: seq<nat>, freqIn: nat, invRatio: nat)
    requires FirstBest(best, e, tried, ps, freqIn, invRatio) && BestIsTried(best, tried)
    requires BestOk(best, e, freqIn, invRatio) && BestOk(best', e', freqIn, invRatio)
    requires ChosenOk(tried, t, ps, invRatio) && JudgedOk(tried, t, ps, freqIn, invRatio, e)
    requires best' == best || (e' < e && best'.Some? && best'.value.clkf == |tried|)
    ensures FirstBest(best', e', tried + [c], ps, freqIn, invRatio)
  {
    if best'.Some? {
      forall k: nat | k < best'.value.clkf && k < |tried| + 1
        ensures Worse((tried + [c])[k], k + 1, e', ps, freqIn, invRatio)
      {
        if best' == best {
          assert Worse(tried[k], k + 1, e, ps, freqIn, invRatio);
        } else {
          TriedWorse(tried, t, ps, freqIn, invRatio, e, e', k);
        }
      }
    }
  }

  lemma TriedWorse(tried: seq<Candidate>, t: seq<(nat, nat)>, ps: seq<nat>, freqIn: nat, invRatio: nat, e: int, e': int, k: nat)
    requires ChosenOk(tried, t, ps, invRatio) && JudgedOk(tried, t, ps, freqIn, invRatio, e) && k < |tried| && e' < e
    ensures Worse(tried[k], k + 1, e', ps, freqIn, invRatio)
  {
    ChosenPrefix(tried, t, ps, invRatio, k);
    JudgedPrefix(tried, t, ps, freqIn, invRatio, e, k);
  }

  /** The search so far: the pair tried last, the best kept, and every candidate. */
  ghost predicate SoFar(s: Progress, tried: seq<Candidate>, t: seq<(nat, nat)>, ps: seq<nat>, freqIn: nat, invRatio: nat) {
    && FirstBest(s.best, s.bestError, tried, ps, freqIn, invRatio)
    && s.p == LastProduct(tried, ps) && BestOk(s.best, s.bestError, freqIn, invRatio)
    && ChosenOk(tried, t, ps, invRatio) && JudgedOk(tried, t, ps, freqIn, invRatio, s.bestError) && BestIsTried(s.best, tried)
  }

  lemma SoFarSnoc(s: Progress, s': Progress, tried: seq<Candidate>, c: Candidate, t: seq<(nat, nat)>, ps: seq<nat>, freqIn: nat, invRatio: nat)
    requires SoFar(s, tried, t, ps, freqIn, invRatio) && s'.bestError <= s.bestError
    requires BestOk(s'.best, s'.bestError, freqIn, invRatio) && c.at < |ps| && s'.p == ps[c.at]
    requires ChosenAt(c, |tried| + 1, s.p, LastAt(tried), t, ps, invRatio)
    requires JudgedAt(c, s.p, LastAt(tried), t, ps, freqIn, invRatio, s'.bestError)
    requires s'.best == s.best || (s'.bestError < s.bestError && s'.best.Some? && Describes(s'.best.value, c.r, c.f, c.od))
    ensures SoFar(s', tried + [c], t, ps, freqIn, invRatio)
  {
    assert (tried + [c])[..|tried|] == tried;
    JudgedMono(tried, t, ps, freqIn, invRatio, s.bestError, s'.bestError);
    BestSnoc(s.best, s'.best, tried, c);
    FirstBestSnoc(s.best, s.bestError, s'.best, s'.bestError, tried, c, t, ps, freqIn, invRatio);
  }

  /** One turn of the loop. */
  method Round(t: seq<(nat, nat)>, ghost ps: seq<nat>, freqIn: u32, invRatio: u64, f: u32, s: Progress, ghost tried: seq<Candidate>)
      returns (stop: bool, s': Progress, ghost tried': seq<Candidate>)
    requires TableOk(t, ps) && ProductsOf(t, ps) && ONE <= invRatio <= 256 * ONE + 1 && f == |tried| + 1 <= 257
    requires PairOk(s, LastAt(tried), t, ps, Goal(invRatio, |tried|)) && SoFar(s, tried, t, ps, freqIn, invRatio)
    ensures SoFar(s', tried', t, ps, freqIn, invRatio)
    ensures !stop ==> f == |tried'| <= 256 && PairOk(s', LastAt(tried'), t, ps, Goal(invRatio, f))
    ensures stop ==> |tried'| <= f <= |tried'| + 1 && (s'.bestError <= 0 || UsedUp(ps, Goal(invRatio, f), s'.p))
  {
    GoalGrows(invRatio, |tried|);
    PairOkGrows(s, LastAt(tried), t, ps, Goal(invRatio, |tried|), Goal(invRatio, f));
    ghost var c;
    stop, s', c := TryMultiplier(t, ps, freqIn, invRatio, f, s, LastAt(tried));
    tried' := tried;
    if c.Some? {
      SoFarSnoc(s, s', tried, c.value, t, ps, freqIn, invRatio);
      tried' := tried + [c.value];
    }
  }

  /** The search when the output is not faster: multipliers 1, 2, 3, ... until
      the goal leaves the table or a candidate is exact. */
  method SearchDown(t: seq<(nat, nat)>, ghost ps: seq<nat>, freqIn: u32, invRatio: u64)
      returns (best: Option<Params>, bestError: i64, ghost tried: seq<Candidate>)
    requires TableOk(t, ps) && ProductsOf(t, ps) && ONE <= invRatio <= 256 * ONE
    ensures BestOk(best, bestError, freqIn, invRatio)
    ensures ChosenOk(tried, t, ps, invRatio) && JudgedOk(tried, t, ps, freqIn, invRatio, bestError)
    ensures BestIsTried(best, tried) && FirstBest(best, bestError, tried, ps, freqIn, invRatio)
    ensures Finished(tried, ps, invRatio, bestError)
  {
    tried := [];
    var f: u32 := 0;
    var s := Progress(0, 0, 0, 0, None, I64_MAX);
    var stop := false;
    while !stop
      invariant stop || f == |tried| <= 256
      invariant !stop ==> PairOk(s, LastAt(tried), t, ps, Goal(invRatio, f))
      invariant SoFar(s, tried, t, ps, freqIn, invRatio)
      invariant stop ==> |tried| <= f <= |tried| + 1 && (s.bestError <= 0 || UsedUp(ps, Goal(invRatio, f), s.p))
      decreases !stop, 257 - f
    {
      f := f + 1;
      stop, s, tried := Round(t, ps, freqIn, invRatio, f, s, tried);
    }
    FinishedAt(tried, ps, invRatio, f, s.bestError);
    best, bestError := s.best, s.bestError;
  }

  lemma FinishedAt(tried: seq<Candidate>, ps: seq<nat>, invRatio: nat, f: nat, e: int)
    requires invRatio >= ONE && |tried| <= f <= |tried| + 1
    requires e <= 0 || UsedUp(ps, Goal(invRatio, f), LastProduct(tried, ps))
    ensures Finished(tried, ps, invRatio, e)
  {
    GoalGrows(invRatio, |tried|);
  }

  lemma BestSnoc(best: Option<Params>, best': Option<Params>, tried: seq<Candidate>, c: Candidate)
    requires BestIsTried(best, tried) && c.f == |tried| + 1
    requires best' == best || (best'.Some? && Describes(best'.value, c.r, c.f, c.od))
    ensures BestIsTried(best', tried + [c])
  {
  }

  /** A better best error keeps all candidates. */
  lemma {:induction false} JudgedMono(tried: seq<Candidate>, t: seq<(nat, nat)>, ps: seq<nat>, freqIn: nat, invRatio: nat, e: int, e': int)
    requires JudgedOk(tried, t, ps, freqIn, invRatio, e) && e' <= e
    ensures JudgedOk(tried, t, ps, freqIn, invRatio, e')
    decreases |tried|
  {
    if tried != [] { JudgedMono(tried[..|tried| - 1], t, ps, freqIn, invRatio, e, e'); }
  }

  /** Every candidate of the search was chosen after those before it. */
  lemma {:induction false} ChosenPrefix(tried: seq<Candidate>, t: seq<(nat, nat)>, ps: seq<nat>, invRatio: nat, k: nat)
    requires ChosenOk(tried, t, ps, invRatio) && k < |tried|
    ensures ChosenOk(tried[..k], t, ps, invRatio)
    ensures ChosenAt(tried[k], k + 1, LastProduct(tried[..k], ps), LastAt(tried[..k]), t, ps, invRatio)
    decreases |tried|
  {
    var front := tried[..|tried| - 1];
    if k < |front| {
      ChosenPrefix(front, t, ps, invRatio, k);
      assert front[..k] == tried[..k];
    }
  }

  lemma {:induction false} JudgedPrefix(tried: seq<Candidate>, t: seq<(nat, nat)>, ps: seq<nat>, freqIn: nat, invRatio: nat, e: int, k: nat)
    requires JudgedOk(tried, t, ps, freqIn, invRatio, e) && k < |tried|
    ensures JudgedAt(tried[k], LastProduct(tried[..k], ps), LastAt(tried[..k]), t, ps, freqIn, invRatio, e)
    decreases |tried|
  {
    var front := tried[..|tried| - 1];
    if k < |front| {
      JudgedPrefix(front, t, ps, freqIn, invRatio, e, k);
      assert front[..k] == tried[..k];
    }
  }

  // ---------------------------------------------------------------------
  // The whole computation
  // ---------------------------------------------------------------------

  /** The frequencies the search accepts. */
  predicate Accepts(freqIn: nat, freqOut: nat) {
    && OUT_MIN <= freqOut <= OUT_MAX && IN_MIN <= freqIn <= IN_MAX
    && (freqOut > freqIn ==> DivRoundClosest(freqOut * ONE, freqIn) <= 64 * ONE)
    && (freqOut <= freqIn ==> DivRoundClosest(freqIn * ONE, freqOut) <= 256 * ONE)
  }

  method FixedRatio(a: u32, b: u32) returns (ratio: u64)
    requires b > 0
    ensures ratio == DivRoundClosest(a * ONE, b)
    ensures a >= b ==> ratio >= ONE
    ensures a <= b ==> ratio <= ONE + 1
  {
    var n: u64 := a * ONE;
    DivRoundSmall(n, b);
    if a >= b {
      MulMono(b, ONE, a, ONE);
      DivAtLeast(n + b / 2, b, ONE);
    }
    if a <= b {
      MulMono(a, ONE, b, ONE);
      assert b * (ONE + 2) == b * ONE + 2 * b;
      DivAtMost(n + b / 2, b, ONE + 1);
    }
    ratio := DivRound(n, b);
  }

  /** When the search upward finds nothing, no pair of the table, either way
      round, is within the limits. */
  lemma NothingWithinLimits(t: seq<(nat, nat)>, ps: seq<nat>, freqIn: nat, ratio: nat, invRatio: nat, i: nat, f: nat)
    requires TableOk(t, ps) && i < |t| && ONE <= ratio <= 64 * ONE && invRatio <= 256 * ONE + 1
    requires NoneBetter(t, ps, freqIn, ratio, invRatio, I64_MAX) && Rounds(ratio, ps[i], f)
    ensures Dead(freqIn, f, t[i])
  {
    MultiplierRounds(ratio, ps[i], f);
    MultiplierRange(ratio, ps[i]);
    ErrorFits(invRatio, f, ps[i]);
  }

  /** `compute_params`. Whatever is returned keeps the divided clock and the VCO
      within their limits. For a faster output no factor pair of the table,
      either way round, has a smaller error; for a slower one no candidate that
      was tried has, and the search went on until it had an exact candidate or
      the table was used up. */
  method ComputeParams(freqIn: u32, freqOut: u32)
      returns (best: Option<Params>, ghost bestError: i64, ghost tried: seq<Candidate>)
    ensures !Accepts(freqIn, freqOut) ==> best.None?
    ensures Accepts(freqIn, freqOut) ==>
      var ratio := DivRoundClosest(freqOut * ONE, freqIn);
      var invRatio := DivRoundClosest(freqIn * ONE, freqOut);
      var t, ps := Table(Pair), Products(PairProduct);
      && TableOk(t, ps)
      && BestOk(best, bestError, freqIn, invRatio)
      && (freqOut > freqIn ==> NoneBetter(t, ps, freqIn, ratio, invRatio, bestError) && MultiplierFits(best, ratio)
                               && EarlierWorse(best, bestError, t, ps, freqIn, ratio, invRatio))
      && (freqOut <= freqIn ==> ChosenOk(tried, t, ps, invRatio) && JudgedOk(tried, t, ps, freqIn, invRatio, bestError)
                                && BestIsTried(best, tried) && FirstBest(best, bestError, tried, ps, freqIn, invRatio)
                                && Finished(tried, ps, invRatio, bestError))
  {
    best, bestError, tried := None, I64_MAX, [];
    if freqOut > OUT_MAX || freqOut < OUT_MIN {
      return;
    }
    if freqIn > IN_MAX || freqIn < IN_MIN {
      return;
    }
    var ratio := FixedRatio(freqOut, freqIn);
    var invRatio := FixedRatio(freqIn, freqOut);
    if freqOut > freqIn && ratio > 64 * ONE {
      return;
    } else if freqOut <= freqIn && invRatio > 256 * ONE {
      return;
    }
    FactorTableOk();
    var t := Table(Pair);
    ghost var ps := Products(PairProduct);
    var error;
    if freqOut > freqIn {
      best, error := SearchUp(t, ps, freqIn, ratio, invRatio);
    } else {
      best, error, tried := SearchDown(t, ps, freqIn, invRatio);
    }
    bestError := error;
  }
}
