/** Machine-word bit operations written out over unbounded naturals, and the
    laws that connect masks and shifts with division and remainder. */
module Bits {

  function Pow2(k: nat): (p: nat)
    ensures p >= 1
  {
    if k == 0 then 1 else 2 * Pow2(k - 1)
  }

  /** Bitwise conjunction. */
  function And(x: nat, y: nat): nat {
    if x == 0 || y == 0 then 0 else 2 * And(x / 2, y / 2) + (if x % 2 == 1 && y % 2 == 1 then 1 else 0)
  }

  /** Bitwise disjunction. */
  function Or(x: nat, y: nat): nat {
    if x == 0 then y
    else if y == 0 then x
    else 2 * Or(x / 2, y / 2) + (if x % 2 == 1 || y % 2 == 1 then 1 else 0)
  }

  /** Bit k of a number. */
  predicate Bit(x: nat, k: nat) {
    if k == 0 then x % 2 == 1 else Bit(x / 2, k - 1)
  }

  lemma {:induction false} ZeroBit(k: nat)
    ensures !Bit(0, k)
  {
    if k > 0 { ZeroBit(k - 1); }
  }

  /** Bit by bit, Or is the disjunction. */
  lemma {:induction false} OrBit(x: nat, y: nat, k: nat)
    ensures Bit(Or(x, y), k) <==> Bit(x, k) || Bit(y, k)
    decreases k
  {
    ZeroBit(k);
    if x > 0 && y > 0 {
      var o := Or(x, y);
      assert o / 2 == Or(x / 2, y / 2) && (o % 2 == 1 <==> x % 2 == 1 || y % 2 == 1);
      if k > 0 { OrBit(x / 2, y / 2, k - 1); }
    }
  }

  /** Bit by bit, And is the conjunction. */
  lemma {:induction false} AndBit(x: nat, y: nat, k: nat)
    ensures Bit(And(x, y), k) <==> Bit(x, k) && Bit(y, k)
    decreases k
  {
    ZeroBit(k);
    if x > 0 && y > 0 {
      var a := And(x, y);
      assert a / 2 == And(x / 2, y / 2) && (a % 2 == 1 <==> x % 2 == 1 && y % 2 == 1);
      if k > 0 { AndBit(x / 2, y / 2, k - 1); }
    }
  }

  /** Setting one bit adds its value unless it is set. */
  lemma {:induction false} OrPow2(x: nat, k: nat)
    ensures Or(x, Pow2(k)) == if Bit(x, k) then x else x + Pow2(k)
    decreases k
  {
    ZeroBit(k);
    if k > 0 && x > 0 {
      OrPow2(x / 2, k - 1);
      assert Pow2(k) / 2 == Pow2(k - 1) && Pow2(k) % 2 == 0;
    } else if x > 0 {
      OrZero(x / 2);
    }
  }

  lemma OrZero(x: nat)
    ensures Or(x, 0) == x && Or(0, x) == x
  {
  }

  lemma {:induction false} Pow2Bit(k: nat, j: nat)
    ensures Bit(Pow2(k), j) <==> j == k
    decreases k
  {
    if k == 0 {
      if j > 0 { ZeroBit(j - 1); }
    } else if j > 0 {
      Pow2Bit(k - 1, j - 1);
    }
  }

  /** Quotient and remainder are determined by the division equation. */
  lemma DivModUnique(x: int, d: int, q: int, r: int)
    requires x == d * q + r && 0 <= r < d
    ensures x / d == q && x % d == r
  {
    var e := x / d - q;
    assert x == d * (x / d) + x % d;
    assert d * e == r - x % d by { assert d * e == d * (x / d) - d * q; }
    assert e >= 1 ==> d * e >= d;
    assert e <= -1 ==> d * e <= -d;
  }

  /** Dividing twice is dividing by the product. */
  lemma DivDiv(x: nat, a: nat, b: nat)
    requires a > 0 && b > 0
    ensures a * b > 0 && x / a / b == x / (a * b)
  {
    var q := x / a;
    DivDivIs(x, a, b, q, x % a, q / b, q % b);
  }

  lemma DivDivIs(x: nat, a: nat, b: nat, q: nat, r: nat, p: nat, s: nat)
    requires x == a * q + r && r < a && q == b * p + s && s < b
    ensures a * b > 0 && x / (a * b) == p
  {
    MulAtMost(a, s, b - 1);
    Regroup(a, b, p, s);
    var ab, rest := a * b, a * s + r;
    assert x == ab * p + rest;
    DivModUnique(x, ab, p, rest);
  }

  lemma MulAtMost(a: nat, s: nat, t: nat)
    requires s <= t
    ensures a * s <= a * t
  {
  }

  lemma Regroup(a: nat, b: nat, p: nat, s: nat)
    requires b > 0
    ensures a * (b * p + s) == (a * b) * p + a * s && a * (b - 1) == a * b - a
  {
  }

  lemma ModDouble(x: nat, p: nat)
    requires p > 0
    ensures x % (2 * p) == 2 * (x / 2 % p) + x % 2
  {
    var q, s := x / 2 / p, x / 2 % p;
    assert x / 2 == p * q + s;
    assert 2 * (p * q) == 2 * p * q;
    DivModUnique(x, 2 * p, q, 2 * s + x % 2);
  }

  lemma AndOdd(x: nat, p: nat)
    requires x > 0 && p > 0
    ensures And(x, 2 * p - 1) == 2 * And(x / 2, p - 1) + x % 2
  {
    var m := 2 * p - 1;
    assert m / 2 == p - 1 && m % 2 == 1;
  }

  /** Masking with 2^k - 1 is the remainder modulo 2^k. */
  lemma {:induction false} AndMask(x: nat, k: nat)
    ensures And(x, Pow2(k) - 1) == x % Pow2(k)
    decreases k
  {
    if k == 0 {
      assert Pow2(0) - 1 == 0;
    } else if x == 0 {
    } else {
      var p := Pow2(k - 1);
      AndOdd(x, p);
      AndMask(x / 2, k - 1);
      ModDouble(x, p);
    }
  }

  /** A value shifted past k bits and a k-bit value do not overlap. */
  lemma {:induction false} OrShifted(x: nat, y: nat, k: nat)
    requires y < Pow2(k)
    ensures Or(x * Pow2(k), y) == x * Pow2(k) + y
    decreases k
  {
    if k == 0 || x == 0 || y == 0 {
    } else {
      var p := Pow2(k - 1);
      assert x * Pow2(k) == 2 * (x * p);
      OrEven(x * p, y);
      OrShifted(x, y / 2, k - 1);
    }
  }

  lemma OrEven(h: nat, y: nat)
    requires h > 0 && y > 0
    ensures Or(2 * h, y) == 2 * Or(h, y / 2) + y % 2
  {
    assert 2 * h / 2 == h;
  }

  /** Dividing twice modulo a divisor of the modulus. */
  lemma ModOfMod(x: nat, a: nat, b: nat)
    requires a > 0 && b > 0
    ensures a * b > 0
    ensures x % (a * b) % a == x % a
  {
    assert a * b > 0;
    var m := a * b;
    var r := x % m;
    var q := x / m;
    assert x == a * (b * q + r / a) + r % a by {
      assert x == m * q + r;
      assert m * q == a * (b * q);
      assert r == a * (r / a) + r % a;
      assert a * (b * q + r / a) == a * (b * q) + a * (r / a);
    }
    DivModUnique(x, a, b * q + r / a, r % a);
  }

  /** Powers of two divide larger powers of two. */
  lemma {:induction false} Pow2Split(j: nat, k: nat)
    ensures Pow2(j + k) == Pow2(j) * Pow2(k)
    decreases k
  {
    if k == 0 {
    } else {
      Pow2Split(j, k - 1);
    }
  }

  lemma MulAtLeast(a: nat, b: nat)
    requires b >= 1
    ensures a * b >= a
  {
  }

  /** Two counters closer together than the modulus have different remainders. */
  lemma ModDistinct(i: nat, j: nat, m: nat)
    requires m > 0 && i < j < i + m
    ensures i % m != j % m
  {
    var d := j / m - i / m;
    assert j - i == m * d + (j % m - i % m) by {
      assert i == m * (i / m) + i % m && j == m * (j / m) + j % m;
      assert m * d == m * (j / m) - m * (i / m);
    }
    assert d >= 1 ==> m * d >= m;
    assert d <= 0 ==> m * d <= 0;
  }
}
