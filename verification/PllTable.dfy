/** The table of (r, od) factor pairs of the PLL search. */
module PllTable {
  import opened Bits

  /** `x & 0xF`. */
  function Nibble(x: nat): nat {
    x % 16
  }

  /** `hi << 4 | lo`. */
  function Joined(hi: nat, lo: nat): nat {
    16 * hi + lo
  }

  lemma NibbleIsMask(x: nat)
    ensures Nibble(x) == And(x, 0xF)
  {
    assert Pow2(4) == 16;
    AndMask(x, 4);
  }

  lemma JoinedIsOr(hi: nat, lo: nat)
    requires lo < 16
    ensures Joined(hi, lo) == Or(hi * 16, lo)
  {
    assert Pow2(4) == 16;
    OrShifted(hi, lo, 4);
  }

  /** Two four-bit factors in one byte. */
  function Pack(r: nat, od: nat): nat
    requires r >= 1 && od >= 1
  {
    Joined(Nibble(r - 1), Nibble(od - 1))
  }

  function UnpackR(packed: nat): nat {
    Nibble(packed / 16) + 1
  }

  function UnpackOd(packed: nat): nat {
    Nibble(packed) + 1
  }

  lemma UnpackValue(packed: nat, hi: nat, lo: nat)
    requires packed == 16 * hi + lo && hi < 16 && lo < 16
    ensures UnpackR(packed) == hi + 1 && UnpackOd(packed) == lo + 1
  {
    DivModUnique(packed, 16, hi, lo);
    DivModUnique(hi, 16, 0, hi);
  }

  lemma PackValue(r: nat, od: nat)
    requires 1 <= r <= 16 && 1 <= od <= 16
    ensures Pack(r, od) == 16 * (r - 1) + (od - 1)
  {
    DivModUnique(r - 1, 16, 0, r - 1);
    DivModUnique(od - 1, 16, 0, od - 1);
  }

  /** Unpacking recovers both factors of every pair the table can hold. */
  lemma PackRoundTrip(r: nat, od: nat)
    requires 1 <= r <= 16 && 1 <= od <= 16
    ensures UnpackR(Pack(r, od)) == r && UnpackOd(Pack(r, od)) == od
    ensures Pack(r, od) < 256
  {
    PackValue(r, od);
    var packed := Pack(r, od);
    UnpackValue(packed, r - 1, od - 1);
  }

  const FACTORS: nat := 101

  /** The i-th factor pair, in ascending order of the product. */
  function Pair(i: nat): (nat, nat) {
    match i
    case 0 => (1, 1) case 1 => (1, 2) case 2 => (1, 3) case 3 => (1, 4) case 4 => (1, 5) case 5 => (1, 6)
    case 6 => (1, 7) case 7 => (1, 8) case 8 => (1, 9) case 9 => (3, 3) case 10 => (1, 10) case 11 => (1, 11)
    case 12 => (1, 12) case 13 => (3, 4) case 14 => (1, 13) case 15 => (1, 14) case 16 => (1, 15) case 17 => (3, 5)
    case 18 => (1, 16) case 19 => (4, 4) case 20 => (2, 9) case 21 => (2, 10) case 22 => (3, 7) case 23 => (2, 11)
    case 24 => (2, 12) case 25 => (5, 5) case 26 => (2, 13) case 27 => (3, 9) case 28 => (2, 14) case 29 => (2, 15)
    case 30 => (2, 16) case 31 => (3, 11) case 32 => (5, 7) case 33 => (3, 12) case 34 => (3, 13) case 35 => (4, 10)
    case 36 => (3, 14) case 37 => (4, 11) case 38 => (3, 15) case 39 => (3, 16) case 40 => (7, 7) case 41 => (5, 10)
    case 42 => (4, 13) case 43 => (6, 9) case 44 => (5, 11) case 45 => (4, 14) case 46 => (4, 15) case 47 => (7, 9)
    case 48 => (4, 16) case 49 => (5, 13) case 50 => (6, 11) case 51 => (5, 14) case 52 => (6, 12) case 53 => (5, 15)
    case 54 => (7, 11) case 55 => (6, 13) case 56 => (5, 16) case 57 => (9, 9) case 58 => (6, 14) case 59 => (8, 11)
    case 60 => (6, 15) case 61 => (7, 13) case 62 => (6, 16) case 63 => (7, 14) case 64 => (9, 11) case 65 => (10, 10)
    case 66 => (8, 13) case 67 => (7, 15) case 68 => (9, 12) case 69 => (10, 11) case 70 => (7, 16) case 71 => (9, 13)
    case 72 => (8, 15) case 73 => (11, 11) case 74 => (9, 14) case 75 => (8, 16) case 76 => (10, 13) case 77 => (11, 12)
    case 78 => (9, 15) case 79 => (10, 14) case 80 => (11, 13) case 81 => (9, 16) case 82 => (10, 15) case 83 => (11, 14)
    case 84 => (12, 13) case 85 => (10, 16) case 86 => (11, 15) case 87 => (12, 14) case 88 => (13, 13) case 89 => (11, 16)
    case 90 => (12, 15) case 91 => (13, 14) case 92 => (12, 16) case 93 => (13, 15) case 94 => (14, 14) case 95 => (13, 16)
    case 96 => (14, 15) case 97 => (14, 16) case 98 => (15, 15) case 99 => (15, 16)
    case _ => (16, 16)
  }

  function PairProduct(i: nat): nat {
    Pair(i).0 * Pair(i).1
  }

  lemma PairRange(i: nat)
    requires i < FACTORS
    ensures 1 <= Pair(i).0 <= 16 && 1 <= Pair(i).1 <= 16
  {
  }

  /** Products never decrease and at most double from one entry to the next;
      from entry 20 on they increase, and by little. */
  predicate StepOk(i: nat) {
    && PairProduct(i) <= PairProduct(i + 1) <= 2 * PairProduct(i) + 1
    && (i >= 20 ==> PairProduct(i) < PairProduct(i + 1) && PairProduct(i + 1) + 14 < 2 * PairProduct(i))
  }

  lemma Steps0(i: nat)
    requires i < 10
    ensures StepOk(i)
  {
  }

  lemma Steps5(i: nat)
    requires 10 <= i < 20
    ensures StepOk(i)
  {
  }

  lemma Steps1(i: nat)
    requires 20 <= i < 40
    ensures StepOk(i)
  {
  }

  lemma Steps2(i: nat)
    requires 40 <= i < 60
    ensures StepOk(i)
  {
  }

  lemma Steps3(i: nat)
    requires 60 <= i < 80
    ensures StepOk(i)
  {
  }

  lemma Steps4(i: nat)
    requires 80 <= i < 100
    ensures StepOk(i)
  {
  }

  /** The first entry of each product up to 16. */
  function FirstEntry(g: nat): nat {
    if g == 0 then 0 else if g <= 9 then g - 1 else if g <= 12 then g else if g <= 15 then g + 1 else 18
  }

  /** The first 20 entries hold all products up to 16, and the next is 18. */
  lemma SmallProducts(g: nat)
    requires 1 <= g <= 16
    ensures FirstEntry(g) < 20 && PairProduct(FirstEntry(g)) == g
    ensures PairProduct(18) == 16 && PairProduct(19) == 16 && PairProduct(17) == 15 && PairProduct(20) == 18
  {
  }

  lemma UnitFactor(i: nat)
    requires 20 <= i < FACTORS
    ensures Pair(i).0 != 1 && Pair(i).1 != 1
  {
  }

  /** The pair an entry of the packed table stands for is the pair packed. */
  lemma EntryRoundTrip(i: nat)
    requires i < FACTORS
    ensures Pair(i).0 >= 1 && Pair(i).1 >= 1
    ensures var packed := Pack(Pair(i).0, Pair(i).1);
      packed < 256 && (UnpackR(packed), UnpackOd(packed)) == Pair(i)
  {
    PairRange(i);
    PackRoundTrip(Pair(i).0, Pair(i).1);
  }

  function Area(pair: (nat, nat)): nat {
    pair.0 * pair.1
  }

  /** ps lists the products of the pairs of t. */
  ghost predicate ProductsOf(t: seq<(nat, nat)>, ps: seq<nat>) {
    |ps| == |t| && forall i {:trigger Area(t[i])} :: 0 <= i < |t| ==> ps[i] == Area(t[i])
  }

  /** What the search relies on: factors in 1..16, and products that start at 1,
      never decrease, at most double from one entry to the next and stay below 257. */
  ghost predicate TableOk(t: seq<(nat, nat)>, ps: seq<nat>) {
    && 0 < |t| == |ps|
    && ps[0] == 1
    && (forall i :: 0 <= i < |t| ==> 1 <= t[i].0 <= 16 && 1 <= t[i].1 <= 16)
    && (forall i :: 0 <= i < |ps| ==> 1 <= ps[i] <= 256)
    && (forall i :: 0 <= i < |ps| - 1 ==> StepAt(ps, i))
  }

  ghost predicate StepAt(ps: seq<nat>, i: nat)
    requires i < |ps| - 1
  {
    ps[i] <= ps[i + 1] <= 2 * ps[i] + 1
  }

  function Table(pair: nat -> (nat, nat)): (t: seq<(nat, nat)>)
    ensures |t| == FACTORS && forall i :: 0 <= i < FACTORS ==> t[i] == pair(i)
  {
    seq(FACTORS, i requires 0 <= i < FACTORS => pair(i))
  }

  function Products(area: nat -> nat): (ps: seq<nat>)
    ensures |ps| == FACTORS && forall i :: 0 <= i < FACTORS ==> ps[i] == area(i)
  {
    seq<nat>(FACTORS, i requires 0 <= i < FACTORS => area(i))
  }

  lemma TableOkFrom(pair: nat -> (nat, nat), area: nat -> nat)
    requires area(0) == 1
    requires forall i: nat :: i < FACTORS ==> 1 <= pair(i).0 <= 16 && 1 <= pair(i).1 <= 16
    requires forall i: nat :: i < FACTORS ==> 1 <= area(i) <= 256
    requires forall i: nat :: i < FACTORS - 1 ==> area(i) <= area(i + 1) <= 2 * area(i) + 1
    ensures TableOk(Table(pair), Products(area))
  {
  }

  lemma ProductsOfFrom(pair: nat -> (nat, nat), area: nat -> nat)
    requires forall i: nat :: i < FACTORS ==> area(i) == Area(pair(i))
    ensures ProductsOf(Table(pair), Products(area))
  {
  }

  lemma StepHolds(i: nat)
    requires i < FACTORS - 1
    ensures StepOk(i)
  {
    if i < 10 {
      Steps0(i);
    } else if i < 20 {
      Steps5(i);
    } else if i < 40 {
      Steps1(i);
    } else if i < 60 {
      Steps2(i);
    } else if i < 80 {
      Steps3(i);
    } else {
      Steps4(i);
    }
  }

  /** The table as it is written meets what the search relies on. */
  lemma FactorTableOk()
    ensures TableOk(Table(Pair), Products(PairProduct)) && ProductsOf(Table(Pair), Products(PairProduct))
  {
    forall i: nat | i < FACTORS
      ensures 1 <= Pair(i).0 <= 16 && 1 <= Pair(i).1 <= 16 && 1 <= PairProduct(i) <= 256
      ensures PairProduct(i) == Area(Pair(i))
    {
      PairRange(i);
      AreaRange(Pair(i));
    }
    forall i: nat | i < FACTORS - 1
      ensures PairProduct(i) <= PairProduct(i + 1) <= 2 * PairProduct(i) + 1
    {
      StepHolds(i);
    }
    assert PairProduct(0) == 1;
    TableOkFrom(Pair, PairProduct);
    ProductsOfFrom(Pair, PairProduct);
  }

  /** What else holds of the table: 16 is its last small product, all smaller ones
      occur, and from entry 20 on products increase by little. */
  ghost predicate Dense(t: seq<(nat, nat)>, ps: seq<nat>) {
    && |ps| == |t| == FACTORS && ps[17] == 15 && ps[18] == ps[19] == 16 && ps[20] == 18
    && t[18] == (1, 16) && t[19] == (4, 4)
    && (forall g :: 1 <= g <= 16 ==> FirstEntry(g) < 20 && ps[FirstEntry(g)] == g)
    && (forall i :: 20 <= i < FACTORS - 1 ==> RiseAt(ps, i))
  }

  ghost predicate RiseAt(ps: seq<nat>, i: nat)
    requires i < |ps| - 1
  {
    ps[i] < ps[i + 1] && ps[i + 1] + 14 < 2 * ps[i]
  }

  lemma FactorTableDense()
    ensures Dense(Table(Pair), Products(PairProduct))
  {
    forall g | 1 <= g <= 16
      ensures FirstEntry(g) < 20 && PairProduct(FirstEntry(g)) == g
    {
      SmallProducts(g);
    }
    SmallProducts(1);
    forall i: nat | 20 <= i < FACTORS - 1
      ensures PairProduct(i) < PairProduct(i + 1) && PairProduct(i + 1) + 14 < 2 * PairProduct(i)
    {
      StepHolds(i);
    }
    DenseFrom(Pair, PairProduct);
  }

  lemma DenseFrom(pair: nat -> (nat, nat), area: nat -> nat)
    requires area(17) == 15 && area(18) == area(19) == 16 && area(20) == 18 && pair(18) == (1, 16) && pair(19) == (4, 4)
    requires forall g :: 1 <= g <= 16 ==> FirstEntry(g) < 20 && area(FirstEntry(g)) == g
    requires forall i: nat :: 20 <= i < FACTORS - 1 ==> area(i) < area(i + 1) && area(i + 1) + 14 < 2 * area(i)
    ensures Dense(Table(pair), Products(area))
  {
  }

  lemma AreaRange(pair: (nat, nat))
    requires 1 <= pair.0 <= 16 && 1 <= pair.1 <= 16
    ensures 1 <= Area(pair) <= 256
  {
    assert pair.0 * pair.1 <= 16 * pair.1;
    assert pair.0 * pair.1 >= pair.1;
  }
}
