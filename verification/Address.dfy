/** Virtual and physical addresses of the Sv39 scheme: 39-bit virtual
    addresses, 56-bit physical ones, 4 KiB pages (RISC-V Privileged
    Architecture, section 4.4). */
module Address {
  import opened Bits
  import opened Memory

  const VPNS: nat := 0x800_0000
  const PPNS: nat := 0x1000_0000_0000
  const VA_SPACE: nat := 0x80_0000_0000
  const USER_TOP: nat := 0x40_0000_0000
  const USIZE: nat := 0x1_0000_0000_0000_0000

  /** `VirtAddr::from(usize)` keeps the low 39 bits. */
  function VirtAddr(v: nat): nat {
    v % VA_SPACE
  }

  lemma VirtAddrIsMask(v: nat)
    ensures VirtAddr(v) == And(v, VA_SPACE - 1)
  {
    Pow39();
    AndMask(v, 39);
  }

  lemma Pow39()
    ensures Pow2(39) == VA_SPACE
  {
    assert Pow2(10) == 1024;
    Pow2Split(10, 10);
    Pow2Split(20, 10);
    assert Pow2(9) == 512;
    Pow2Split(30, 9);
  }

  /** `usize::from(VirtAddr)` sign-extends bit 38. */
  function ToUsize(va: nat): nat {
    if va >= USER_TOP then va + (USIZE - VA_SPACE) else va
  }

  function Floor(va: nat): nat {
    va / PAGE_SIZE
  }

  /** `(va - 1 + PAGE_SIZE) / PAGE_SIZE` in wrapping arithmetic. */
  function Ceil(va: nat): nat
    requires va < USIZE
  {
    (va + USIZE - 1 + PAGE_SIZE) % USIZE / PAGE_SIZE
  }

  function PageOffset(va: nat): nat {
    va % PAGE_SIZE
  }

  /** Floor and ceiling are the nearest page boundaries below and above. */
  lemma FloorCeil(va: nat)
    requires va < VA_SPACE
    ensures Floor(va) * PAGE_SIZE <= va < (Floor(va) + 1) * PAGE_SIZE
    ensures va <= Ceil(va) * PAGE_SIZE < va + PAGE_SIZE
    ensures Ceil(va) == if PageOffset(va) == 0 then Floor(va) else Floor(va) + 1
    ensures va == Floor(va) * PAGE_SIZE + PageOffset(va)
  {
  }

  // ---------------------------------------------------------------------
  // Table indexes
  // ---------------------------------------------------------------------

  /** The three table indexes of a page number, top level first. */
  datatype Path = Path(top: nat, mid: nat, low: nat)

  function Indexes(vpn: nat): Path {
    Path(vpn / 0x4_0000 % 512, vpn / 512 % 512, vpn % 512)
  }

  /** Different page numbers have different indexes. */
  lemma IndexesInjective(u: nat, v: nat)
    requires u < VPNS && v < VPNS && Indexes(u) == Indexes(v)
    ensures u == v
  {
    FromIndexes(u);
    FromIndexes(v);
  }

  /** The indexes are the three nine-bit digits of the page number. */
  lemma FromIndexes(v: nat)
    requires v < VPNS
    ensures v == Indexes(v).top * 0x4_0000 + Indexes(v).mid * 512 + Indexes(v).low
  {
    assert v / 512 / 512 == v / 0x4_0000;
    assert v / 0x4_0000 < 512;
  }

  /** The loop of `indexes`: nine bits at a time, lowest level last. */
  method ComputeIndexes(vpn: nat) returns (idx: array<nat>)
    ensures idx.Length == 3 && Path(idx[0], idx[1], idx[2]) == Indexes(vpn)
    ensures fresh(idx)
  {
    idx := new nat[3](_ => 0);
    var v := vpn;
    var i := 3;
    while i > 0
      invariant 0 <= i <= 3 && idx.Length == 3
      invariant v == if i == 3 then vpn else if i == 2 then vpn / 512 else if i == 1 then vpn / 0x4_0000 else v
      invariant i <= 2 ==> idx[2] == vpn % 512
      invariant i <= 1 ==> idx[1] == vpn / 512 % 512
      invariant i == 0 ==> idx[0] == vpn / 0x4_0000 % 512
    {
      i := i - 1;
      idx[i] := v % 512;
      v := v / 512;
    }
  }
}
