/** What the hardware makes of a page table: the address translation process of the
    RISC-V Privileged Architecture, section 4.3.2, read off the bytes of physical
    memory. */
module Sv39 {
  import opened Options
  import opened Bits
  import opened Memory
  import opened Address
  import opened PageTable

  /** A byte of physical memory; outside of it reads zero, which is never valid. */
  ghost function ByteOf(mem: Mem, pa: nat): nat {
    if HasFrame(mem, pa / PAGE_SIZE) then mem[pa / PAGE_SIZE][pa % PAGE_SIZE] else 0
  }

  /** The number in n bytes from pa on, the byte at pa counting least. */
  ghost function Little(mem: Mem, pa: nat, n: nat): nat
    decreases n
  {
    if n == 0 then 0 else ByteOf(mem, pa) + 0x100 * Little(mem, pa + 1, n - 1)
  }

  /** The nine bits of the virtual address that index a table of this level. */
  function Digit(va: nat, level: nat): (d: nat)
    ensures d < 512
  {
    if level == 0 then va / 0x1000 % 512 else if level == 1 then va / 0x20_0000 % 512 else va / 0x4000_0000 % 512
  }

  /** A leaf covers 4 KiB, 2 MiB or 1 GiB, and its frame must be aligned to that. */
  predicate Aligned(ppn: nat, level: nat) {
    level == 0 || (if level == 1 then ppn % 512 == 0 else ppn % 0x4_0000 == 0)
  }

  function Within(va: nat, level: nat): nat {
    if level == 0 then va % 0x1000 else if level == 1 then va % 0x20_0000 else va % 0x4000_0000
  }

  /** What the hardware does at an entry: fault, translate, or go on to a table. */
  datatype Outcome = Fault | Leaf(pa: nat, flags: nat) | Next(table: nat)

  function Decide(pte: nat, va: nat, level: nat): Outcome {
    var v, r, w, x := pte % 2, pte / 2 % 2, pte / 4 % 2, pte / 8 % 2;
    var ppn := pte / 0x400 % 0x1000_0000_0000;
    if v == 0 || (r == 0 && w == 1) then Fault
    else if r == 1 || x == 1 then
      if Aligned(ppn, level) then Leaf(ppn * 0x1000 + Within(va, level), pte % 256) else Fault
    else Next(ppn)
  }

  ghost function At(mem: Mem, table: nat, va: nat, level: nat): Outcome {
    Decide(Little(mem, table * 0x1000 + 8 * Digit(va, level), 8), va, level)
  }

  /** The outcome at the lowest level, where there is nowhere to go on to. */
  function Last(o: Outcome): Outcome {
    if o.Next? then Fault else o
  }

  /** From the root table down. */
  ghost function Walk(mem: Mem, root: nat, va: nat): Outcome {
    match At(mem, root, va, 2)
    case Fault => Fault
    case Leaf(pa, flags) => Leaf(pa, flags)
    case Next(t) =>
      match At(mem, t, va, 1)
      case Fault => Fault
      case Leaf(pa, flags) => Leaf(pa, flags)
      case Next(t) => Last(At(mem, t, va, 0))
  }

  /** Flags of a page the hardware can use: readable or executable, and writable
      only if readable. */
  predicate Usable(flags: nat) {
    (flags / 2 % 2 == 1 || flags / 8 % 2 == 1) && !(flags / 2 % 2 == 0 && flags / 4 % 2 == 1)
  }

  lemma ByteInFrame(mem: Mem, f: nat, pa: nat, off: nat)
    requires HasFrame(mem, f) && off < PAGE_SIZE && pa == f * 0x1000 + off
    ensures ByteOf(mem, pa) == mem[f][off]
  {
    DivModUnique(pa, PAGE_SIZE, f, off);
  }

  lemma {:induction false} LittleIs(mem: Mem, f: nat, pa: nat, off: nat, n: nat)
    requires HasFrame(mem, f) && off + n <= PAGE_SIZE && pa == f * 0x1000 + off
    ensures Little(mem, pa, n) == Decode(mem[f][off..off + n])
    decreases n
  {
    if n > 0 {
      ByteInFrame(mem, f, pa, off);
      LittleIs(mem, f, pa + 1, off + 1, n - 1);
      assert mem[f][off..off + n][1..] == mem[f][off + 1..off + 1 + (n - 1)];
    }
  }

  /** A page table entry is the word at its place in physical memory. */
  lemma PteIsWord(mem: Mem, f: nat, i: nat)
    requires HasFrame(mem, f) && i < 512
    ensures Little(mem, f * 0x1000 + 8 * i, 8) == Pte(mem, f, i)
  {
    LittleIs(mem, f, f * 0x1000 + 8 * i, 8 * i, 8);
  }

  /** The digits of a virtual address are the indexes of its page. */
  lemma DigitsAre(va: nat)
    ensures Path(Digit(va, 2), Digit(va, 1), Digit(va, 0)) == Indexes(Floor(va))
  {
    DivDiv(va, PAGE_SIZE, 512);
    DivDiv(va, PAGE_SIZE, 0x4_0000);
  }

  /** The low bits of an entry are those of its flags. */
  lemma LowFlags(pte: nat)
    ensures var f := PteFlags(pte);
      pte % 2 == f % 2 && pte / 2 % 2 == f / 2 % 2 && pte / 4 % 2 == f / 4 % 2 && pte / 8 % 2 == f / 8 % 2
  {
    var f, q := PteFlags(pte), pte / 256;
    LowBit(pte, f, 128 * q);
    Halved(pte, f, 128 * q);
    LowBit(pte / 2, f / 2, 64 * q);
    Halved(pte / 2, f / 2, 64 * q);
    LowBit(pte / 4, f / 4, 32 * q);
    Halved(pte / 4, f / 4, 32 * q);
    LowBit(pte / 8, f / 8, 16 * q);
  }

  lemma LowBit(x: nat, y: nat, h: nat)
    requires x == 2 * h + y
    ensures x % 2 == y % 2
  {
  }

  lemma Halved(x: nat, y: nat, h: nat)
    requires x == 2 * h + y
    ensures x / 2 == h + y / 2
  {
  }

  lemma PointerDecides(pte: nat, va: nat, level: nat)
    requires PteValid(pte) ==> PteFlags(pte) == FLAG_V
    ensures Decide(pte, va, level) == if PteValid(pte) then Next(PtePpn(pte)) else Fault
  {
    if PteValid(pte) { LowFlags(pte); }
  }

  lemma LeafDecides(pte: nat, va: nat)
    ensures var d := Decide(pte, va, 0);
      if PteValid(pte) && Usable(PteFlags(pte)) then d == Leaf(PtePpn(pte) * PAGE_SIZE + PageOffset(va), PteFlags(pte))
      else !d.Leaf?
  {
    LowFlags(pte);
  }

  /** At an entry that points to a table the hardware goes on to that table. */
  lemma PointerStep(mem: Mem, place: map<nat, Place>, f: nat, va: nat, level: nat)
    requires f in place && HasFrame(mem, f) && !place[f].Low? && EntryFits(mem, place, f, Digit(va, level))
    ensures At(mem, f, va, level) == match Child(mem, f, Digit(va, level)) case None => Fault case Some(t) => Next(t)
  {
    PteIsWord(mem, f, Digit(va, level));
    PointerDecides(Pte(mem, f, Digit(va, level)), va, level);
  }

  /** At a leaf entry it gives the address, if the flags let it. */
  lemma LeafStep(mem: Mem, f: nat, va: nat)
    requires HasFrame(mem, f)
    ensures var pte, o := Pte(mem, f, Digit(va, 0)), At(mem, f, va, 0);
      if PteValid(pte) && Usable(PteFlags(pte)) then o == Leaf(PtePpn(pte) * PAGE_SIZE + PageOffset(va), PteFlags(pte)) else !o.Leaf?
  {
    PteIsWord(mem, f, Digit(va, 0));
    LeafDecides(Pte(mem, f, Digit(va, 0)), va);
  }

  /** The hardware reaches the same lowest table as `find_pte`. */
  lemma ReachesLeaf(mem: Mem, root: nat, place: map<nat, Place>, va: nat)
    requires TreeOk(mem, root, place)
    ensures Walk(mem, root, va) == match LeafTable(mem, root, Floor(va)) case None => Fault case Some(t) => Last(At(mem, t, va, 0))
    ensures LeafTable(mem, root, Floor(va)).Some? ==> HasFrame(mem, LeafTable(mem, root, Floor(va)).value)
  {
    DigitsAre(va);
    assert EntryFits(mem, place, root, Digit(va, 2));
    PointerStep(mem, place, root, va, 2);
    if Child(mem, root, Digit(va, 2)).Some? {
      var t := Child(mem, root, Digit(va, 2)).value;
      assert EntryFits(mem, place, t, Digit(va, 1));
      PointerStep(mem, place, t, va, 1);
    }
  }

  /** The hardware translates an address of a page exactly if the page is mapped with
      usable flags, and then to the same byte of the same frame; everything else
      is a page fault. */
  lemma HardwareAgrees(mem: Mem, root: nat, place: map<nat, Place>, tr: map<nat, Entry>, va: nat)
    requires TreeOk(mem, root, place) && Refines(mem, root, tr) && va < VA_SPACE
    ensures Walk(mem, root, va) ==
      if Floor(va) in tr && Usable(tr[Floor(va)].flags)
      then Leaf(tr[Floor(va)].ppn * PAGE_SIZE + PageOffset(va), tr[Floor(va)].flags) else Fault
  {
    ReachesLeaf(mem, root, place, va);
    var leaf := LeafTable(mem, root, Floor(va));
    var e := Lookup(mem, root, Floor(va));
    if leaf.Some? {
      LeafLookup(mem, root, leaf.value, va);
    }
  }

  lemma LeafLookup(mem: Mem, root: nat, t: nat, va: nat)
    requires HasFrame(mem, t) && LeafTable(mem, root, Floor(va)) == Some(t)
    ensures Last(At(mem, t, va, 0)) ==
      match Lookup(mem, root, Floor(va))
      case None => Fault
      case Some(e) => if Usable(e.flags) then Leaf(e.ppn * PAGE_SIZE + PageOffset(va), e.flags) else Fault
  {
    DigitsAre(va);
    LeafStep(mem, t, va);
  }
}
