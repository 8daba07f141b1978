/** The three-level Sv39 page table, a tree in physical frames (RISC-V Privileged
    Architecture, sections 4.3.2 and 4.4), against the plain finite map from
    virtual page number to physical page number and flags that it stands for. */
module PageTable {
  import opened Options
  import opened Bits
  import opened Seqs
  import opened Memory
  import opened Address
  import Frames

  // ---------------------------------------------------------------------
  // Page table entries
  // ---------------------------------------------------------------------

  const FLAG_V: nat := 1
  const FLAG_R: nat := 2
  const FLAG_W: nat := 4
  const FLAG_X: nat := 8
  const FLAG_U: nat := 16

  /** `ppn << 10 | flags`. */
  function PteNew(ppn: nat, flags: nat): nat {
    ppn * 1024 + flags
  }

  function PtePpn(bits: nat): nat {
    bits / 1024 % PPNS
  }

  function PteFlags(bits: nat): nat {
    bits % 256
  }

  predicate PteValid(bits: nat) {
    bits % 2 == 1
  }

  /** `flags | V`. */
  function WithV(flags: nat): nat {
    if flags % 2 == 1 then flags else flags + 1
  }

  /** `flags | U | V`. */
  function WithUV(flags: nat): nat {
    WithV(if flags / 16 % 2 == 1 then flags else flags + 16)
  }

  /** The entry the source computes with shifts and masks. */
  lemma PteNewIsOr(ppn: nat, flags: nat)
    requires flags < 256
    ensures PteNew(ppn, flags) == Or(ppn * 1024, flags)
  {
    assert Pow2(10) == 1024;
    OrShifted(ppn, flags, 10);
  }

  /** Encoding an entry and decoding it gives back page number and flags. */
  lemma PteRoundTrip(ppn: nat, flags: nat)
    requires ppn < PPNS && flags < 256
    ensures PtePpn(PteNew(ppn, flags)) == ppn && PteFlags(PteNew(ppn, flags)) == flags
    ensures PteNew(ppn, flags) < WORD && (PteValid(PteNew(ppn, flags)) <==> flags % 2 == 1)
  {
    var bits := PteNew(ppn, flags);
    DivModUnique(bits, 1024, ppn, flags);
    DivModUnique(ppn, PPNS, 0, ppn);
    DivModUnique(bits, 256, 4 * ppn, flags);
    DivModUnique(bits, 2, 512 * ppn + flags / 2, flags % 2);
  }

  /** The flags the source computes: `flags | V` and `flags | U | V`. */
  lemma WithIsOr(flags: nat)
    ensures WithV(flags) == Or(flags, FLAG_V)
    ensures WithUV(flags) == Or(Or(flags, FLAG_U), FLAG_V)
  {
    assert Pow2(0) == FLAG_V && Pow2(4) == FLAG_U;
    assert Bit(flags, 4) <==> flags / 16 % 2 == 1 by { FourthBit(flags); }
    OrPow2(flags, 0);
    OrPow2(flags, 4);
    OrPow2(Or(flags, FLAG_U), 0);
  }

  lemma FourthBit(x: nat)
    ensures Bit(x, 4) <==> x / 16 % 2 == 1
  {
    assert Bit(x, 4) == Bit(x / 2, 3) == Bit(x / 2 / 2, 2) == Bit(x / 2 / 2 / 2, 1) == Bit(x / 2 / 2 / 2 / 2, 0);
    assert x / 2 / 2 / 2 / 2 == x / 16;
  }

  /** Bit by bit: the flags asked for, V in any case, and U where it is added. */
  lemma FlagBits(flags: nat, k: nat)
    ensures Bit(WithV(flags), k) <==> Bit(flags, k) || k == 0
    ensures Bit(WithUV(flags), k) <==> Bit(flags, k) || k == 0 || k == 4
  {
    WithIsOr(flags);
    assert Pow2(0) == FLAG_V && Pow2(4) == FLAG_U;
    OrBit(flags, FLAG_V, k);
    OrBit(flags, FLAG_U, k);
    OrBit(Or(flags, FLAG_U), FLAG_V, k);
    Pow2Bit(0, k);
    Pow2Bit(4, k);
  }

  lemma WithFlagsRange(flags: nat)
    requires flags < 256
    ensures WithV(flags) < 256 && WithV(flags) % 2 == 1
    ensures WithUV(flags) < 256 && WithUV(flags) % 2 == 1
  {
  }

  // ---------------------------------------------------------------------
  // The walk
  // ---------------------------------------------------------------------

  ghost predicate HasFrame(mem: Mem, f: nat) {
    f in mem && |mem[f]| == PAGE_SIZE
  }

  function Pte(mem: Mem, f: nat, i: nat): nat
    requires f in mem && |mem[f]| == PAGE_SIZE && i < 512
  {
    LoadWord(mem[f], 8 * i)
  }

  function SetPte(mem: Mem, f: nat, i: nat, bits: nat): Mem
    requires f in mem && |mem[f]| == PAGE_SIZE && i < 512
  {
    mem[f := StoreWord(mem[f], 8 * i, bits)]
  }

  /** The table an entry points to, if it is valid. */
  function Child(mem: Mem, f: nat, i: nat): Option<nat>
    requires i < 512
  {
    if f in mem && |mem[f]| == PAGE_SIZE && PteValid(Pte(mem, f, i)) then Some(PtePpn(Pte(mem, f, i))) else None
  }

  /** `find_pte`: the lowest-level table for this page, if both upper levels exist. */
  function LeafTable(mem: Mem, root: nat, vpn: nat): Option<nat> {
    var p := Indexes(vpn);
    match Child(mem, root, p.top)
    case None => None
    case Some(t) => Child(mem, t, p.mid)
  }

  /** The leaf entry of a page, valid or not, if both upper levels exist. */
  function RawEntry(mem: Mem, root: nat, vpn: nat): Option<nat> {
    match LeafTable(mem, root, vpn)
    case None => None
    case Some(t) => if t in mem && |mem[t]| == PAGE_SIZE then Some(Pte(mem, t, Indexes(vpn).low)) else None
  }

  datatype Entry = Entry(ppn: nat, flags: nat)

  function EntryOf(bits: nat): Entry {
    Entry(PtePpn(bits), PteFlags(bits))
  }

  /** The translation of a page: none unless the leaf entry is valid. */
  function Lookup(mem: Mem, root: nat, vpn: nat): Option<Entry> {
    match LeafTable(mem, root, vpn)
    case None => None
    case Some(t) =>
      if t in mem && |mem[t]| == PAGE_SIZE && PteValid(Pte(mem, t, Indexes(vpn).low))
      then Some(EntryOf(Pte(mem, t, Indexes(vpn).low))) else None
  }

  /** The finite map a page table stands for. */
  ghost function Translations(mem: Mem, root: nat): map<nat, Entry> {
    map vpn: nat | vpn < VPNS && Lookup(mem, root, vpn).Some? :: Lookup(mem, root, vpn).value
  }

  // ---------------------------------------------------------------------
  // The shape of the tree
  // ---------------------------------------------------------------------

  /** Where a table frame sits in the tree. */
  datatype Place = Top | Mid(a: nat) | Low(a: nat, b: nat)

  /** Every table frame has one place, and a valid entry of an upper table leads
      to the table whose place it is: so no two entries share a table. */
  ghost predicate EntryFits(mem: Mem, place: map<nat, Place>, f: nat, i: nat)
    requires f in place && HasFrame(mem, f) && i < 512
  {
    match place[f]
    case Top => Child(mem, f, i).Some? ==> LeadsTo(mem, place, f, i, Mid(i))
    case Mid(a) => Child(mem, f, i).Some? ==> LeadsTo(mem, place, f, i, Low(a, i))
    case Low(_, _) => true
  }

  /** Entry i points to the table at this place, and has no flag but V. */
  ghost predicate LeadsTo(mem: Mem, place: map<nat, Place>, f: nat, i: nat, p: Place)
    requires HasFrame(mem, f) && i < 512
  {
    var child := PtePpn(Pte(mem, f, i));
    child in place && place[child] == p && PteFlags(Pte(mem, f, i)) == FLAG_V
  }

  ghost predicate TreeOk(mem: Mem, root: nat, place: map<nat, Place>) {
    && root in place && place[root] == Top
    && (forall f :: f in place ==> HasFrame(mem, f) && f < PPNS)
    && (forall f, i :: f in place && 0 <= i < 512 ==> EntryFits(mem, place, f, i))
  }

  /** The walk for a page ends in the low table of its two upper indexes. */
  lemma WalkPlaces(mem: Mem, root: nat, place: map<nat, Place>, vpn: nat)
    requires TreeOk(mem, root, place) && LeafTable(mem, root, vpn).Some?
    ensures var t := LeafTable(mem, root, vpn).value;
      t in place && place[t] == Low(Indexes(vpn).top, Indexes(vpn).mid)
    ensures var m := Child(mem, root, Indexes(vpn).top).value;
      m in place && place[m] == Mid(Indexes(vpn).top)
  {
    var p := Indexes(vpn);
    assert EntryFits(mem, place, root, p.top);
    var m := Child(mem, root, p.top).value;
    assert EntryFits(mem, place, m, p.mid);
  }

  lemma PteSet(mem: Mem, f: nat, i: nat, bits: nat, j: nat)
    requires HasFrame(mem, f) && i < 512 && j < 512 && bits < WORD
    ensures HasFrame(SetPte(mem, f, i, bits), f)
    ensures Pte(SetPte(mem, f, i, bits), f, j) == if j == i then bits else Pte(mem, f, j)
  {
    LoadStore(mem[f], 8 * i, bits, 8 * j);
  }

  /** Frames outside the tree do not matter to it. */
  lemma TreeFrame(mem: Mem, mem': Mem, root: nat, place: map<nat, Place>)
    requires TreeOk(mem, root, place)
    requires forall f :: f in place ==> f in mem' && mem'[f] == mem[f]
    ensures TreeOk(mem', root, place)
    ensures forall vpn: nat :: Lookup(mem', root, vpn) == Lookup(mem, root, vpn)
  {
    forall f, i | f in place && 0 <= i < 512
      ensures EntryFits(mem', place, f, i)
    {
      assert EntryFits(mem, place, f, i);
    }
    forall vpn: nat
      ensures Lookup(mem', root, vpn) == Lookup(mem, root, vpn)
    {
      if LeafTable(mem, root, vpn).Some? {
        WalkPlaces(mem, root, place, vpn);
      }
      assert EntryFits(mem, place, root, Indexes(vpn).top);
    }
  }

  // ---------------------------------------------------------------------
  // Writing a leaf entry
  // ---------------------------------------------------------------------

  lemma WriteLeafTree(mem: Mem, root: nat, place: map<nat, Place>, t: nat, i: nat, bits: nat)
    requires TreeOk(mem, root, place) && t in place && place[t].Low? && i < 512 && bits < WORD
    ensures TreeOk(SetPte(mem, t, i, bits), root, place)
  {
    var mem' := SetPte(mem, t, i, bits);
    forall f, k | f in place && 0 <= k < 512
      ensures EntryFits(mem', place, f, k)
    {
      assert EntryFits(mem, place, f, k);
    }
  }

  /** Writing the leaf entry of one page changes the translation of that page
      and of no other. */
  lemma WriteLeaf(mem: Mem, root: nat, place: map<nat, Place>, vpn: nat, bits: nat)
    requires TreeOk(mem, root, place) && vpn < VPNS && LeafTable(mem, root, vpn).Some? && bits < WORD
    ensures LeafTable(mem, root, vpn).value in mem && |mem[LeafTable(mem, root, vpn).value]| == PAGE_SIZE
    ensures var mem' := SetPte(mem, LeafTable(mem, root, vpn).value, Indexes(vpn).low, bits);
      && TreeOk(mem', root, place)
      && Lookup(mem', root, vpn) == (if PteValid(bits) then Some(EntryOf(bits)) else None)
      && (forall u: nat :: u < VPNS && u != vpn ==> Lookup(mem', root, u) == Lookup(mem, root, u))
  {
    WalkPlaces(mem, root, place, vpn);
    var t := LeafTable(mem, root, vpn).value;
    var i := Indexes(vpn).low;
    WriteLeafTree(mem, root, place, t, i, bits);
    var mem' := SetPte(mem, t, i, bits);
    PteSet(mem, t, i, bits, i);
    forall u: nat | u < VPNS
      ensures LeafTable(mem', root, u) == LeafTable(mem, root, u)
      ensures u != vpn ==> Lookup(mem', root, u) == Lookup(mem, root, u)
    {
      var p := Indexes(u);
      assert EntryFits(mem, place, root, p.top);
      if Child(mem, root, p.top).Some? {
        var m := Child(mem, root, p.top).value;
        assert EntryFits(mem, place, m, p.mid);
      }
      PteSet(mem, t, i, bits, p.low);
      if u != vpn && Indexes(u) == Indexes(vpn) { IndexesInjective(u, vpn); }
    }
  }

  // ---------------------------------------------------------------------
  // Creating an intermediate table
  // ---------------------------------------------------------------------

  function ChildPlace(place: Place, i: nat): Place {
    match place
    case Top => Mid(i)
    case Mid(a) => Low(a, i)
    case Low(a, b) => place
  }

  lemma ChildSet(mem: Mem, f: nat, i: nat, bits: nat, g: nat, j: nat)
    requires HasFrame(mem, f) && i < 512 && j < 512 && bits < WORD
    ensures Child(SetPte(mem, f, i, bits), g, j) ==
              if g == f && j == i then (if PteValid(bits) then Some(PtePpn(bits)) else None) else Child(mem, g, j)
  {
    PteSet(mem, f, i, bits, j);
  }

  lemma ZeroTableEmpty(mem: Mem, g: nat, j: nat)
    requires g in mem && mem[g] == ZeroFrame() && j < 512
    ensures HasFrame(mem, g) && Pte(mem, g, j) == 0 && Child(mem, g, j).None?
  {
    LoadZero(8 * j);
  }

  /** Hanging a zeroed frame into an empty slot of an upper table keeps the
      tree well formed. */
  lemma InstallTree(mem: Mem, root: nat, place: map<nat, Place>, f: nat, i: nat, g: nat)
    requires TreeOk(mem, root, place) && f in place && !place[f].Low? && i < 512
    requires g !in place && g < PPNS && g in mem && mem[g] == ZeroFrame()
    ensures TreeOk(SetPte(mem, f, i, PteNew(g, FLAG_V)), root, place[g := ChildPlace(place[f], i)])
  {
    PteRoundTrip(g, FLAG_V);
    var bits := PteNew(g, FLAG_V);
    var mem' := SetPte(mem, f, i, bits);
    var place' := place[g := ChildPlace(place[f], i)];
    ChildSet(mem, f, i, bits, f, i);
    forall h, j | h in place' && 0 <= j < 512
      ensures EntryFits(mem', place', h, j)
    {
      ChildSet(mem, f, i, bits, h, j);
      if h == g {
        ZeroTableEmpty(mem, g, j);
      } else {
        EntryFitsInstalled(mem, place, f, i, g, h, j);
      }
    }
  }

  /** Entries of older tables fit after a table g is hung into entry i of f. */
  lemma EntryFitsInstalled(mem: Mem, place: map<nat, Place>, f: nat, i: nat, g: nat, h: nat, j: nat)
    requires f in place && !place[f].Low? && HasFrame(mem, f) && i < 512 && g !in place && g < PPNS
    requires h in place && HasFrame(mem, h) && j < 512 && EntryFits(mem, place, h, j)
    ensures PteNew(g, FLAG_V) < WORD && HasFrame(SetPte(mem, f, i, PteNew(g, FLAG_V)), h)
    ensures EntryFits(SetPte(mem, f, i, PteNew(g, FLAG_V)), place[g := ChildPlace(place[f], i)], h, j)
  {
    PteRoundTrip(g, FLAG_V);
    PteSet(mem, f, i, PteNew(g, FLAG_V), j);
  }

  /** Creating an intermediate table changes no page's translation. */
  lemma InstallKeeps(mem: Mem, root: nat, place: map<nat, Place>, f: nat, i: nat, g: nat, vpn: nat)
    requires TreeOk(mem, root, place) && f in place && !place[f].Low? && i < 512 && Child(mem, f, i).None?
    requires g !in place && g < PPNS && g in mem && mem[g] == ZeroFrame()
    ensures Lookup(SetPte(mem, f, i, PteNew(g, FLAG_V)), root, vpn) == Lookup(mem, root, vpn)
  {
    PteRoundTrip(g, FLAG_V);
    var bits := PteNew(g, FLAG_V);
    var mem' := SetPte(mem, f, i, bits);
    var p := Indexes(vpn);
    ChildSet(mem, f, i, bits, root, p.top);
    assert EntryFits(mem, place, root, p.top);
    ZeroTableEmpty(mem, g, p.mid);
    ZeroTableEmpty(mem, g, p.low);
    if Child(mem, root, p.top).Some? {
      var m := Child(mem, root, p.top).value;
      ChildSet(mem, f, i, bits, m, p.mid);
      assert EntryFits(mem, place, m, p.mid);
      if Child(mem, m, p.mid).Some? {
        WalkPlaces(mem, root, place, vpn);
      }
    } else {
      ChildSet(mem, f, i, bits, g, p.mid);
    }
  }

  // ---------------------------------------------------------------------
  // The page table object
  // ---------------------------------------------------------------------

  /** The number of tables that mapping this page would have to create. */
  function Missing(mem: Mem, root: nat, vpn: nat): nat {
    var p := Indexes(vpn);
    match Child(mem, root, p.top)
    case None => 2
    case Some(t) => if Child(mem, t, p.mid).None? then 1 else 0
  }

  /** Frames in `keep` hold what they held. */
  ghost predicate Untouched(mem: Mem, mem': Mem, keep: set<nat>) {
    forall f :: f in keep ==> f in mem && f in mem' && mem'[f] == mem[f]
  }

  ghost predicate SameLookups(mem: Mem, mem': Mem, root: nat) {
    forall vpn: nat :: Lookup(mem', root, vpn) == Lookup(mem, root, vpn)
  }

  ghost predicate Extends(place: map<nat, Place>, place': map<nat, Place>) {
    forall f :: f in place ==> f in place' && place'[f] == place[f]
  }

  /** What a page table lives in at one moment. */
  datatype Snapshot = Snapshot(mem: Mem, live: set<nat>, place: map<nat, Place>)

  /** From s to s' the tree only grew, into frames allocated meanwhile, and all
      frames outside it stayed as they were. */
  ghost predicate GrewTree(s: Snapshot, s': Snapshot) {
    && Extends(s.place, s'.place)
    && s.live <= s'.live
    && s'.place.Keys == s.place.Keys + (s'.live - s.live)
    && Untouched(s.mem, s'.mem, s.live - s.place.Keys)
  }

  ghost predicate Grew(root: nat, s: Snapshot, s': Snapshot) {
    SameLookups(s.mem, s'.mem, root) && GrewTree(s, s')
  }

  lemma GrewTreeTwice(s: Snapshot, s1: Snapshot, s2: Snapshot)
    requires GrewTree(s, s1) && GrewTree(s1, s2)
    ensures GrewTree(s, s2)
  {
    forall f | f in s.live - s.place.Keys
      ensures f in s2.mem && s2.mem[f] == s.mem[f]
    {
      assert f in s1.live - s1.place.Keys;
    }
  }

  lemma GrewTwice(root: nat, s: Snapshot, s1: Snapshot, s2: Snapshot)
    requires Grew(root, s, s1) && Grew(root, s1, s2)
    ensures Grew(root, s, s2)
  {
    GrewTreeTwice(s, s1, s2);
  }

  /** The page table in memory refines the finite map tr. */
  ghost predicate Refines(mem: Mem, root: nat, tr: map<nat, Entry>) {
    && (forall vpn :: vpn in tr ==> vpn < VPNS)
    && (forall vpn: nat {:trigger Lookup(mem, root, vpn)} :: vpn < VPNS ==>
          Lookup(mem, root, vpn) == if vpn in tr then Some(tr[vpn]) else None)
  }

  /** There is exactly one map a page table refines. */
  lemma RefinesExactly(mem: Mem, root: nat, tr: map<nat, Entry>)
    ensures Refines(mem, root, tr) <==> tr == Translations(mem, root)
  {
    if Refines(mem, root, tr) {
      assert forall vpn: nat :: vpn in tr <==> vpn < VPNS && Lookup(mem, root, vpn).Some?;
    }
  }

  lemma RefinesSame(mem: Mem, mem': Mem, root: nat, tr: map<nat, Entry>)
    requires SameLookups(mem, mem', root) && Refines(mem, root, tr)
    ensures Refines(mem', root, tr)
  {
  }

  /** Only the lookup of vpn changed. */
  ghost predicate ChangedAt(mem: Mem, mem': Mem, root: nat, vpn: nat, e: Option<Entry>) {
    && Lookup(mem', root, vpn) == e
    && (forall u: nat :: u < VPNS && u != vpn ==> Lookup(mem', root, u) == Lookup(mem, root, u))
  }

  lemma RefinesChanged(mem: Mem, mem': Mem, root: nat, tr: map<nat, Entry>, vpn: nat, e: Option<Entry>)
    requires vpn < VPNS && ChangedAt(mem, mem', root, vpn, e) && Refines(mem, root, tr)
    ensures Refines(mem', root, if e.Some? then tr[vpn := e.value] else tr - {vpn})
  {
  }

  /** `PageTable::map` succeeds, or panics on a mapped page or without memory. */
  datatype MapResult = Mapped | AlreadyMapped | OutOfFrames

  /** Memory after hanging frame g, zeroed, into slot i of table f. */
  function Grown(mem: Mem, f: nat, i: nat, g: nat): Mem
    requires f in mem && |mem[f]| == PAGE_SIZE && i < 512 && g != f
  {
    SetPte(mem[g := ZeroFrame()], f, i, PteNew(g, FLAG_V))
  }

  lemma ChildInstalled(mem: Mem, f: nat, i: nat, g: nat)
    requires HasFrame(mem, f) && i < 512 && g < PPNS
    ensures PteNew(g, FLAG_V) < WORD && Child(SetPte(mem, f, i, PteNew(g, FLAG_V)), f, i) == Some(g)
  {
    PteRoundTrip(g, FLAG_V);
    ChildSet(mem, f, i, PteNew(g, FLAG_V), f, i);
  }

  lemma GrowKeeps(mem: Mem, root: nat, place: map<nat, Place>, f: nat, i: nat, g: nat)
    requires TreeOk(mem, root, place) && f in place && !place[f].Low? && i < 512 && Child(mem, f, i).None?
    requires g !in place && g < PPNS
    ensures TreeOk(Grown(mem, f, i, g), root, place[g := ChildPlace(place[f], i)])
    ensures SameLookups(mem, Grown(mem, f, i, g), root)
    ensures Child(Grown(mem, f, i, g), f, i) == Some(g)
    ensures forall h, j :: h in place && 0 <= j < 512 && !(h == f && j == i) ==>
              Child(Grown(mem, f, i, g), h, j) == Child(mem, h, j)
    ensures forall j :: 0 <= j < 512 ==> Child(Grown(mem, f, i, g), g, j).None?
  {
    var zeroed := mem[g := ZeroFrame()];
    TreeFrame(mem, zeroed, root, place);
    InstallTree(zeroed, root, place, f, i, g);
    var grown := Grown(mem, f, i, g);
    ChildInstalled(zeroed, f, i, g);
    forall vpn: nat
      ensures Lookup(grown, root, vpn) == Lookup(mem, root, vpn)
    {
      InstallKeeps(zeroed, root, place, f, i, g, vpn);
    }
    forall h, j | h in place[g := Top] && 0 <= j < 512
      ensures !(h == f && j == i) ==> Child(grown, h, j) == Child(zeroed, h, j)
    {
      ChildSet(zeroed, f, i, PteNew(g, FLAG_V), h, j);
    }
    forall j | 0 <= j < 512
      ensures Child(zeroed, g, j).None?
    {
      ZeroTableEmpty(zeroed, g, j);
    }
  }

  /** The list of table frames names every table of the tree exactly once. */
  ghost predicate Recorded(frames: seq<nat>, place: map<nat, Place>) {
    Distinct(frames) && place.Keys == Elements(frames)
  }

  lemma RecordedSnoc(frames: seq<nat>, place: map<nat, Place>, g: nat, p: Place)
    requires Recorded(frames, place) && g !in place
    ensures Recorded(frames + [g], place[g := p])
  {
    assert g !in frames by { assert g in frames ==> g in Elements(frames); }
    DistinctSnoc(frames, g);
    assert Elements(frames + [g]) == Elements(frames) + {g};
  }

  class Table {
    var root: nat
    var frames: seq<nat>
    ghost var place: map<nat, Place>
    ghost var tr: map<nat, Entry>

    ghost predicate Valid(m: Frames.Machine)
      reads this, m
    {
      && m.Valid() && m.allocator.end <= PPNS
      && TreeOk(m.mem, root, place)
      && Refines(m.mem, root, tr)
      && place.Keys <= m.live
      && Recorded(frames, place)
    }

    ghost function Now(m: Frames.Machine): Snapshot
      reads this, m
    {
      Snapshot(m.mem, m.live, place)
    }

    /** `PageTable::new` on a frame that was just allocated. */
    constructor (m: Frames.Machine, frame: nat)
      requires m.Valid() && m.allocator.end <= PPNS && frame in m.live && m.mem[frame] == ZeroFrame()
      ensures Valid(m) && root == frame && place == map[frame := Top] && tr == map[]
    {
      root := frame;
      frames := [frame];
      place := map[frame := Top];
      tr := map[];
      new;
      forall i: nat | i < 512
        ensures Child(m.mem, frame, i).None? && HasFrame(m.mem, frame)
      {
        ZeroTableEmpty(m.mem, frame, i);
      }
      assert forall i: nat :: i < 512 ==> EntryFits(m.mem, place, frame, i);
    }

    /** One level of `find_pte_create`: the table below slot i of table f,
        created from a fresh zeroed frame if there is none. */
    method Descend(m: Frames.Machine, f: nat, i: nat) returns (r: Option<nat>)
      requires Valid(m) && f in place && !place[f].Low? && i < 512
      modifies this`frames, this`place, m
      ensures Valid(m) && Grew(root, old(Now(m)), Now(m)) && m.allocator.end == old(m.allocator.end)
      ensures r.None? <==> old(Child(m.mem, f, i).None? && Frames.Unallocated(m.allocator) == 0)
      ensures r.Some? ==> Child(m.mem, f, i) == Some(r.value) && r.value in place && place[r.value] == ChildPlace(place[f], i)
      ensures Frames.Unallocated(m.allocator) ==
                old(Frames.Unallocated(m.allocator)) - (if old(Child(m.mem, f, i).None?) && r.Some? then 1 else 0)
      ensures old(Child(m.mem, f, i).Some?) ==> Now(m) == old(Now(m))
      ensures old(Child(m.mem, f, i).None?) && r.Some? ==>
                forall g, j :: g in old(place) && 0 <= j < 512 && !(g == f && j == i) ==>
                  Child(m.mem, g, j) == old(Child(m.mem, g, j))
      ensures old(Child(m.mem, f, i).None?) && r.Some? ==>
                forall j :: 0 <= j < 512 ==> Child(m.mem, r.value, j).None?
    {
      var bits := Pte(m.mem, f, i);
      if PteValid(bits) {
        assert EntryFits(m.mem, place, f, i);
        return Some(PtePpn(bits));
      }
      var got := m.FrameAlloc();
      if got.None? {
        return None;
      }
      var g := got.value;
      GrowKeeps(old(m.mem), root, place, f, i, g);
      RecordedSnoc(frames, place, g, ChildPlace(place[f], i));
      m.Store(f, StoreWord(m.mem[f], 8 * i, PteNew(g, FLAG_V)));
      frames := frames + [g];
      place := place[g := ChildPlace(place[f], i)];
      return Some(g);
    }

    /** `find_pte_create`: the table that holds the leaf entry of a page, with
        the tables above it created as needed. Fails when frames run out. */
    method FindPteCreate(m: Frames.Machine, vpn: nat) returns (r: Option<nat>)
      requires Valid(m)
      modifies this`frames, this`place, m
      ensures Valid(m) && Grew(root, old(Now(m)), Now(m)) && m.allocator.end == old(m.allocator.end)
      ensures r.Some? <==> old(Missing(m.mem, root, vpn) <= Frames.Unallocated(m.allocator))
      ensures r.None? ==> Frames.Unallocated(m.allocator) == 0
      ensures r.Some? ==> LeafTable(m.mem, root, vpn) == Some(r.value)
      ensures r.Some? ==> Frames.Unallocated(m.allocator) == old(Frames.Unallocated(m.allocator) - Missing(m.mem, root, vpn))
    {
      var p := Indexes(vpn);
      ghost var s, free, missing := Now(m), Frames.Unallocated(m.allocator), Missing(m.mem, root, vpn);
      assert EntryFits(m.mem, place, root, p.top);
      var ppn := root;
      var level := 0;
      ghost var used := 0;
      while level < 2
        invariant 0 <= level <= 2 && Valid(m) && ppn in place && m.allocator.end == old(m.allocator.end)
        invariant Grew(root, s, Now(m))
        invariant Frames.Unallocated(m.allocator) == free - used
        invariant level == 0 ==> ppn == root && Now(m) == s && used == 0
        invariant level == 1 ==> Child(m.mem, root, p.top) == Some(ppn) && place[ppn] == Mid(p.top)
        invariant level == 1 ==> missing == used + (if Child(m.mem, ppn, p.mid).None? then 1 else 0)
        invariant level == 2 ==> LeafTable(m.mem, root, vpn) == Some(ppn) && missing == used
      {
        ghost var before := Now(m);
        var slot := if level == 0 then p.top else p.mid;
        ghost var created := Child(m.mem, ppn, slot).None?;
        var next := Descend(m, ppn, slot);
        GrewTwice(root, s, before, Now(m));
        if next.None? {
          return None;
        }
        used := used + if created then 1 else 0;
        ppn := next.value;
        level := level + 1;
      }
      return Some(ppn);
    }

    /** Write the leaf entry of a page whose low table t exists. */
    method WriteEntry(m: Frames.Machine, vpn: nat, t: nat, bits: nat)
      requires Valid(m) && vpn < VPNS && bits < WORD && LeafTable(m.mem, root, vpn) == Some(t)
      modifies m`mem, this`tr
      ensures Valid(m) && GrewTree(old(Now(m)), Now(m))
      ensures tr == if PteValid(bits) then old(tr)[vpn := EntryOf(bits)] else old(tr) - {vpn}
    {
      ghost var e := if PteValid(bits) then Some(EntryOf(bits)) else None;
      WriteLeaf(m.mem, root, place, vpn, bits);
      WalkPlaces(m.mem, root, place, vpn);
      m.Store(t, StoreWord(m.mem[t], 8 * Indexes(vpn).low, bits));
      RefinesChanged(old(m.mem), m.mem, root, tr, vpn, e);
      tr := if e.Some? then tr[vpn := e.value] else tr - {vpn};
    }

    /** Map one page. */
    method Map(m: Frames.Machine, vpn: nat, ppn: nat, flags: nat) returns (r: MapResult)
      requires Valid(m) && vpn < VPNS && ppn < PPNS && flags < 256
      modifies this`frames, this`place, this`tr, m
      ensures Valid(m) && GrewTree(old(Now(m)), Now(m)) && m.allocator.end == old(m.allocator.end)
      ensures r.OutOfFrames? <==> old(Missing(m.mem, root, vpn) > Frames.Unallocated(m.allocator))
      ensures r.OutOfFrames? ==> Frames.Unallocated(m.allocator) == 0
      ensures r.Mapped? <==> !r.OutOfFrames? && vpn !in old(tr)
      ensures tr == if r.Mapped? then old(tr)[vpn := Entry(ppn, WithV(flags))] else old(tr)
      ensures WithV(flags) == Or(flags, FLAG_V)
      ensures !r.OutOfFrames? ==>
                Frames.Unallocated(m.allocator) == old(Frames.Unallocated(m.allocator) - Missing(m.mem, root, vpn))
    {
      WithIsOr(flags);
      var t := FindPteCreate(m, vpn);
      if t.None? {
        return OutOfFrames;
      }
      ghost var grown := Now(m);
      WalkPlaces(m.mem, root, place, vpn);
      assert PteValid(Pte(m.mem, t.value, Indexes(vpn).low)) <==> Lookup(m.mem, root, vpn).Some?;
      if PteValid(Pte(m.mem, t.value, Indexes(vpn).low)) {
        return AlreadyMapped;
      }
      WithFlagsRange(flags);
      PteRoundTrip(ppn, WithV(flags));
      WriteEntry(m, vpn, t.value, PteNew(ppn, WithV(flags)));
      GrewTreeTwice(old(Now(m)), grown, Now(m));
      return Mapped;
    }

    /** `find_pte`, walking down from the root. */
    method FindPte(m: Frames.Machine, vpn: nat) returns (r: Option<nat>)
      requires Valid(m)
      ensures r == LeafTable(m.mem, root, vpn)
      ensures r.Some? ==> HasFrame(m.mem, r.value)
    {
      var p := Indexes(vpn);
      var ppn := root;
      var level := 0;
      assert EntryFits(m.mem, place, root, p.top);
      while level < 2
        invariant 0 <= level <= 2 && ppn in place
        invariant level == 0 ==> ppn == root
        invariant level == 1 ==> Child(m.mem, root, p.top) == Some(ppn) && place[ppn] == Mid(p.top)
        invariant level == 2 ==> LeafTable(m.mem, root, vpn) == Some(ppn)
      {
        var slot := if level == 0 then p.top else p.mid;
        assert EntryFits(m.mem, place, ppn, slot);
        var bits := Pte(m.mem, ppn, slot);
        if !PteValid(bits) {
          return None;
        }
        ppn := PtePpn(bits);
        level := level + 1;
      }
      return Some(ppn);
    }

    /** `translate`: the raw leaf entry, valid or not, if the upper levels exist. */
    method Translate(m: Frames.Machine, vpn: nat) returns (r: Option<nat>)
      requires Valid(m) && vpn < VPNS
      ensures r == RawEntry(m.mem, root, vpn)
      ensures vpn in tr <==> r.Some? && PteValid(r.value)
      ensures vpn in tr ==> tr[vpn] == EntryOf(r.value)
    {
      var t := FindPte(m, vpn);
      assert Lookup(m.mem, root, vpn) == if vpn in tr then Some(tr[vpn]) else None;
      if t.None? {
        return None;
      }
      return Some(Pte(m.mem, t.value, Indexes(vpn).low));
    }

    /** `translate_va`: the physical address of a byte, if the upper levels exist. */
    method TranslateVa(m: Frames.Machine, va: nat) returns (r: Option<nat>)
      requires Valid(m) && va < VA_SPACE
      ensures r == match RawEntry(m.mem, root, Floor(va))
                   case None => None
                   case Some(bits) => Some(PtePpn(bits) * PAGE_SIZE + PageOffset(va))
      ensures Floor(va) in tr ==> r == Some(tr[Floor(va)].ppn * PAGE_SIZE + PageOffset(va))
    {
      var bits := Translate(m, Floor(va));
      if bits.None? {
        return None;
      }
      return Some(PtePpn(bits.value) * PAGE_SIZE + PageOffset(va));
    }

    /** Unmap one page; panics, here fails, unless it is mapped. */
    method Unmap(m: Frames.Machine, vpn: nat) returns (ok: bool)
      requires Valid(m) && vpn < VPNS
      modifies m`mem, this`tr
      ensures Valid(m) && GrewTree(old(Now(m)), Now(m))
      ensures ok <==> vpn in old(tr)
      ensures tr == old(tr) - {vpn}
    {
      var bits := Translate(m, vpn);
      if bits.None? || !PteValid(bits.value) {
        return false;
      }
      var t := FindPte(m, vpn);
      WriteEntry(m, vpn, t.value, 0);
      return true;
    }

    /** Replace the flags of a mapped page by flags | U | V. */
    method SetPteFlags(m: Frames.Machine, vpn: nat, flags: nat) returns (ok: bool)
      requires Valid(m) && vpn < VPNS && flags < 256
      modifies m`mem, this`tr
      ensures Valid(m) && GrewTree(old(Now(m)), Now(m))
      ensures ok <==> vpn in old(tr)
      ensures tr == if ok then old(tr)[vpn := Entry(old(tr)[vpn].ppn, WithUV(flags))] else old(tr)
      ensures WithUV(flags) == Or(Or(flags, FLAG_U), FLAG_V)
    {
      WithIsOr(flags);
      var bits := Translate(m, vpn);
      if bits.None? || !PteValid(bits.value) {
        return false;
      }
      var t := FindPte(m, vpn);
      var ppn := PtePpn(bits.value);
      WithFlagsRange(flags);
      PteRoundTrip(ppn, WithUV(flags));
      WriteEntry(m, vpn, t.value, PteNew(ppn, WithUV(flags)));
      return true;
    }
  }
}
