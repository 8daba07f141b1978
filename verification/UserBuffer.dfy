/** A user range seen from the kernel: the list of physical slices behind a
    virtual range, and writing through it. */
module UserBuffer {
  import opened Bytes
  import opened Options
  import opened Memory
  import opened Address
  import opened PageTable
  import opened AddressSpace
  import opened Seqs
  import Frames

  /** Bytes lo to hi of one frame. */
  datatype Slice = Slice(ppn: nat, lo: nat, hi: nat)

  function Min(a: nat, b: nat): nat {
    if a < b then a else b
  }

  function Addresses(s: Slice): (a: seq<nat>)
    requires s.lo <= s.hi
    ensures |a| == s.hi - s.lo && forall k :: 0 <= k < |a| ==> a[k] == s.ppn * PAGE_SIZE + s.lo + k
  {
    seq(s.hi - s.lo, k => s.ppn * PAGE_SIZE + s.lo + k)
  }

  predicate SlicesOk(slices: seq<Slice>) {
    forall i :: 0 <= i < |slices| ==> slices[i].lo <= slices[i].hi <= PAGE_SIZE
  }

  /** The physical addresses behind the slices, in order. */
  function Flat(slices: seq<Slice>): seq<nat>
    requires SlicesOk(slices)
  {
    if slices == [] then [] else Addresses(slices[0]) + Flat(slices[1..])
  }

  lemma {:induction false} FlatAppend(a: seq<Slice>, b: seq<Slice>)
    requires SlicesOk(a) && SlicesOk(b)
    ensures SlicesOk(a + b) && Flat(a + b) == Flat(a) + Flat(b)
  {
    if a == [] {
      assert a + b == b;
    } else {
      FlatAppend(a[1..], b);
      assert (a + b)[0] == a[0] && (a + b)[1..] == a[1..] + b;
      Assoc(Addresses(a[0]), Flat(a[1..]), Flat(b));
    }
  }

  // ---------------------------------------------------------------------
  // From a virtual range to slices
  // ---------------------------------------------------------------------

  /** The upper half of the canonical addresses. */
  const HIGH: nat := USIZE - USER_TOP

  /** A 39-bit address, sign-extended to a machine word. */
  predicate Canonical(va: nat) {
    va < USER_TOP || HIGH <= va < USIZE
  }

  /** What `translate_va` gives for an address of a mapped page. */
  ghost function Phys(tr: map<nat, Entry>, va: nat): nat
    requires Floor(VirtAddr(va)) in tr
  {
    tr[Floor(VirtAddr(va))].ppn * PAGE_SIZE + PageOffset(VirtAddr(va))
  }

  ghost predicate MappedRange(tr: map<nat, Entry>, lo: nat, hi: nat) {
    forall va: nat :: lo <= va < hi && Canonical(va) ==> Floor(VirtAddr(va)) in tr
  }

  /** Where the slice that begins at start ends: the next page or the end of
      the range, both taken as 39-bit addresses. */
  function Stop(start: nat, end: nat): nat {
    Min((Floor(VirtAddr(start)) + 1) * PAGE_SIZE, VirtAddr(end))
  }

  /** The next start is the stop address converted back to a machine word, which
      sign-extends it. */
  function Next(start: nat, end: nat): nat {
    ToUsize(Stop(start, end))
  }

  function SliceTo(ppn: nat, start: nat, stop: nat): Slice {
    Slice(ppn, PageOffset(start), if PageOffset(stop) == 0 then PAGE_SIZE else PageOffset(stop))
  }

  /** The loop ends; see `EndsExactly`. */
  predicate Ends(end: nat) {
    end < USER_TOP || VirtAddr(end) >= USER_TOP
  }

  /** How far the loop is from its end; one turn makes any start canonical. */
  function Left(start: nat, end: nat): nat {
    if start >= end then 0
    else if start >= HIGH then end - start
    else if start >= USER_TOP then 2 * USER_TOP + 1
    else USER_TOP - start + (if end > HIGH then end - HIGH else 0)
  }

  /** A turn below the top of user space stops at the next page, or at the end of
      the range if that is nearer. */
  lemma LowTurn(start: nat, end: nat)
    requires start < USER_TOP && start < end < USIZE && Ends(end)
    ensures var stop := Stop(start, end);
      && VirtAddr(start) == start && start < stop <= Min(end, USER_TOP) && stop <= (Floor(start) + 1) * PAGE_SIZE
      && (stop == (Floor(start) + 1) * PAGE_SIZE || stop == end)
      && Next(start, end) == if stop < USER_TOP then stop else HIGH
  {
    assert Floor(start) * PAGE_SIZE <= start < (Floor(start) + 1) * PAGE_SIZE <= USER_TOP;
  }

  /** A turn in the upper half does the same there. */
  lemma HighTurn(start: nat, end: nat)
    requires HIGH <= start < end < USIZE
    ensures var stop := Stop(start, end); var va := VirtAddr(start);
      && va == start - (USIZE - VA_SPACE) && va < stop <= (Floor(va) + 1) * PAGE_SIZE
      && (stop == (Floor(va) + 1) * PAGE_SIZE || stop == VirtAddr(end))
      && Next(start, end) == start + (stop - va) <= end && Ends(end)
  {
    var va := VirtAddr(start);
    assert va == start - (USIZE - VA_SPACE) && VirtAddr(end) == end - (USIZE - VA_SPACE);
    assert Floor(va) * PAGE_SIZE <= va < (Floor(va) + 1) * PAGE_SIZE;
  }

  /** Every turn comes nearer to the end and stays canonical. */
  lemma Advances(start: nat, end: nat)
    requires Canonical(start) && start < end < USIZE && Ends(end)
    ensures Canonical(Next(start, end)) && Left(Next(start, end), end) < Left(start, end) && start < Next(start, end)
  {
    if start < USER_TOP { LowTurn(start, end); } else { HighTurn(start, end); }
  }

  lemma NextCanonical(start: nat, end: nat)
    ensures Canonical(Next(start, end)) && (VirtAddr(end) < USER_TOP ==> Next(start, end) < USER_TOP)
  {
    assert VirtAddr(end) < VA_SPACE;
  }

  /** Also the first turn of a pointer that is not canonical. */
  lemma Nearer(start: nat, end: nat)
    requires start < end < USIZE && Ends(end)
    ensures Canonical(Next(start, end)) && Left(Next(start, end), end) < Left(start, end)
  {
    if Canonical(start) { Advances(start, end); } else { NextCanonical(start, end); }
  }

  // ---------------------------------------------------------------------
  // Exactly when the loop ends
  // ---------------------------------------------------------------------

  /** The start address after n turns. */
  function After(start: nat, end: nat, n: nat): nat
    decreases n
  {
    if n == 0 || start >= end then start else After(Next(start, end), end, n - 1)
  }

  lemma {:induction false} EndsAfter(start: nat, end: nat) returns (n: nat)
    requires Canonical(start) && end < USIZE && (Ends(end) || end <= start)
    ensures After(start, end, n) >= end
    decreases Left(start, end)
  {
    n := 0;
    if start < end {
      Advances(start, end);
      n := EndsAfter(Next(start, end), end);
      n := n + 1;
    }
  }

  /** With bit 38 of the end clear and the end past it, every start stays low. */
  lemma {:induction false} StaysLow(start: nat, end: nat, n: nat)
    requires start < USER_TOP && !Ends(end)
    ensures After(start, end, n) < USER_TOP
    decreases n
  {
    if n > 0 { StaysLow(Next(start, end), end, n - 1); }
  }

  /** From every start the loop ends if and only if the range is empty, ends below
      the top of user space, or has bit 38 of its end set. */
  lemma EndsExactly(start: nat, end: nat)
    requires end < USIZE
    ensures (exists n: nat :: After(start, end, n) >= end) <==> start >= end || Ends(end)
  {
    NextCanonical(start, end);
    if start >= end {
      assert After(start, end, 0) >= end;
    } else if Ends(end) {
      var n := EndsAfter(Next(start, end), end);
      assert After(start, end, n + 1) >= end;
    } else {
      forall n: nat
        ensures After(start, end, n) < end
      {
        if n > 0 { StaysLow(Next(start, end), end, n - 1); }
      }
    }
  }

  /** A range for which it never ends: it stands still at its own end. */
  lemma NoProgress(start: nat, end: nat)
    requires end >= VA_SPACE && start == VirtAddr(end) < USER_TOP
    ensures start < end && Next(start, end) == start
  {
  }

  // ---------------------------------------------------------------------
  // What it collects
  // ---------------------------------------------------------------------

  /** The slices collected from start on. */
  ghost function Slices(tr: map<nat, Entry>, start: nat, end: nat): seq<Slice>
    requires Canonical(start) && end < USIZE && (Ends(end) || end <= start) && MappedRange(tr, start, end)
    decreases Left(start, end)
  {
    if start >= end then []
    else
      Advances(start, end);
      [SliceTo(tr[Floor(VirtAddr(start))].ppn, VirtAddr(start), Stop(start, end))] + Slices(tr, Next(start, end), end)
  }

  /** The k-th address collected from start on: the upper half follows the lower. */
  function Visit(start: nat, k: nat): nat {
    if start >= HIGH || start + k < USER_TOP then start + k else HIGH + (start + k - USER_TOP)
  }

  ghost predicate TranslatesAt(tr: map<nat, Entry>, va: nat, p: nat) {
    Floor(VirtAddr(va)) in tr && p == Phys(tr, va)
  }

  /** The addresses are those of the virtual bytes visited from start on. */
  ghost predicate Translates(tr: map<nat, Entry>, start: nat, addrs: seq<nat>) {
    forall k: nat :: k < |addrs| ==> TranslatesAt(tr, Visit(start, k), addrs[k])
  }

  /** Bytes from va up to the next page are on the page of va. */
  lemma SamePage(va: nat, k: nat)
    requires va + k < (Floor(va) + 1) * PAGE_SIZE
    ensures Floor(va + k) == Floor(va) && PageOffset(va + k) == PageOffset(va) + k
  {
  }

  /** A turn goes forward and stays on its page. */
  lemma TurnForward(start: nat, end: nat)
    requires Canonical(start) && start < end < USIZE && Ends(end)
    ensures VirtAddr(start) < Stop(start, end) <= (Floor(VirtAddr(start)) + 1) * PAGE_SIZE
  {
    if start < USER_TOP { LowTurn(start, end); } else { HighTurn(start, end); }
  }

  lemma VisitInTurn(start: nat, end: nat, k: nat)
    requires Canonical(start) && start < end < USIZE && Ends(end) && VirtAddr(start) + k < Stop(start, end)
    ensures Visit(start, k) == start + k && VirtAddr(start + k) == VirtAddr(start) + k
  {
    if start < USER_TOP { LowTurn(start, end); } else { HighTurn(start, end); }
  }

  /** The slice of one turn. */
  lemma OneSlice(tr: map<nat, Entry>, start: nat, end: nat)
    requires Canonical(start) && start < end < USIZE && Ends(end) && Floor(VirtAddr(start)) in tr
    ensures var va, stop := VirtAddr(start), Stop(start, end); var s := SliceTo(tr[Floor(va)].ppn, va, stop);
      s.lo <= s.hi <= PAGE_SIZE && |Addresses(s)| == stop - va > 0 && Translates(tr, start, Addresses(s))
  {
    var va, stop := VirtAddr(start), Stop(start, end);
    var s := SliceTo(tr[Floor(va)].ppn, va, stop);
    TurnForward(start, end);
    SliceShape(tr[Floor(va)].ppn, va, stop);
    forall k: nat | k < |Addresses(s)|
      ensures TranslatesAt(tr, Visit(start, k), Addresses(s)[k])
    {
      SamePage(va, k);
      VisitInTurn(start, end, k);
    }
  }

  lemma SliceShape(ppn: nat, va: nat, stop: nat)
    requires va < stop <= (Floor(va) + 1) * PAGE_SIZE
    ensures var s := SliceTo(ppn, va, stop); s.lo <= s.hi <= PAGE_SIZE && s.hi - s.lo == stop - va && s.lo == PageOffset(va)
  {
    if stop == (Floor(va) + 1) * PAGE_SIZE {
      assert PageOffset(stop) == 0;
    } else {
      SamePage(va, stop - va);
    }
  }

  lemma VisitOn(start: nat, end: nat, k: nat)
    requires Canonical(start) && start < end < USIZE && Ends(end)
    ensures Stop(start, end) > VirtAddr(start)
    ensures Visit(start, Stop(start, end) - VirtAddr(start) + k) == Visit(Next(start, end), k)
  {
    if start < USER_TOP { LowTurn(start, end); } else { HighTurn(start, end); }
  }

  lemma TranslatesAppend(tr: map<nat, Entry>, start: nat, end: nat, a: seq<nat>, b: seq<nat>)
    requires Canonical(start) && start < end < USIZE && Ends(end) && |a| == Stop(start, end) - VirtAddr(start)
    requires Translates(tr, start, a) && Translates(tr, Next(start, end), b)
    ensures Translates(tr, start, a + b)
  {
    forall k: nat | k < |a + b|
      ensures TranslatesAt(tr, Visit(start, k), (a + b)[k])
    {
      if k >= |a| {
        VisitOn(start, end, k - |a|);
        assert TranslatesAt(tr, Visit(Next(start, end), k - |a|), b[k - |a|]);
      }
    }
  }

  /** The slices are, byte for byte, what address-by-address translation gives:
      the part of the range in the lower half, then the part in the upper half. */
  lemma {:induction false} SlicesTranslate(tr: map<nat, Entry>, start: nat, end: nat)
    requires Canonical(start) && end < USIZE && (Ends(end) || end <= start) && MappedRange(tr, start, end)
    ensures var s := Slices(tr, start, end);
      SlicesOk(s) && |Flat(s)| == Collected(start, end) && Translates(tr, start, Flat(s))
    decreases Left(start, end)
  {
    if start < end {
      Advances(start, end);
      OneSlice(tr, start, end);
      var s := SliceTo(tr[Floor(VirtAddr(start))].ppn, VirtAddr(start), Stop(start, end));
      var rest := Slices(tr, Next(start, end), end);
      SlicesTranslate(tr, Next(start, end), end);
      assert Slices(tr, start, end) == [s] + rest && ([s] + rest)[1..] == rest;
      TranslatesAppend(tr, start, end, Addresses(s), Flat(rest));
      CollectedTurn(start, end);
    }
  }

  /** How many bytes of a range are collected. */
  function Collected(start: nat, end: nat): nat {
    if start >= end then 0
    else if start >= HIGH then end - start
    else if start >= USER_TOP then 0
    else Min(end, USER_TOP) - start + (if end > HIGH then end - HIGH else 0)
  }

  lemma CollectedTurn(start: nat, end: nat)
    requires Canonical(start) && start < end < USIZE && Ends(end)
    ensures Collected(start, end) == Stop(start, end) - VirtAddr(start) + Collected(Next(start, end), end)
  {
    if start < USER_TOP { LowTurn(start, end); } else { HighTurn(start, end); }
  }

  /** A range that begins in user space is collected in full exactly when it ends
      at or below the top of user space. */
  lemma WholeRange(tr: map<nat, Entry>, ptr: nat, len: nat)
    requires ptr < USER_TOP && ptr + len < USIZE && Ends(ptr + len) && MappedRange(tr, ptr, ptr + len)
    ensures SlicesOk(Slices(tr, ptr, ptr + len))
    ensures |Flat(Slices(tr, ptr, ptr + len))| == len <==> ptr + len <= USER_TOP
  {
    SlicesTranslate(tr, ptr, ptr + len);
  }

  /** Two bytes at the last user address: only one is collected. */
  lemma ShortAtTop(tr: map<nat, Entry>)
    requires USER_TOP / PAGE_SIZE - 1 in tr
    ensures MappedRange(tr, USER_TOP - 1, USER_TOP + 1)
    ensures SlicesOk(Slices(tr, USER_TOP - 1, USER_TOP + 1)) && |Flat(Slices(tr, USER_TOP - 1, USER_TOP + 1))| == 1
  {
    SlicesTranslate(tr, USER_TOP - 1, USER_TOP + 1);
  }

  /** The frame of the page an address is on, by `translate(..).unwrap().ppn()`. */
  method FrameAt(table: Table, m: Frames.Machine, start: nat) returns (r: Option<nat>)
    requires table.Valid(m)
    ensures Floor(VirtAddr(start)) in table.tr ==> r == Some(table.tr[Floor(VirtAddr(start))].ppn)
  {
    var bits := table.Translate(m, Floor(VirtAddr(start)));
    if bits.None? {
      return None;
    }
    return Some(PtePpn(bits.value));
  }

  /** The pointer the first turn takes ptr for: its low 39 bits, sign-extended. */
  function Extended(ptr: nat): nat {
    ToUsize(VirtAddr(ptr))
  }

  /** Every page that is read is mapped. */
  ghost predicate Readable(tr: map<nat, Entry>, ptr: nat, end: nat) {
    ptr < end ==> Floor(VirtAddr(ptr)) in tr && MappedRange(tr, Extended(ptr), end)
  }

  /** What is collected for any pointer: the slices of the extended pointer, or one
      slice when that is not below the end, which panics if it is backwards. */
  ghost function Gathered(tr: map<nat, Entry>, ptr: nat, end: nat): Option<seq<Slice>>
    requires end < USIZE && (Ends(end) || end <= ptr) && Readable(tr, ptr, end)
  {
    if ptr >= end then Some([])
    else if Extended(ptr) < end then Some(Slices(tr, Extended(ptr), end))
    else
      var s := SliceTo(tr[Floor(VirtAddr(ptr))].ppn, VirtAddr(ptr), Stop(ptr, end));
      if s.lo <= s.hi then Some([s]) else None
  }

  ghost function Joined(v: seq<Slice>, rest: Option<seq<Slice>>): Option<seq<Slice>> {
    match rest
    case None => None
    case Some(s) => Some(v + s)
  }

  lemma JoinedNothing(rest: Option<seq<Slice>>)
    ensures Joined([], rest) == rest
  {
    if rest.Some? { assert [] + rest.value == rest.value; }
  }

  lemma JoinedSnoc(v: seq<Slice>, s: Slice, rest: Option<seq<Slice>>)
    ensures Joined(v, Joined([s], rest)) == Joined(v + [s], rest)
  {
    if rest.Some? { Assoc(v, [s], rest.value); }
  }

  /** A canonical pointer is its own extension, so its slices are gathered. */
  lemma GatheredCanonical(tr: map<nat, Entry>, ptr: nat, end: nat)
    requires Canonical(ptr) && end < USIZE && (Ends(end) || end <= ptr) && MappedRange(tr, ptr, end)
    ensures Extended(ptr) == ptr && Readable(tr, ptr, end) && Gathered(tr, ptr, end) == Some(Slices(tr, ptr, end))
  {
    ExtendedIs(ptr);
  }

  lemma ExtendedIs(ptr: nat)
    ensures Canonical(Extended(ptr)) && VirtAddr(Extended(ptr)) == VirtAddr(ptr)
    ensures Canonical(ptr) ==> Extended(ptr) == ptr
  {
    assert VirtAddr(ptr) < VA_SPACE;
    if HIGH <= ptr < USIZE {
      assert VirtAddr(ptr) == ptr - (USIZE - VA_SPACE);
    }
  }

  /** One turn for any pointer. */
  lemma GatherTurn(tr: map<nat, Entry>, ptr: nat, end: nat)
    requires ptr < end < USIZE && Ends(end) && Readable(tr, ptr, end)
    ensures Readable(tr, Next(ptr, end), end)
    ensures var s := SliceTo(tr[Floor(VirtAddr(ptr))].ppn, VirtAddr(ptr), Stop(ptr, end));
      Gathered(tr, ptr, end) == if s.lo > s.hi then None else Joined([s], Gathered(tr, Next(ptr, end), end))
  {
    var e := Extended(ptr);
    ExtendedIs(ptr);
    NextCanonical(ptr, end);
    assert Next(ptr, end) == Next(e, end);
    if e < end {
      Advances(e, end);
      OneSlice(tr, e, end);
      GatheredCanonical(tr, Next(ptr, end), end);
    } else {
      PastEnd(ptr, end);
      var s := SliceTo(tr[Floor(VirtAddr(ptr))].ppn, VirtAddr(ptr), Stop(ptr, end));
      assert [s] + [] == [s];
    }
  }

  /** When the extended pointer is not below the end the loop ends after one turn. */
  lemma PastEnd(ptr: nat, end: nat)
    requires ptr < end < USIZE && Ends(end) && Extended(ptr) >= end
    ensures Next(ptr, end) >= end
  {
    ExtendedIs(ptr);
  }

  /** `translated_byte_buffer`, on all ranges for which its loop ends. An unmapped
      page panics, here gives None, or is read through a stale entry; mapped
      pages give their slices. */
  method TranslatedByteBuffer(table: Table, m: Frames.Machine, ptr: nat, len: nat) returns (r: Option<seq<Slice>>)
    requires table.Valid(m) && ptr + len < USIZE && (Ends(ptr + len) || len == 0)
    ensures Readable(table.tr, ptr, ptr + len) ==> r == Gathered(table.tr, ptr, ptr + len)
  {
    var start: nat, end: nat := ptr, ptr + len;
    ghost var tr := table.tr;
    ghost var mapped := Readable(tr, ptr, end);
    var v: seq<Slice> := [];
    if mapped { JoinedNothing(Gathered(tr, ptr, end)); }
    while start < end
      invariant Ends(end) || end <= start
      invariant mapped ==> Readable(tr, start, end) && Joined(v, Gathered(tr, start, end)) == Gathered(tr, ptr, end)
      decreases Left(start, end)
    {
      if mapped { GatherTurn(tr, start, end); }
      var ppn := FrameAt(table, m, start);
      if ppn.None? {
        return None;
      }
      var s := SliceTo(ppn.value, VirtAddr(start), Stop(start, end));
      if s.lo > s.hi {
        return None;
      }
      Nearer(start, end);
      if mapped { JoinedSnoc(v, s, Gathered(tr, Next(start, end), end)); }
      v := v + [s];
      start := Next(start, end);
    }
    assert v + [] == v;
    return Some(v);
  }

  // ---------------------------------------------------------------------
  // Writing through the slices
  // ---------------------------------------------------------------------

  ghost function PhysByte(mem: Mem, p: nat): byte
    requires HasFrame(mem, p / PAGE_SIZE)
  {
    mem[p / PAGE_SIZE][p % PAGE_SIZE]
  }

  ghost predicate Backed(mem: Mem, slices: seq<Slice>) {
    forall i :: 0 <= i < |slices| ==> slices[i].ppn in mem
  }

  /** From mem to mem' data was stored at these addresses and nowhere else. */
  ghost predicate Stored(mem: Mem, mem': Mem, addrs: seq<nat>, data: seq<byte>) {
    && |addrs| == |data| && MemOk(mem) && MemOk(mem') && mem'.Keys == mem.Keys
    && (forall k :: 0 <= k < |addrs| ==> addrs[k] / PAGE_SIZE in mem && PhysByte(mem', addrs[k]) == data[k])
    && (forall p: nat :: p / PAGE_SIZE in mem && p !in addrs ==> PhysByte(mem', p) == PhysByte(mem, p))
  }

  /** The bytes of one frame after a splice, by physical address. */
  lemma SpliceByte(mem: Mem, s: Slice, d: seq<byte>, p: nat)
    requires MemOk(mem) && s.ppn in mem && s.lo + |d| <= s.hi <= PAGE_SIZE && p / PAGE_SIZE in mem
    ensures var mem' := mem[s.ppn := Spliced(mem[s.ppn], s.lo, d)];
      var at := s.ppn * PAGE_SIZE + s.lo;
      PhysByte(mem', p) == if at <= p < at + |d| then d[p - at] else PhysByte(mem, p)
  {
    var at := s.ppn * PAGE_SIZE + s.lo;
    assert p == p / PAGE_SIZE * PAGE_SIZE + p % PAGE_SIZE;
    if at <= p < at + |d| {
      assert p / PAGE_SIZE == s.ppn && p % PAGE_SIZE == p - s.ppn * PAGE_SIZE;
    }
  }

  /** Which addresses the first n bytes of a slice have. */
  lemma InAddresses(s: Slice, n: nat, p: nat)
    requires s.lo + n <= s.hi
    ensures p in Addresses(s)[..n] <==> s.ppn * PAGE_SIZE + s.lo <= p < s.ppn * PAGE_SIZE + s.lo + n
  {
    var k := p - (s.ppn * PAGE_SIZE + s.lo);
    assert 0 <= k < n ==> Addresses(s)[..n][k] == p;
  }

  /** Storing into the next slice extends what is stored. */
  lemma StoredMore(mem: Mem, mem1: Mem, addrs: seq<nat>, data: seq<byte>, s: Slice, d: seq<byte>)
    requires Stored(mem, mem1, addrs, data) && s.ppn in mem && s.lo + |d| <= s.hi <= PAGE_SIZE
    requires Distinct(addrs + Addresses(s)[..|d|])
    ensures Stored(mem, mem1[s.ppn := Spliced(mem1[s.ppn], s.lo, d)], addrs + Addresses(s)[..|d|], data + d)
  {
    var mem2 := mem1[s.ppn := Spliced(mem1[s.ppn], s.lo, d)];
    var a := addrs + Addresses(s)[..|d|];
    forall k | 0 <= k < |a|
      ensures a[k] / PAGE_SIZE in mem && PhysByte(mem2, a[k]) == (data + d)[k]
    {
      if k < |addrs| {
        NotInTail(addrs, Addresses(s)[..|d|], k);
        InAddresses(s, |d|, a[k]);
      } else {
        assert a[k] == s.ppn * PAGE_SIZE + s.lo + (k - |addrs|);
        assert a[k] / PAGE_SIZE == s.ppn;
      }
      SpliceByte(mem1, s, d, a[k]);
    }
    forall p: nat | p / PAGE_SIZE in mem && p !in a
      ensures PhysByte(mem2, p) == PhysByte(mem, p)
    {
      SpliceByte(mem1, s, d, p);
      InAddresses(s, |d|, p);
    }
  }

  lemma NotInTail(a: seq<nat>, b: seq<nat>, k: nat)
    requires k < |a| && Distinct(a + b)
    ensures a[k] !in b
  {
    forall j | 0 <= j < |b|
      ensures b[j] != a[k]
    {
      assert (a + b)[k] == a[k] && (a + b)[|a| + j] == b[j];
    }
  }

  lemma FlatSnoc(slices: seq<Slice>, i: nat)
    requires SlicesOk(slices) && i < |slices|
    ensures Flat(slices[..i + 1]) == Flat(slices[..i]) + Addresses(slices[i])
  {
    FlatAppend(slices[..i], [slices[i]]);
    assert slices[..i + 1] == slices[..i] + [slices[i]];
    assert [slices[i]][1..] == [];
    assert Flat([slices[i]]) == Addresses(slices[i]) + Flat([]);
  }

  lemma FlatPrefix(slices: seq<Slice>, i: nat)
    requires SlicesOk(slices) && i <= |slices|
    ensures |Flat(slices[..i])| <= |Flat(slices)| && Flat(slices)[..|Flat(slices[..i])|] == Flat(slices[..i])
  {
    FlatAppend(slices[..i], slices[i..]);
    assert slices == slices[..i] + slices[i..];
  }

  lemma FlatAt(slices: seq<Slice>, i: nat, n: nat)
    requires SlicesOk(slices) && i < |slices| && n <= slices[i].hi - slices[i].lo
    ensures var done := Flat(slices[..i]);
      && |done| + n <= |Flat(slices)| && Flat(slices)[..|done| + n] == done + Addresses(slices[i])[..n]
      && Flat(slices[..i + 1]) == done + Addresses(slices[i])
  {
    FlatSnoc(slices, i);
    FlatPrefix(slices, i + 1);
    PrefixPart(Flat(slices), Flat(slices[..i]), Addresses(slices[i]), n);
  }

  lemma PrefixPart(all: seq<nat>, a: seq<nat>, b: seq<nat>, n: nat)
    requires |a| + |b| <= |all| && all[..|a| + |b|] == a + b && n <= |b|
    ensures all[..|a| + n] == a + b[..n]
  {
    assert all[..|a| + n] == all[..|a| + |b|][..|a| + n];
  }

  lemma StoredPart(mem: Mem, mem1: Mem, addrs: seq<nat>, buf: seq<byte>, s: Slice, from: nat, to: nat)
    requires from <= to <= |addrs| && to <= |buf| && Stored(mem, mem1, addrs[..from], buf[..from])
    requires s.ppn in mem && s.lo + (to - from) <= s.hi <= PAGE_SIZE
    requires addrs[..to] == addrs[..from] + Addresses(s)[..to - from] && Distinct(addrs[..from] + Addresses(s)[..to - from])
    ensures Stored(mem, mem1[s.ppn := Spliced(mem1[s.ppn], s.lo, buf[from..to])], addrs[..to], buf[..to])
  {
    StoredMore(mem, mem1, addrs[..from], buf[..from], s, buf[from..to]);
    assert buf[..to] == buf[..from] + buf[from..to];
  }

  lemma FlatGrows(slices: seq<Slice>, i: nat)
    requires SlicesOk(slices) && i < |slices|
    ensures |Flat(slices[..i + 1])| == |Flat(slices[..i])| + (slices[i].hi - slices[i].lo) <= |Flat(slices)|
  {
    FlatAt(slices, i, slices[i].hi - slices[i].lo);
  }

  lemma FlatSplit(slices: seq<Slice>, i: nat, from: nat, to: nat)
    requires SlicesOk(slices) && i < |slices| && Distinct(Flat(slices))
    requires from == |Flat(slices[..i])| <= to <= |Flat(slices)| && to - from <= slices[i].hi - slices[i].lo
    ensures Flat(slices)[..to] == Flat(slices)[..from] + Addresses(slices[i])[..to - from]
    ensures Distinct(Flat(slices)[..from] + Addresses(slices[i])[..to - from])
  {
    FlatAt(slices, i, to - from);
    assert Flat(slices)[..from] == Flat(slices)[..to][..from];
    assert forall j :: 0 <= j < to ==> Flat(slices)[..to][j] == Flat(slices)[j];
  }

  class Buffer {
    const slices: seq<Slice>

    constructor (slices: seq<Slice>)
      ensures this.slices == slices
    {
      this.slices := slices;
    }

    /** `len`: the slice lengths added up. */
    method Len() returns (total: nat)
      requires SlicesOk(slices)
      ensures total == |Flat(slices)|
    {
      total := 0;
      var i := 0;
      while i < |slices|
        invariant 0 <= i <= |slices| && total == |Flat(slices[..i])|
      {
        FlatGrows(slices, i);
        total := total + (slices[i].hi - slices[i].lo);
        i := i + 1;
      }
      assert slices[..i] == slices;
    }

    /** Store the next part of buf into slice i. */
    method Part(m: Frames.Machine, ghost mem0: Mem, buf: seq<byte>, i: nat, writeLen: nat, len: nat) returns (writeEnd: nat)
      requires m.Valid() && SlicesOk(slices) && Backed(mem0, slices) && Distinct(Flat(slices)) && i < |slices|
      requires writeLen == |Flat(slices[..i])| <= len <= |buf| && len <= |Flat(slices)|
      requires Stored(mem0, m.mem, Flat(slices)[..writeLen], buf[..writeLen])
      modifies m`mem
      ensures m.Valid() && writeEnd == Min(len, |Flat(slices[..i + 1])|)
      ensures |Flat(slices[..i + 1])| == writeLen + (slices[i].hi - slices[i].lo)
      ensures Stored(mem0, m.mem, Flat(slices)[..writeEnd], buf[..writeEnd])
    {
      FlatGrows(slices, i);
      var s := slices[i];
      writeEnd := Min(len, writeLen + (s.hi - s.lo));
      FlatSplit(slices, i, writeLen, writeEnd);
      StoredPart(mem0, m.mem, Flat(slices), buf, s, writeLen, writeEnd);
      m.Store(s.ppn, Spliced(m.mem[s.ppn], s.lo, buf[writeLen..writeEnd]));
    }

    /** `write`: the first min(len, |buf|) bytes are stored at the slices'
        addresses in order, and nothing else changes. */
    method Write(m: Frames.Machine, buf: seq<byte>) returns (len: nat)
      requires slices != [] && SlicesOk(slices) && Distinct(Flat(slices))
      requires m.Valid() && Backed(m.mem, slices)
      modifies m`mem
      ensures m.Valid() && len == Min(|Flat(slices)|, |buf|)
      ensures Stored(old(m.mem), m.mem, Flat(slices)[..len], buf[..len])
    {
      ghost var mem0, flat := m.mem, Flat(slices);
      var total := Len();
      len := Min(total, |buf|);
      var writeLen, i := 0, 0;
      while i < |slices|
        invariant 0 <= i <= |slices| && m.Valid()
        invariant writeLen == |Flat(slices[..i])| <= len && (i > 0 ==> writeLen < len)
        invariant Stored(mem0, m.mem, flat[..writeLen], buf[..writeLen])
      {
        var writeEnd := Part(m, mem0, buf, i, writeLen, len);
        if writeEnd == len {
          break;
        }
        writeLen := writeLen + (slices[i].hi - slices[i].lo);
        i := i + 1;
      }
      assert slices[..|slices|] == slices;
    }
  }

  // ---------------------------------------------------------------------
  // A user write is a write to virtual memory
  // ---------------------------------------------------------------------

  /** Every owned page translates to its own frame. */
  ghost predicate OwnPages(tr: map<nat, Entry>, owned: map<nat, nat>) {
    Injective(owned) && forall v :: v in owned ==> v < VPNS && v in tr && tr[v].ppn == owned[v]
  }

  ghost predicate OwnsRange(owned: map<nat, nat>, lo: nat, hi: nat) {
    forall va: nat :: lo <= va < hi ==> Floor(va) in owned
  }

  lemma OwnedMapped(tr: map<nat, Entry>, owned: map<nat, nat>, lo: nat, hi: nat)
    requires OwnPages(tr, owned) && hi <= USER_TOP && OwnsRange(owned, lo, hi)
    ensures MappedRange(tr, lo, hi)
  {
    forall va: nat | lo <= va < hi && Canonical(va)
      ensures Floor(VirtAddr(va)) in tr
    {
      assert VirtAddr(va) == va;
    }
  }

  lemma PhysIs(tr: map<nat, Entry>, owned: map<nat, nat>, va: nat)
    requires OwnPages(tr, owned) && Floor(va) in owned
    ensures Floor(VirtAddr(va)) in tr && Phys(tr, va) / PAGE_SIZE == owned[Floor(va)] && Phys(tr, va) % PAGE_SIZE == va % PAGE_SIZE
  {
    assert VirtAddr(va) == va;
  }

  /** Owned addresses have different physical addresses. */
  lemma PhysInjective(tr: map<nat, Entry>, owned: map<nat, nat>, va: nat, vb: nat)
    requires OwnPages(tr, owned) && Floor(va) in owned && Floor(vb) in owned
    ensures Floor(VirtAddr(va)) in tr && Floor(VirtAddr(vb)) in tr && (Phys(tr, va) == Phys(tr, vb) ==> va == vb)
  {
    PhysIs(tr, owned, va);
    PhysIs(tr, owned, vb);
  }

  /** The addresses are those of the virtual bytes from ptr on. */
  ghost predicate TranslatesFrom(tr: map<nat, Entry>, ptr: nat, f: seq<nat>) {
    forall k: nat :: k < |f| ==> TranslatesAt(tr, ptr + k, f[k])
  }

  lemma TranslatesPrefix(tr: map<nat, Entry>, ptr: nat, f: seq<nat>, n: nat)
    requires TranslatesFrom(tr, ptr, f) && n <= |f|
    ensures TranslatesFrom(tr, ptr, f[..n])
  {
  }

  lemma BytesApart(tr: map<nat, Entry>, owned: map<nat, nat>, va: nat, vb: nat, p: nat, q: nat)
    requires OwnPages(tr, owned) && Floor(va) in owned && Floor(vb) in owned && va != vb
    requires TranslatesAt(tr, va, p) && TranslatesAt(tr, vb, q)
    ensures p != q
  {
    PhysInjective(tr, owned, va, vb);
  }

  lemma OwnedApart(tr: map<nat, Entry>, owned: map<nat, nat>, ptr: nat, f: seq<nat>)
    requires OwnPages(tr, owned) && OwnsRange(owned, ptr, ptr + |f|) && TranslatesFrom(tr, ptr, f)
    ensures Distinct(f)
  {
    forall i, j | 0 <= i < j < |f|
      ensures f[i] != f[j]
    {
      BytesApart(tr, owned, ptr + i, ptr + j, f[i], f[j]);
    }
  }

  /** The slices of an owned range are its bytes in order, and never overlap, so
      `write` may use them. */
  lemma OwnedSlices(tr: map<nat, Entry>, owned: map<nat, nat>, ptr: nat, len: nat)
    requires OwnPages(tr, owned) && ptr < USER_TOP && ptr + len <= USER_TOP && OwnsRange(owned, ptr, ptr + len)
    ensures MappedRange(tr, ptr, ptr + len) && SlicesOk(Slices(tr, ptr, ptr + len))
    ensures var f := Flat(Slices(tr, ptr, ptr + len));
      |f| == len && TranslatesFrom(tr, ptr, f) && Distinct(f)
  {
    OwnedMapped(tr, owned, ptr, ptr + len);
    SlicesTranslate(tr, ptr, ptr + len);
    var f := Flat(Slices(tr, ptr, ptr + len));
    VisitsLow(tr, ptr, f);
    OwnedApart(tr, owned, ptr, f);
  }

  /** Below the top of user space the bytes visited are consecutive. */
  lemma VisitsLow(tr: map<nat, Entry>, ptr: nat, addrs: seq<nat>)
    requires Translates(tr, ptr, addrs) && ptr + |addrs| <= USER_TOP
    ensures TranslatesFrom(tr, ptr, addrs)
  {
    forall k: nat | k < |addrs|
      ensures TranslatesAt(tr, ptr + k, addrs[k])
    {
      assert TranslatesAt(tr, Visit(ptr, k), addrs[k]);
    }
  }

  /** Data stored at the addresses of virtual bytes from ptr on is what those
      bytes hold, and every other owned virtual byte is as before. */
  lemma StoredShows(mem: Mem, mem': Mem, tr: map<nat, Entry>, owned: map<nat, nat>, ptr: nat, f: seq<nat>, data: seq<byte>, va: nat)
    requires OwnPages(tr, owned) && (forall v :: v in owned ==> owned[v] in mem) && OwnsRange(owned, ptr, ptr + |f|)
    requires Stored(mem, mem', f, data) && TranslatesFrom(tr, ptr, f)
    requires Floor(va) in owned
    ensures ByteAt(mem', owned, va) == if ptr <= va < ptr + |data| then data[va - ptr] else ByteAt(mem, owned, va)
  {
    PhysIs(tr, owned, va);
    var p := Phys(tr, va);
    if ptr <= va < ptr + |data| {
      assert TranslatesAt(tr, ptr + (va - ptr), f[va - ptr]);
    } else {
      forall k | 0 <= k < |f|
        ensures f[k] != p
      {
        assert TranslatesAt(tr, ptr + k, f[k]);
        PhysInjective(tr, owned, ptr + k, va);
      }
    }
  }

  lemma PrefixShows(mem: Mem, mem': Mem, tr: map<nat, Entry>, owned: map<nat, nat>, ptr: nat, f: seq<nat>, data: seq<byte>, va: nat)
    requires OwnPages(tr, owned) && (forall v :: v in owned ==> owned[v] in mem) && OwnsRange(owned, ptr, ptr + |f|)
    requires |data| <= |f| && Stored(mem, mem', f[..|data|], data) && TranslatesFrom(tr, ptr, f) && Floor(va) in owned
    ensures ByteAt(mem', owned, va) == if ptr <= va < ptr + |data| then data[va - ptr] else ByteAt(mem, owned, va)
  {
    TranslatesPrefix(tr, ptr, f, |data|);
    StoredShows(mem, mem', tr, owned, ptr, f[..|data|], data, va);
  }

  /** A write through slices that are the bytes of an owned range is a write to
      virtual memory. */
  lemma UserWrite(mem: Mem, mem': Mem, tr: map<nat, Entry>, owned: map<nat, nat>, ptr: nat, slices: seq<Slice>, data: seq<byte>, va: nat)
    requires OwnPages(tr, owned) && (forall v :: v in owned ==> owned[v] in mem) && Floor(va) in owned
    requires SlicesOk(slices) && TranslatesFrom(tr, ptr, Flat(slices)) && OwnsRange(owned, ptr, ptr + |Flat(slices)|)
    requires |data| <= |Flat(slices)| && Stored(mem, mem', Flat(slices)[..|data|], data)
    ensures ByteAt(mem', owned, va) == if ptr <= va < ptr + |data| then data[va - ptr] else ByteAt(mem, owned, va)
  {
    PrefixShows(mem, mem', tr, owned, ptr, Flat(slices), data, va);
  }

  /** A frame none of whose bytes is stored to is unchanged. */
  lemma FrameKept(mem: Mem, mem': Mem, addrs: seq<nat>, data: seq<byte>, f: nat)
    requires Stored(mem, mem', addrs, data) && f in mem && forall k :: 0 <= k < |addrs| ==> addrs[k] / PAGE_SIZE != f
    ensures f in mem' && mem'[f] == mem[f]
  {
    forall i | 0 <= i < PAGE_SIZE
      ensures mem'[f][i] == mem[f][i]
    {
      var p := f * PAGE_SIZE + i;
      assert p / PAGE_SIZE == f && p % PAGE_SIZE == i;
      assert PhysByte(mem', p) == PhysByte(mem, p);
    }
  }

  /** The frames that hold the n bytes from ptr on. */
  ghost function RangeFrames(owned: map<nat, nat>, ptr: nat, n: nat): set<nat> {
    set va | ptr <= va < ptr + n && Floor(va) in owned :: owned[Floor(va)]
  }

  /** Writing to an owned range leaves every other frame alone. */
  lemma OthersKept(mem: Mem, mem': Mem, tr: map<nat, Entry>, owned: map<nat, nat>, ptr: nat, addrs: seq<nat>, data: seq<byte>)
    requires OwnPages(tr, owned) && OwnsRange(owned, ptr, ptr + |addrs|) && TranslatesFrom(tr, ptr, addrs)
    requires Stored(mem, mem', addrs, data)
    ensures Untouched(mem, mem', mem.Keys - RangeFrames(owned, ptr, |addrs|))
  {
    forall f | f in mem.Keys - RangeFrames(owned, ptr, |addrs|)
      ensures f in mem' && mem'[f] == mem[f]
    {
      forall k | 0 <= k < |addrs|
        ensures addrs[k] / PAGE_SIZE != f
      {
        assert TranslatesAt(tr, ptr + k, addrs[k]);
        PhysIs(tr, owned, ptr + k);
        assert owned[Floor(ptr + k)] in RangeFrames(owned, ptr, |addrs|);
      }
      FrameKept(mem, mem', addrs, data, f);
    }
  }

  /** In particular the page tables. */
  lemma TablesKept(mem: Mem, mem': Mem, live: set<nat>, place: map<nat, Place>, tr: map<nat, Entry>, owned: map<nat, nat>,
                   ptr: nat, n: nat, f: nat)
    requires PagesOk(live, place, tr, owned) && Untouched(mem, mem', mem.Keys - RangeFrames(owned, ptr, n)) && f in place && f in mem
    ensures f in mem' && mem'[f] == mem[f]
  {
    assert f !in RangeFrames(owned, ptr, n);
  }

  /** The slices of an owned range lie in its frames, and there are some. */
  lemma {:induction false} OwnedBacked(tr: map<nat, Entry>, owned: map<nat, nat>, mem: Mem, start: nat, end: nat)
    requires OwnPages(tr, owned) && end <= USER_TOP && OwnsRange(owned, start, end) && (forall v :: v in owned ==> owned[v] in mem)
    requires Canonical(start) && MappedRange(tr, start, end)
    ensures Backed(mem, Slices(tr, start, end)) && (start < end ==> Slices(tr, start, end) != [])
    decreases Left(start, end)
  {
    if start < end {
      Advances(start, end);
      assert VirtAddr(start) == start;
      OwnedBacked(tr, owned, mem, Next(start, end), end);
    }
  }

  /** The slices cover len virtual bytes from ptr on, byte for byte, in frames that hold memory. */
  ghost predicate Covers(slices: seq<Slice>, tr: map<nat, Entry>, mem: Mem, ptr: nat, len: nat) {
    && slices != [] && SlicesOk(slices) && Backed(mem, slices)
    && |Flat(slices)| == len && TranslatesFrom(tr, ptr, Flat(slices)) && Distinct(Flat(slices))
  }

  lemma OwnedCovers(tr: map<nat, Entry>, owned: map<nat, nat>, mem: Mem, ptr: nat, len: nat)
    requires OwnPages(tr, owned) && (forall v :: v in owned ==> owned[v] in mem)
    requires 0 < len && ptr + len <= USER_TOP && OwnsRange(owned, ptr, ptr + len)
    ensures MappedRange(tr, ptr, ptr + len) && Covers(Slices(tr, ptr, ptr + len), tr, mem, ptr, len)
  {
    OwnedSlices(tr, owned, ptr, len);
    OwnedBacked(tr, owned, mem, ptr, ptr + len);
  }

  /** `translated_byte_buffer` on an owned range. */
  method OwnedBuffer(space: Space, m: Frames.Machine, ptr: nat, len: nat) returns (slices: seq<Slice>)
    requires space.Valid(m) && 0 < len && ptr + len <= USER_TOP && OwnsRange(space.owned, ptr, ptr + len)
    ensures Covers(slices, space.table.tr, m.mem, ptr, len)
  {
    OwnedCovers(space.table.tr, space.owned, m.mem, ptr, len);
    GatheredCanonical(space.table.tr, ptr, ptr + len);
    var r := TranslatedByteBuffer(space.table, m, ptr, len);
    slices := r.value;
  }

  /** `UserBuffer::new(translated_byte_buffer(..))` and `write`, end to end: the
      virtual bytes from ptr on are the first bytes of buf, every other owned
      virtual byte is as before, no other frame of the machine has changed, and
      the address space is as valid as it was. */
  method WriteUser(space: Space, m: Frames.Machine, ptr: nat, len: nat, buf: seq<byte>) returns (n: nat)
    requires space.Valid(m) && 0 < len && ptr + len <= USER_TOP && OwnsRange(space.owned, ptr, ptr + len)
    modifies m`mem
    ensures space.Valid(m) && n == Min(len, |buf|)
    ensures forall va: nat :: Floor(va) in space.owned ==>
              ByteShows(old(m.mem), m.mem, space.owned, va, ptr, buf[..n])
    ensures Untouched(old(m.mem), m.mem, old(m.mem).Keys - RangeFrames(space.owned, ptr, n))
  {
    var slices := OwnedBuffer(space, m, ptr, len);
    n := WriteSlices(space, m, ptr, len, slices, buf);
  }

  ghost predicate ByteShows(mem: Mem, mem': Mem, owned: map<nat, nat>, va: nat, ptr: nat, data: seq<byte>) {
    && Floor(va) in owned && HasFrame(mem, owned[Floor(va)]) && HasFrame(mem', owned[Floor(va)])
    && ByteAt(mem', owned, va) == if ptr <= va < ptr + |data| then data[va - ptr] else ByteAt(mem, owned, va)
  }

  /** Writing through the slices of an owned range. */
  method WriteSlices(space: Space, m: Frames.Machine, ghost ptr: nat, ghost len: nat, slices: seq<Slice>, buf: seq<byte>)
    returns (n: nat)
    requires space.Valid(m) && Covers(slices, space.table.tr, m.mem, ptr, len) && OwnsRange(space.owned, ptr, ptr + len)
    modifies m`mem
    ensures space.Valid(m) && n == Min(len, |buf|)
    ensures forall va: nat :: Floor(va) in space.owned ==>
              ByteShows(old(m.mem), m.mem, space.owned, va, ptr, buf[..n])
    ensures Untouched(old(m.mem), m.mem, old(m.mem).Keys - RangeFrames(space.owned, ptr, n))
  {
    ghost var mem, tr, owned, place := m.mem, space.table.tr, space.owned, space.table.place;
    var buffer := new Buffer(slices);
    n := buffer.Write(m, buf);
    ghost var f := Flat(slices)[..n];
    TranslatesPrefix(tr, ptr, Flat(slices), n);
    OthersKept(mem, m.mem, tr, owned, ptr, f, buf[..n]);
    forall t | t in place
      ensures t in m.mem && m.mem[t] == mem[t]
    {
      TablesKept(mem, m.mem, m.live, place, tr, owned, ptr, n, t);
    }
    TreeFrame(mem, m.mem, space.table.root, place);
    RefinesSame(mem, m.mem, space.table.root, tr);
    forall va: nat | Floor(va) in owned
      ensures ByteShows(mem, m.mem, owned, va, ptr, buf[..n])
    {
      UserWrite(mem, m.mem, tr, owned, ptr, slices, buf[..n], va);
    }
  }
}
