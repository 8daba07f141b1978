/** A user program from its segments on: its space is loaded, forked and keeps its
    bytes. */
module Program {
  import opened Options
  import opened Memory
  import opened Address
  import opened PageTable
  import opened Layout
  import opened AddressSpace
  import opened Fork
  import Frames

  /** The part of `from_elf` that builds the space: the trampolines, then the
      segments. Fails only when segments overlap each other or the trampolines, or
      memory runs out. The space can be forked and dropped, and nothing that was
      live before has changed. */
  method FromElf(m: Frames.Machine, segs: seq<Segment>, trampoline: nat, signalTrampoline: nat) returns (r: Option<Space>)
    requires m.Valid() && m.allocator.end <= PPNS && trampoline < PPNS && signalTrampoline < PPNS && SegmentsOk(segs)
    modifies m
    ensures r.None? ==> (exists k: nat :: Clash(Trampolines(trampoline, signalTrampoline), segs, k)) || Frames.Unallocated(m.allocator) == 0
    ensures r.Some? ==> fresh(r.value) && fresh(r.value.table) && r.value.Valid(m)
    ensures r.Some? ==> NoClash(Trampolines(trampoline, signalTrampoline), segs, |segs|)
    ensures r.Some? ==> SegmentsLoaded(m.mem, r.value.owned, r.value.areas, 0, segs, |segs|)
    ensures r.Some? ==> (forall v: nat :: v in r.value.owned <==> InSegments(segs, |segs|, v))
    ensures r.Some? ==> LayoutOk(r.value.areas, r.value.heap, r.value.mmap, r.value.owned)
    ensures old(m.live) <= m.live && Untouched(old(m.mem), m.mem, old(m.live))
  {
    var space := NewUserSpace(m, trampoline, signalTrampoline);
    if space.None? {
      return None;
    }
    var c := space.value;
    ghost var s := c.table.Now(m);
    var ok := c.LoadSegments(m, segs);
    OldUntouched(old(m.mem), old(m.live), s, c.table.Now(m));
    if !ok {
      return None;
    }
    BelowTrampolines(Trampolines(trampoline, signalTrampoline), segs);
    return space;
  }

  lemma OldUntouched(mem0: Mem, live0: set<nat>, s: Snapshot, s': Snapshot)
    requires live0 <= s.live && Untouched(mem0, s.mem, live0) && Allocated(s, s') && live0 !! s.place.Keys
    ensures live0 <= s'.live && Untouched(mem0, s'.mem, live0)
  {
    forall f | f in live0
      ensures f in s'.mem && s'.mem[f] == mem0[f]
    {
      assert f in s.live - s.place.Keys;
    }
  }

  /** A copy of a space, page by page, has the same segments loaded. */
  lemma SegmentsCopied(mem0: Mem, owned0: map<nat, nat>, areas0: seq<Area>, mem: Mem, owned: map<nat, nat>, areas: seq<Area>,
                       base: nat, segs: seq<Segment>, n: nat)
    requires SegmentsLoaded(mem0, owned0, areas0, base, segs, n) && SameAreas(areas0, areas)
    requires forall v :: v in owned0 ==> SameBytes(mem0, owned0, mem, owned, v)
    ensures SegmentsLoaded(mem, owned, areas, base, segs, n)
  {
    forall k | 0 <= k < n
      ensures SegmentLoaded(mem, owned, areas[base + k], segs[k])
    {
      SegmentCopied(mem0, owned0, areas0[base + k], mem, owned, areas[base + k], segs[k]);
    }
  }

  ghost predicate SameBytes(mem0: Mem, owned0: map<nat, nat>, mem: Mem, owned: map<nat, nat>, v: nat) {
    && v in owned0 && owned0[v] in mem0
    && v in owned && owned[v] in mem && mem[owned[v]] == mem0[owned0[v]]
  }

  lemma SegmentCopied(mem0: Mem, owned0: map<nat, nat>, a0: Area, mem: Mem, owned: map<nat, nat>, a: Area, s: Segment)
    requires SegmentLoaded(mem0, owned0, a0, s) && (a.start, a.end, a.perm) == (a0.start, a0.end, a0.perm)
    requires forall v :: v in owned0 ==> SameBytes(mem0, owned0, mem, owned, v)
    ensures SegmentLoaded(mem, owned, a, s)
  {
    forall va: nat | a.start * PAGE_SIZE <= va < a.end * PAGE_SIZE
      ensures va / PAGE_SIZE in owned && HasFrame(mem, owned[va / PAGE_SIZE]) && ByteLoaded(mem, owned, va, s.start, s.data)
    {
      assert a.start <= va / PAGE_SIZE < a.end;
      assert ByteLoaded(mem0, owned0, va, s.start, s.data);
      assert SameBytes(mem0, owned0, mem, owned, va / PAGE_SIZE);
    }
    forall v: nat | a.start <= v < a.end
      ensures v in owned && HasFrame(mem, owned[v])
    {
      assert SameBytes(mem0, owned0, mem, owned, v);
    }
  }

  /** Forking a loaded program: child and parent both have all segments loaded. */
  method ForkProgram(m: Frames.Machine, parent: Space, trampoline: nat, signalTrampoline: nat, ghost base: nat, ghost segs: seq<Segment>)
      returns (r: Option<Space>)
    requires parent.Valid(m) && LayoutOk(parent.areas, parent.heap, parent.mmap, parent.owned)
    requires trampoline < PPNS && signalTrampoline < PPNS
    requires SegmentsLoaded(m.mem, parent.owned, parent.areas, base, segs, |segs|)
    modifies m
    ensures r.None? ==> Frames.Unallocated(m.allocator) == 0
    ensures r.Some? ==> fresh(r.value) && parent.Valid(m) && r.value.Valid(m)
    ensures r.Some? ==> LayoutOk(r.value.areas, r.value.heap, r.value.mmap, r.value.owned)
    ensures r.Some? ==> SegmentsLoaded(m.mem, r.value.owned, r.value.areas, base, segs, |segs|)
    ensures r.Some? ==> SegmentsLoaded(m.mem, parent.owned, parent.areas, base, segs, |segs|)
  {
    ghost var mem0, live0 := m.mem, m.live;
    r := FromExistedUser(m, parent, trampoline, signalTrampoline);
    if r.Some? {
      ghost var c := r.value;
      forall v | v in parent.owned
        ensures SameBytes(mem0, parent.owned, m.mem, c.owned, v) && SameBytes(mem0, parent.owned, m.mem, parent.owned, v)
      {
        assert Tracked(parent.areas, parent.heap, parent.mmap, v);
      }
      SegmentsCopied(mem0, parent.owned, parent.areas, m.mem, c.owned, c.areas, base, segs, |segs|);
      SegmentsCopied(mem0, parent.owned, parent.areas, m.mem, parent.owned, parent.areas, base, segs, |segs|);
    }
  }
}
