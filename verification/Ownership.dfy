/** Every frame of an address space is recorded by exactly one holder: the list
    of table frames, an area, the heap or the mmap pages. Dropping the space frees
    every one of its frames once. */
module Ownership {
  import opened Seqs
  import opened Memory
  import opened PageTable
  import opened AddressSpace
  import opened Layout
  import opened Fork
  import Frames

  /** One entry of one of the collections that hold frame trackers. */
  datatype Holder = TableEntry(k: nat) | AreaEntry(i: nat, v: nat) | HeapEntry(v: nat) | MmapEntry(v: nat)

  /** The collections of a space that hold frame trackers. */
  datatype Holdings = Holdings(tables: seq<nat>, areas: seq<Area>, heap: map<nat, nat>, mmap: map<nat, nat>)

  predicate Holds(s: Holdings, h: Holder) {
    match h
    case TableEntry(k) => k < |s.tables|
    case AreaEntry(i, v) => i < |s.areas| && v in s.areas[i].frames
    case HeapEntry(v) => v in s.heap
    case MmapEntry(v) => v in s.mmap
  }

  function FrameOf(s: Holdings, h: Holder): nat
    requires Holds(s, h)
  {
    match h
    case TableEntry(k) => s.tables[k]
    case AreaEntry(i, v) => s.areas[i].frames[v]
    case HeapEntry(v) => s.heap[v]
    case MmapEntry(v) => s.mmap[v]
  }

  /** The invariants of page table and address space, on values. */
  ghost predicate HoldingsOk(s: Holdings, live: set<nat>, place: map<nat, Place>, tr: map<nat, Entry>, owned: map<nat, nat>) {
    && Recorded(s.tables, place) && place.Keys <= live
    && PagesOk(live, place, tr, owned) && LayoutOk(s.areas, s.heap, s.mmap, owned)
  }

  /** The page an entry other than a table is for. */
  function PageOf(h: Holder): nat
    requires !h.TableEntry?
  {
    match h
    case AreaEntry(_, v) => v
    case HeapEntry(v) => v
    case MmapEntry(v) => v
  }

  /** A recorded data frame is the frame of its page. */
  lemma HoldsPage(s: Holdings, live: set<nat>, place: map<nat, Place>, tr: map<nat, Entry>, owned: map<nat, nat>, h: Holder)
    requires HoldingsOk(s, live, place, tr, owned) && Holds(s, h) && !h.TableEntry?
    ensures PageOf(h) in owned && FrameOf(s, h) == owned[PageOf(h)] && (h.AreaEntry? ==> InArea(s.areas[h.i], h.v))
  {
    if h.AreaEntry? { assert AreaHeld(s.areas[h.i], owned); }
  }

  lemma HoldsTable(s: Holdings, place: map<nat, Place>, k: nat)
    requires Recorded(s.tables, place) && k < |s.tables|
    ensures s.tables[k] in place
  {
    assert s.tables[k] in Elements(s.tables);
  }

  /** Entries for the same page are the same entry. */
  lemma SamePageSameHolder(s: Holdings, owned: map<nat, nat>, g: Holder, h: Holder)
    requires LayoutOk(s.areas, s.heap, s.mmap, owned) && Holds(s, g) && Holds(s, h)
    requires !g.TableEntry? && !h.TableEntry? && PageOf(g) == PageOf(h)
    requires (g.AreaEntry? ==> InArea(s.areas[g.i], g.v)) && (h.AreaEntry? ==> InArea(s.areas[h.i], h.v))
    ensures g == h
  {
  }

  /** Every recorded frame is live, and recorded once. */
  lemma OneOwner(s: Holdings, live: set<nat>, place: map<nat, Place>, tr: map<nat, Entry>, owned: map<nat, nat>, g: Holder, h: Holder)
    requires HoldingsOk(s, live, place, tr, owned) && Holds(s, g) && Holds(s, h)
    ensures FrameOf(s, g) in live && (FrameOf(s, g) == FrameOf(s, h) ==> g == h)
  {
    if g.TableEntry? { HoldsTable(s, place, g.k); } else { HoldsPage(s, live, place, tr, owned, g); }
    if h.TableEntry? { HoldsTable(s, place, h.k); } else { HoldsPage(s, live, place, tr, owned, h); }
    if !g.TableEntry? && !h.TableEntry? && PageOf(g) == PageOf(h) {
      SamePageSameHolder(s, owned, g, h);
    }
  }

  /** And no frame of the space is left out: every table of the tree and every
      data frame a page translates to has its holder. */
  lemma SomeOwner(s: Holdings, live: set<nat>, place: map<nat, Place>, tr: map<nat, Entry>, owned: map<nat, nat>, f: nat) returns (h: Holder)
    requires HoldingsOk(s, live, place, tr, owned) && (f in place || exists v: nat :: v in owned && owned[v] == f)
    ensures Holds(s, h) && FrameOf(s, h) == f
  {
    if f in place {
      assert f in Elements(s.tables);
      var k :| 0 <= k < |s.tables| && s.tables[k] == f;
      h := TableEntry(k);
    } else {
      var v: nat :| v in owned && owned[v] == f;
      assert Tracked(s.areas, s.heap, s.mmap, v);
      if v in s.heap {
        h := HeapEntry(v);
      } else if v in s.mmap {
        h := MmapEntry(v);
      } else {
        var i :| 0 <= i < |s.areas| && InArea(s.areas[i], v);
        assert AreaHeld(s.areas[i], owned);
        h := AreaEntry(i, v);
      }
    }
  }

  ghost function Of(p: Space): Holdings
    reads p, p.table
  {
    Holdings(p.table.frames, p.areas, p.heap, p.mmap)
  }

  /** A fork and its parent share no frame, and each records its own once. */
  lemma ForkSharesNothing(p: Space, c: Space, m: Frames.Machine, mem0: Mem, live0: set<nat>, g: Holder, h: Holder)
    requires SpaceAt(p, mem0, live0) && LayoutOk(p.areas, p.heap, p.mmap, p.owned)
    requires CloneOk(c, m, mem0, live0, p.owned, 0, 0) && LayoutOk(c.areas, c.heap, c.mmap, c.owned)
    requires Holds(Of(p), g) && Holds(Of(c), h)
    ensures FrameOf(Of(p), g) in live0 && FrameOf(Of(c), h) !in live0
  {
    OneOwner(Of(p), live0, p.table.place, p.table.tr, p.owned, g, g);
    if h.TableEntry? {
      HoldsTable(Of(c), c.table.place, h.k);
    } else {
      HoldsPage(Of(c), m.live, c.table.place, c.table.tr, c.owned, h);
    }
  }

  // ---------------------------------------------------------------------
  // Dropping a space
  // ---------------------------------------------------------------------

  /** The trackers in a list of frames are dropped. */
  method FreeList(m: Frames.Machine, frames: seq<nat>)
    requires m.Valid() && Distinct(frames) && Elements(frames) <= m.live
    modifies m`allocator, m`live
    ensures m.Valid() && m.live == old(m.live) - Elements(frames) && m.allocator.end == old(m.allocator.end)
  {
    var k := 0;
    while k < |frames|
      invariant 0 <= k <= |frames| && m.Valid() && m.allocator.end == old(m.allocator.end)
      invariant m.live == old(m.live) - Elements(frames[..k])
    {
      ListStep(frames, k);
      m.FrameFree(frames[k]);
      k := k + 1;
    }
    assert frames[..k] == frames;
  }

  lemma ListStep(frames: seq<nat>, k: nat)
    requires Distinct(frames) && k < |frames|
    ensures frames[k] in Elements(frames) && frames[k] !in Elements(frames[..k])
    ensures Elements(frames[..k + 1]) == Elements(frames[..k]) + {frames[k]}
  {
    assert frames[..k + 1] == frames[..k] + [frames[k]];
  }

  /** The frames of some owned pages. */
  ghost function FramesOf(owned: map<nat, nat>, pages: set<nat>): set<nat> {
    set v | v in pages && v in owned :: owned[v]
  }

  lemma FramesOfMore(owned: map<nat, nat>, pages: set<nat>, v: nat)
    requires Injective(owned) && v in owned && v !in pages
    ensures owned[v] !in FramesOf(owned, pages) && FramesOf(owned, pages + {v}) == FramesOf(owned, pages) + {owned[v]}
  {
  }

  /** The frames of the pages done are given back, of those live in live0. */
  ghost predicate Freed(live: set<nat>, live0: set<nat>, owned: map<nat, nat>, done: set<nat>) {
    live == live0 - FramesOf(owned, done)
  }

  /** The tracker of one more page is dropped. */
  method FreePage(m: Frames.Machine, frame: nat, ghost live0: set<nat>, ghost owned: map<nat, nat>, ghost done: set<nat>, ghost v: nat)
    requires m.Valid() && Injective(owned) && owned.Values <= live0 && v in owned && owned[v] == frame && v !in done
    requires Freed(m.live, live0, owned, done)
    modifies m`allocator, m`live
    ensures m.Valid() && Freed(m.live, live0, owned, done + {v}) && m.allocator.end == old(m.allocator.end)
  {
    FramesOfMore(owned, done, v);
    assert owned[v] in owned.Values;
    m.FrameFree(frame);
  }

  /** The trackers in a map from pages to frames are dropped, in any order. */
  method FreePages(m: Frames.Machine, frames: map<nat, nat>, ghost live0: set<nat>, ghost owned: map<nat, nat>, ghost done0: set<nat>)
      returns (ghost done: set<nat>)
    requires m.Valid() && Injective(owned) && owned.Values <= live0 && frames.Keys !! done0
    requires Freed(m.live, live0, owned, done0) && forall v :: v in frames ==> v in owned && owned[v] == frames[v]
    modifies m`allocator, m`live
    ensures done == done0 + frames.Keys
    ensures m.Valid() && Freed(m.live, live0, owned, done) && m.allocator.end == old(m.allocator.end)
  {
    var todo := frames.Keys;
    done := done0;
    while todo != {}
      invariant m.Valid() && m.allocator.end == old(m.allocator.end) && todo <= frames.Keys && todo !! done
      invariant done + todo == done0 + frames.Keys && Freed(m.live, live0, owned, done)
      decreases |todo|
    {
      var v :| v in todo;
      FreePage(m, frames[v], live0, owned, done, v);
      done, todo := done + {v}, todo - {v};
    }
  }

  /** The trackers of all areas are dropped. */
  method FreeAreas(m: Frames.Machine, areas: seq<Area>, ghost heap: map<nat, nat>, ghost mmap: map<nat, nat>,
                   ghost live0: set<nat>, ghost owned: map<nat, nat>) returns (ghost done: set<nat>)
    requires m.Valid() && Injective(owned) && owned.Values <= live0 && m.live == live0 && LayoutOk(areas, heap, mmap, owned)
    modifies m`allocator, m`live
    ensures m.Valid() && Freed(m.live, live0, owned, done) && m.allocator.end == old(m.allocator.end)
    ensures forall v: nat :: v in done <==> InAreas(areas, |areas|, v)
  {
    var i := 0;
    done := {};
    while i < |areas|
      invariant 0 <= i <= |areas| && m.Valid() && m.allocator.end == old(m.allocator.end)
      invariant Freed(m.live, live0, owned, done) && forall v: nat :: v in done <==> InAreas(areas, i, v)
    {
      AreaNotDone(areas, heap, mmap, owned, i, done);
      done := FreePages(m, areas[i].frames, live0, owned, done);
      i := i + 1;
    }
  }

  lemma AreaNotDone(areas: seq<Area>, heap: map<nat, nat>, mmap: map<nat, nat>, owned: map<nat, nat>, i: nat, done: set<nat>)
    requires LayoutOk(areas, heap, mmap, owned) && i < |areas| && forall v: nat :: v in done <==> InAreas(areas, i, v)
    ensures areas[i].frames.Keys !! done && AreaHeld(areas[i], owned)
    ensures forall v: nat :: v in done + areas[i].frames.Keys <==> InAreas(areas, i + 1, v)
  {
    assert AreaHeld(areas[i], owned);
    forall v: nat | v in areas[i].frames.Keys
      ensures v !in done
    {
      assert InArea(areas[i], v);
    }
  }

  lemma DataStays(live: set<nat>, place: map<nat, Place>, tr: map<nat, Entry>, owned: map<nat, nat>)
    requires PagesOk(live, place, tr, owned)
    ensures owned.Values <= live - place.Keys
  {
  }

  lemma AllFrames(owned: map<nat, nat>)
    ensures FramesOf(owned, owned.Keys) == owned.Values
  {
  }

  /** After the areas, heap and mmap are the pages left. */
  lemma AllPages(areas: seq<Area>, heap: map<nat, nat>, mmap: map<nat, nat>, owned: map<nat, nat>, done: set<nat>)
    requires LayoutOk(areas, heap, mmap, owned) && forall v: nat :: v in done <==> InAreas(areas, |areas|, v)
    ensures heap.Keys !! done && mmap.Keys !! done + heap.Keys && done + heap.Keys + mmap.Keys == owned.Keys
  {
    forall v: nat
      ensures v in owned <==> v in done || v in heap || v in mmap
      ensures v in done ==> v !in heap && v !in mmap
    {
      PageOnce(areas, heap, mmap, owned, v);
    }
  }

  /** A page is owned exactly if it is an area's, a heap or an mmap page. */
  lemma PageOnce(areas: seq<Area>, heap: map<nat, nat>, mmap: map<nat, nat>, owned: map<nat, nat>, v: nat)
    requires LayoutOk(areas, heap, mmap, owned)
    ensures v in owned <==> InAreas(areas, |areas|, v) || v in heap || v in mmap
    ensures InAreas(areas, |areas|, v) ==> v !in heap && v !in mmap
  {
    if InAreas(areas, |areas|, v) {
      var i :| 0 <= i < |areas| && InArea(areas[i], v);
      assert AreaHeld(areas[i], owned);
    } else if v in owned {
      assert Tracked(areas, heap, mmap, v);
    }
  }

  lemma {:induction false} ValuesSize(owned: map<nat, nat>)
    requires Injective(owned)
    ensures |owned.Values| == |owned|
    decreases |owned|
  {
    if owned != map[] {
      var v :| v in owned;
      var rest := owned - {v};
      assert owned == rest[v := owned[v]];
      assert owned.Values == rest.Values + {owned[v]};
      assert owned[v] !in rest.Values;
      ValuesSize(rest);
    }
  }

  lemma GivenBack(start: nat, a: Frames.Allocator, live: set<nat>, a': Frames.Allocator, live': set<nat>,
                  place: map<nat, Place>, owned: map<nat, nat>)
    requires Frames.Inv(start, a, live) && Frames.Inv(start, a', live') && a'.end == a.end && Injective(owned)
    requires place.Keys <= live && owned.Values <= live - place.Keys && live' == live - place.Keys - owned.Values
    ensures Frames.Unallocated(a') == Frames.Unallocated(a) + |place| + |owned|
  {
    Frames.Conservation(start, a, live);
    Frames.Conservation(start, a', live');
    ValuesSize(owned);
    MinusSize(live, place.Keys, owned.Values);
  }

  lemma MinusSize(s: set<nat>, a: set<nat>, b: set<nat>)
    requires a <= s && b <= s - a
    ensures |s - a - b| == |s| - |a| - |b|
  {
    assert s == (s - a) + a;
    assert s - a == (s - a - b) + b;
  }

  /** Dropping a space: tables, areas, heap and mmap pages. Every tracker finds its
      frame live, so no frame is freed twice; afterwards exactly the frames of the
      space are given back. */
  method Drop(p: Space, m: Frames.Machine)
    requires p.Valid(m) && LayoutOk(p.areas, p.heap, p.mmap, p.owned)
    modifies m`allocator, m`live
    ensures m.Valid() && m.live == old(m.live) - p.table.place.Keys - p.owned.Values
    ensures Frames.Unallocated(m.allocator) == Frames.Unallocated(old(m.allocator)) + |p.table.place| + |p.owned|
  {
    ghost var owned := p.owned;
    FreeList(m, p.table.frames);
    ghost var live0 := m.live;
    DataStays(old(m.live), p.table.place, p.table.tr, owned);
    ghost var done := FreeAreas(m, p.areas, p.heap, p.mmap, live0, owned);
    AllPages(p.areas, p.heap, p.mmap, owned, done);
    done := FreePages(m, p.heap, live0, owned, done);
    done := FreePages(m, p.mmap, live0, owned, done);
    AllFrames(owned);
    GivenBack(m.start, old(m.allocator), old(m.live), m.allocator, m.live, p.table.place, owned);
  }
}
