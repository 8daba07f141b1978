/** What a user address space tracks: framed areas, heap and mmap pages, each with
    the frames it holds. */
module Layout {
  import opened Address

  /** A framed area: the pages [start, end) with their frames and permission. */
  datatype Area = Area(start: nat, end: nat, frames: map<nat, nat>, perm: nat)

  predicate InArea(a: Area, vpn: nat) {
    a.start <= vpn < a.end
  }

  /** The two top pages, mapped to kernel code in every space. */
  const TRAMPOLINE: nat := VPNS - 1
  const SIGNAL_TRAMPOLINE: nat := VPNS - 2

  /** An area records the frame of each of its pages and of no other. */
  ghost predicate AreaHeld(a: Area, owned: map<nat, nat>) {
    && (forall v: nat :: v in a.frames <==> InArea(a, v))
    && (forall v :: v in a.frames ==> v in owned && owned[v] == a.frames[v])
  }

  /** What the areas, heap and mmap of a user space track: disjoint pages below
      the trampolines, which are exactly the owned ones, with their frames. */
  ghost predicate LayoutOk(areas: seq<Area>, heap: map<nat, nat>, mmap: map<nat, nat>, owned: map<nat, nat>) {
    Apart(areas, heap, mmap) && Tracks(areas, heap, mmap, owned)
  }

  ghost predicate Apart(areas: seq<Area>, heap: map<nat, nat>, mmap: map<nat, nat>) {
    && (forall i :: 0 <= i < |areas| ==> areas[i].start <= areas[i].end <= SIGNAL_TRAMPOLINE && areas[i].perm < 256)
    && (forall i, j, v: nat :: 0 <= i < j < |areas| && InArea(areas[i], v) ==> !InArea(areas[j], v))
    && (forall v :: v in heap ==> v < SIGNAL_TRAMPOLINE && v !in mmap)
    && (forall v :: v in mmap ==> v < SIGNAL_TRAMPOLINE)
    && (forall i, v: nat :: 0 <= i < |areas| && InArea(areas[i], v) ==> v !in heap && v !in mmap)
  }

  ghost predicate Tracks(areas: seq<Area>, heap: map<nat, nat>, mmap: map<nat, nat>, owned: map<nat, nat>) {
    && AllHeld(areas, owned)
    && (forall v :: v in heap ==> v in owned && owned[v] == heap[v])
    && (forall v :: v in mmap ==> v in owned && owned[v] == mmap[v])
    && (forall v: nat :: v in owned ==> Tracked(areas, heap, mmap, v))
  }

  ghost predicate AllHeld(areas: seq<Area>, owned: map<nat, nat>) {
    forall i :: 0 <= i < |areas| ==> AreaHeld(areas[i], owned)
  }

  lemma AreaHeldStays(a: Area, owned: map<nat, nat>, more: map<nat, nat>)
    requires AreaHeld(a, owned) && more.Keys !! owned.Keys
    ensures AreaHeld(a, owned + more)
  {
    forall v | v in a.frames
      ensures v in owned + more && (owned + more)[v] == a.frames[v]
    {
      assert v in owned.Keys;
    }
  }

  /** Pushing an area keeps the layout, as long as it lies below the trampolines. */
  lemma LayoutPush(areas: seq<Area>, heap: map<nat, nat>, mmap: map<nat, nat>, owned: map<nat, nat>, a: Area)
    requires LayoutOk(areas, heap, mmap, owned) && a.start <= a.end <= SIGNAL_TRAMPOLINE && a.perm < 256
    requires a.frames.Keys !! owned.Keys && forall v: nat :: v in a.frames <==> InArea(a, v)
    ensures LayoutOk(areas + [a], heap, mmap, owned + a.frames)
  {
    ApartPush(areas, heap, mmap, owned, a);
    TracksPush(areas, heap, mmap, owned, a);
  }

  lemma ApartPush(areas: seq<Area>, heap: map<nat, nat>, mmap: map<nat, nat>, owned: map<nat, nat>, a: Area)
    requires LayoutOk(areas, heap, mmap, owned) && a.start <= a.end <= SIGNAL_TRAMPOLINE && a.perm < 256
    requires a.frames.Keys !! owned.Keys && forall v: nat :: v in a.frames <==> InArea(a, v)
    ensures Apart(areas + [a], heap, mmap)
  {
    forall v: nat | InArea(a, v)
      ensures !Tracked(areas, heap, mmap, v)
    {
      assert v in a.frames.Keys;
      if Tracked(areas, heap, mmap, v) { TrackedIsOwned(areas, heap, mmap, owned, v); }
    }
    ApartSnoc(areas, heap, mmap, a);
  }

  lemma TrackedIsOwned(areas: seq<Area>, heap: map<nat, nat>, mmap: map<nat, nat>, owned: map<nat, nat>, v: nat)
    requires Tracks(areas, heap, mmap, owned) && Tracked(areas, heap, mmap, v)
    ensures v in owned
  {
    if v !in heap && v !in mmap {
      var i :| 0 <= i < |areas| && InArea(areas[i], v);
      assert AreaHeld(areas[i], owned);
    }
  }

  lemma ApartSnoc(areas: seq<Area>, heap: map<nat, nat>, mmap: map<nat, nat>, a: Area)
    requires Apart(areas, heap, mmap) && a.start <= a.end <= SIGNAL_TRAMPOLINE && a.perm < 256
    requires forall v: nat :: InArea(a, v) ==> !Tracked(areas, heap, mmap, v)
    ensures Apart(areas + [a], heap, mmap)
  {
    var all := areas + [a];
    forall i, j, v: nat | 0 <= i < j < |all| && InArea(all[i], v)
      ensures !InArea(all[j], v)
    {
      assert InArea(areas[i], v);
    }
  }

  lemma TracksPush(areas: seq<Area>, heap: map<nat, nat>, mmap: map<nat, nat>, owned: map<nat, nat>, a: Area)
    requires Tracks(areas, heap, mmap, owned)
    requires a.frames.Keys !! owned.Keys && forall v: nat :: v in a.frames <==> InArea(a, v)
    ensures Tracks(areas + [a], heap, mmap, owned + a.frames)
  {
    AllHeldSnoc(areas, owned, a);
    forall v | v in heap || v in mmap
      ensures v in owned.Keys && v !in a.frames.Keys
    {
    }
    forall v: nat | v in owned + a.frames
      ensures Tracked(areas + [a], heap, mmap, v)
    {
      if v in a.frames {
        assert InArea((areas + [a])[|areas|], v);
      } else if v !in heap && v !in mmap {
        var i :| 0 <= i < |areas| && InArea(areas[i], v);
        assert InArea((areas + [a])[i], v);
      }
    }
  }

  lemma AllHeldSnoc(areas: seq<Area>, owned: map<nat, nat>, a: Area)
    requires AllHeld(areas, owned) && a.frames.Keys !! owned.Keys && forall v: nat :: v in a.frames <==> InArea(a, v)
    ensures AllHeld(areas + [a], owned + a.frames)
  {
    forall i | 0 <= i < |areas|
      ensures AreaHeld(areas[i], owned + a.frames)
    {
      AreaHeldStays(areas[i], owned, a.frames);
    }
  }

  ghost predicate Tracked(areas: seq<Area>, heap: map<nat, nat>, mmap: map<nat, nat>, v: nat) {
    v in heap || v in mmap || exists i :: 0 <= i < |areas| && InArea(areas[i], v)
  }
}
