/** Copying a user address space for fork. */
module Fork {
  import opened Options
  import opened Bits
  import opened Memory
  import opened Address
  import opened PageTable
  import opened AddressSpace
  import opened Layout
  import Frames

  /** Heap and mmap pages are mapped readable and writable for the user. */
  const DATA_FLAGS: nat := FLAG_U + FLAG_R + FLAG_W

  /** A copy under way: everything live when it began is untouched, the copy
      uses only newer frames, and every copied page outside [lo, hi) holds the
      bytes of the page it was copied from. */
  ghost predicate CloneOk(c: Space, m: Frames.Machine, mem0: Mem, live0: set<nat>, src: map<nat, nat>, lo: nat, hi: nat)
    reads c`owned, c.table, m
  {
    && c.Valid(m) && live0 <= m.live && Untouched(mem0, m.mem, live0)
    && (forall f :: f in c.table.place ==> f !in live0)
    && (forall v :: v in c.owned ==> c.owned[v] !in live0 && v in src && src[v] in mem0)
    && (forall v :: v in c.owned && !(lo <= v < hi) ==> c.owned[v] in m.mem && m.mem[c.owned[v]] == mem0[src[v]])
  }

  /** Copy one page's bytes into the frame the copy has for it. */
  method CopyPage(c: Space, m: Frames.Machine, vpn: nat, srcPpn: nat, dstPpn: nat,
                  ghost mem0: Mem, ghost live0: set<nat>, ghost src: map<nat, nat>, ghost hi: nat)
    requires CloneOk(c, m, mem0, live0, src, vpn, hi) && vpn in c.owned && c.owned[vpn] == dstPpn
    requires srcPpn == src[vpn] && srcPpn in live0 && |mem0[srcPpn]| == PAGE_SIZE
    modifies m`mem
    ensures CloneOk(c, m, mem0, live0, src, vpn + 1, hi) && m.live == old(m.live)
  {
    c.StorePage(m, vpn, dstPpn, m.mem[srcPpn]);
  }

  /** A heap or mmap page: new frame, mapped, bytes copied. */
  method ClonePage(c: Space, m: Frames.Machine, vpn: nat, srcPpn: nat,
                   ghost mem0: Mem, ghost live0: set<nat>, ghost src: map<nat, nat>) returns (r: Option<nat>)
    requires CloneOk(c, m, mem0, live0, src, 0, 0) && vpn in src && src[vpn] == srcPpn && vpn < VPNS
    requires srcPpn in live0 && srcPpn in mem0 && |mem0[srcPpn]| == PAGE_SIZE
    modifies m, c`owned, c.table
    ensures r.None? ==> vpn in old(c.table.tr) || Frames.Unallocated(m.allocator) == 0
    ensures r.Some? ==> CloneOk(c, m, mem0, live0, src, 0, 0) && c.owned == old(c.owned)[vpn := r.value]
    ensures r.Some? ==> c.table.tr == old(c.table.tr)[vpn := Entry(r.value, WithV(DATA_FLAGS))] && vpn !in old(c.owned)
    ensures c.table.root == old(c.table.root)
  {
    r := c.MapFresh(m, vpn, DATA_FLAGS);
    if r.None? {
      return;
    }
    CopyPage(c, m, vpn, srcPpn, r.value, mem0, live0, src, vpn + 1);
  }

  /** A space all of whose frames were live, with these bytes. */
  ghost predicate SpaceAt(p: Space, mem0: Mem, live0: set<nat>)
    reads p`owned, p.table
  {
    && TreeOk(mem0, p.table.root, p.table.place)
    && Refines(mem0, p.table.root, p.table.tr)
    && p.table.place.Keys <= live0
    && Recorded(p.table.frames, p.table.place)
    && PagesOk(live0, p.table.place, p.table.tr, p.owned)
  }

  /** A space stays valid while all that was live stays untouched. */
  lemma SpaceStays(p: Space, m: Frames.Machine, mem0: Mem, live0: set<nat>)
    requires SpaceAt(p, mem0, live0) && m.Valid() && m.allocator.end <= PPNS
    requires live0 <= m.live && Untouched(mem0, m.mem, live0)
    ensures p.Valid(m)
  {
    TreeFrame(mem0, m.mem, p.table.root, p.table.place);
    RefinesSame(mem0, m.mem, p.table.root, p.table.tr);
  }

  /** The second half of copying an area: the bytes, page by page. */
  method CopyAreaBytes(c: Space, m: Frames.Machine, parent: Space, a: Area, ghost mem0: Mem, ghost live0: set<nat>)
    requires c != parent && c.table != parent.table && MemOk(mem0)
    requires CloneOk(c, m, mem0, live0, parent.owned, a.start, a.end) && SpaceAt(parent, mem0, live0)
    requires a.start <= a.end && forall v: nat :: InArea(a, v) ==> v in c.owned
    modifies m`mem
    ensures CloneOk(c, m, mem0, live0, parent.owned, 0, 0) && m.live == old(m.live)
  {
    var vpn := a.start;
    while vpn < a.end
      invariant a.start <= vpn <= a.end && m.live == old(m.live)
      invariant CloneOk(c, m, mem0, live0, parent.owned, vpn, a.end)
    {
      assert InArea(a, vpn);
      SpaceStays(parent, m, mem0, live0);
      var srcPpn := parent.FrameOf(m, vpn);
      var dstPpn := c.FrameOf(m, vpn);
      CopyPage(c, m, vpn, srcPpn, dstPpn, mem0, live0, parent.owned, a.end);
      vpn := vpn + 1;
    }
  }

  /** Copy one area: map all its pages first, then copy their bytes. */
  method CloneArea(c: Space, m: Frames.Machine, parent: Space, a: Area, ghost mem0: Mem, ghost live0: set<nat>)
      returns (ok: bool, pages: map<nat, nat>)
    requires c != parent && c.table != parent.table && MemOk(mem0)
    requires CloneOk(c, m, mem0, live0, parent.owned, 0, 0) && SpaceAt(parent, mem0, live0)
    requires a.start <= a.end <= VPNS && a.perm < 256 && forall v: nat :: InArea(a, v) ==> v in parent.owned
    requires live0 <= mem0.Keys
    modifies m, c`owned, c.table
    ensures c.table.root == old(c.table.root)
    ensures !ok ==> Taken(old(c.table.tr), a.start, a.end) || Frames.Unallocated(m.allocator) == 0
    ensures ok ==> CloneOk(c, m, mem0, live0, parent.owned, 0, 0)
    ensures ok ==> (forall v: nat :: v in pages <==> InArea(a, v)) && c.owned == old(c.owned) + pages && pages.Keys !! old(c.owned.Keys)
    ensures ok ==> c.table.tr == old(c.table.tr) + Entries(pages, a.perm)
  {
    ghost var before := c.table.Now(m);
    ok, pages := c.MapRange(m, a.start, a.end, a.perm);
    if !ok {
      return;
    }
    MappedClone(c, m, mem0, live0, parent.owned, before, old(c.owned), pages, a);
    CopyAreaBytes(c, m, parent, a, mem0, live0);
  }

  /** After mapping an area's pages, only their bytes are missing. */
  lemma MappedClone(c: Space, m: Frames.Machine, mem0: Mem, live0: set<nat>, src: map<nat, nat>, before: Snapshot,
                    owned0: map<nat, nat>, pages: map<nat, nat>, a: Area)
    requires c.Valid(m) && live0 <= before.live && Untouched(mem0, before.mem, live0)
    requires forall f :: f in before.place ==> f !in live0
    requires PagesOkBefore(before, mem0, live0, src, owned0)
    requires Allocated(before, c.table.Now(m)) && c.owned == owned0 + pages
    requires FreshPages(pages, a.start, a.end, before.live, m.mem)
    requires forall v: nat :: InArea(a, v) ==> v in src && src[v] in mem0
    ensures CloneOk(c, m, mem0, live0, src, a.start, a.end)
  {
  }

  ghost predicate PagesOkBefore(before: Snapshot, mem0: Mem, live0: set<nat>, src: map<nat, nat>, owned0: map<nat, nat>) {
    forall v :: v in owned0 ==>
      && owned0[v] in before.live && owned0[v] !in before.place && owned0[v] !in live0
      && v in src && src[v] in mem0 && owned0[v] in before.mem && before.mem[owned0[v]] == mem0[src[v]]
  }

  /** Copying pages under way: which are left, which are copied, and what is
      owned and mapped by then. */
  ghost predicate PagesLeft(pages: map<nat, nat>, todo: map<nat, nat>, copied: map<nat, nat>) {
    && todo.Keys + copied.Keys == pages.Keys && todo.Keys !! copied.Keys
    && (forall v :: v in todo ==> v in pages && todo[v] == pages[v])
  }

  lemma PageMoved(pages: map<nat, nat>, todo: map<nat, nat>, copied: map<nat, nat>, vpn: nat, frame: nat)
    requires PagesLeft(pages, todo, copied) && vpn in todo
    ensures PagesLeft(pages, todo - {vpn}, copied[vpn := frame]) && |todo - {vpn}| < |todo|
  {
    var todo', copied' := todo - {vpn}, copied[vpn := frame];
    assert todo'.Keys == todo.Keys - {vpn} && copied'.Keys == copied.Keys + {vpn};
    SetsMove(todo.Keys, copied.Keys, vpn);
  }

  lemma SetsMove(s: set<nat>, t: set<nat>, x: nat)
    requires x in s && s !! t
    ensures (s - {x}) + (t + {x}) == s + t && (s - {x}) !! (t + {x}) && |s - {x}| < |s|
  {
  }

  /** The copied pages are what was added to the owned pages and to the table. */
  ghost predicate Added(owned0: map<nat, nat>, tr0: map<nat, Entry>, owned: map<nat, nat>, tr: map<nat, Entry>, copied: map<nat, nat>) {
    owned == owned0 + copied && tr == tr0 + Entries(copied, DATA_FLAGS)
  }

  lemma AddedSnoc(owned0: map<nat, nat>, tr0: map<nat, Entry>, owned: map<nat, nat>, tr: map<nat, Entry>, copied: map<nat, nat>,
                  vpn: nat, frame: nat)
    requires Added(owned0, tr0, owned, tr, copied)
    ensures Added(owned0, tr0, owned[vpn := frame], tr[vpn := Entry(frame, WithV(DATA_FLAGS))], copied[vpn := frame])
  {
    OwnedSnoc(owned0, copied, vpn, frame);
    EntriesSnoc(tr0, copied, DATA_FLAGS, vpn, frame);
  }

  /** Copy one of the pages that are left. */
  method CloneNextPage(c: Space, m: Frames.Machine, vpn: nat, srcPpn: nat, ghost mem0: Mem, ghost live0: set<nat>, ghost src: map<nat, nat>,
                       copied: map<nat, nat>, ghost owned0: map<nat, nat>, ghost tr0: map<nat, Entry>)
      returns (ok: bool, copied': map<nat, nat>)
    requires CloneOk(c, m, mem0, live0, src, 0, 0) && vpn in src && src[vpn] == srcPpn && vpn < VPNS
    requires srcPpn in live0 && srcPpn in mem0 && |mem0[srcPpn]| == PAGE_SIZE
    requires Added(owned0, tr0, c.owned, c.table.tr, copied)
    modifies m, c`owned, c.table
    ensures c.table.root == old(c.table.root)
    ensures !ok ==> vpn in old(c.table.tr) || Frames.Unallocated(m.allocator) == 0
    ensures ok ==> CloneOk(c, m, mem0, live0, src, 0, 0) && Added(owned0, tr0, c.owned, c.table.tr, copied')
    ensures ok ==> vpn in copied' && copied' == copied[vpn := copied'[vpn]]
  {
    var frame := ClonePage(c, m, vpn, srcPpn, mem0, live0, src);
    if frame.None? {
      return false, copied;
    }
    AddedSnoc(owned0, tr0, old(c.owned), old(c.table.tr), copied, vpn, frame.value);
    return true, copied[vpn := frame.value];
  }

  lemma AddedNone(owned: map<nat, nat>, tr: map<nat, Entry>, pages: map<nat, nat>)
    ensures Added(owned, tr, owned, tr, map[]) && PagesLeft(pages, pages, map[])
  {
  }

  /** The pages to copy were live, in these frames. */
  ghost predicate Sources(pages: map<nat, nat>, src: map<nat, nat>, mem0: Mem, live0: set<nat>) {
    forall v :: v in pages ==>
      v in src && src[v] == pages[v] && v < VPNS && pages[v] in live0 && pages[v] in mem0 && |mem0[pages[v]]| == PAGE_SIZE
  }

  lemma SourcesOf(p: Space, pages: map<nat, nat>, mem0: Mem, live0: set<nat>)
    requires SpaceAt(p, mem0, live0) && MemOk(mem0) && live0 <= mem0.Keys
    requires forall v :: v in pages ==> v in p.owned && p.owned[v] == pages[v]
    ensures Sources(pages, p.owned, mem0, live0)
  {
  }

  /** Copy the heap or mmap pages, in any order. */
  method ClonePages(c: Space, m: Frames.Machine, pages: map<nat, nat>, ghost mem0: Mem, ghost live0: set<nat>, ghost src: map<nat, nat>)
      returns (ok: bool, copied: map<nat, nat>)
    requires CloneOk(c, m, mem0, live0, src, 0, 0) && Sources(pages, src, mem0, live0)
    modifies m, c`owned, c.table
    ensures c.table.root == old(c.table.root)
    ensures !ok ==> old(c.table.tr).Keys * pages.Keys != {} || Frames.Unallocated(m.allocator) == 0
    ensures ok ==> CloneOk(c, m, mem0, live0, src, 0, 0)
    ensures ok ==> copied.Keys == pages.Keys && Added(old(c.owned), old(c.table.tr), c.owned, c.table.tr, copied)
  {
    copied := map[];
    var todo := pages;
    AddedNone(c.owned, c.table.tr, pages);
    while todo.Keys != {}
      invariant PagesLeft(pages, todo, copied)
      invariant c.table.root == old(c.table.root) && CloneOk(c, m, mem0, live0, src, 0, 0)
      invariant Added(old(c.owned), old(c.table.tr), c.owned, c.table.tr, copied)
      decreases |todo|
    {
      var vpn :| vpn in todo.Keys;
      NotCopiedYet(old(c.table.tr), pages, todo, copied, vpn);
      ghost var before := copied;
      ok, copied := CloneNextPage(c, m, vpn, todo[vpn], mem0, live0, src, copied, old(c.owned), old(c.table.tr));
      if !ok {
        return;
      }
      PageMoved(pages, todo, before, vpn, copied[vpn]);
      todo := todo - {vpn};
    }
    ok := true;
  }

  lemma NotCopiedYet(tr: map<nat, Entry>, pages: map<nat, nat>, todo: map<nat, nat>, copied: map<nat, nat>, vpn: nat)
    requires PagesLeft(pages, todo, copied) && vpn in todo
    ensures vpn in tr + Entries(copied, DATA_FLAGS) ==> tr.Keys * pages.Keys != {}
  {
    assert vpn in todo.Keys && vpn !in copied.Keys;
    if vpn in tr { assert vpn in tr.Keys * pages.Keys; }
  }

  ghost predicate InAreas(areas: seq<Area>, n: nat, v: nat) {
    exists i :: 0 <= i < |areas| && i < n && InArea(areas[i], v)
  }

  /** The first n areas are exactly what is owned, with their own permissions. */
  ghost predicate AreasDone(areas: seq<Area>, n: nat, owned: map<nat, nat>, tr: map<nat, Entry>) {
    && (forall v: nat :: v in owned <==> InAreas(areas, n, v))
    && (forall i, v: nat :: 0 <= i < |areas| && i < n && InArea(areas[i], v) ==> v in tr && tr[v].flags == WithV(areas[i].perm))
  }

  lemma AreasDoneStep(areas: seq<Area>, n: nat, owned: map<nat, nat>, tr: map<nat, Entry>, pages: map<nat, nat>)
    requires n < |areas| && AreasDone(areas, n, owned, tr)
    requires forall v: nat :: v in pages <==> InArea(areas[n], v)
    requires forall i, v: nat :: 0 <= i < n && InArea(areas[i], v) ==> !InArea(areas[n], v)
    ensures AreasDone(areas, n + 1, owned + pages, tr + Entries(pages, areas[n].perm))
  {
    forall v: nat
      ensures v in owned + pages <==> InAreas(areas, n + 1, v)
    {
      if v in pages { assert InArea(areas[n], v); }
    }
  }

  /** Nothing but owned pages and the trampolines is mapped. */
  ghost predicate Plain(tr: map<nat, Entry>, owned: map<nat, nat>) {
    forall v :: v in tr ==> v in owned || v >= SIGNAL_TRAMPOLINE
  }

  lemma PlainSnoc(tr: map<nat, Entry>, owned: map<nat, nat>, pages: map<nat, nat>, flags: nat)
    requires Plain(tr, owned)
    ensures Plain(tr + Entries(pages, flags), owned + pages)
  {
  }

  /** The next area to copy is not mapped yet. */
  lemma AreaFree(areas: seq<Area>, heap: map<nat, nat>, mmap: map<nat, nat>, k: nat,
                 owned: map<nat, nat>, tr: map<nat, Entry>)
    requires Apart(areas, heap, mmap) && k < |areas| && AreasDone(areas, k, owned, tr) && Plain(tr, owned)
    ensures !Taken(tr, areas[k].start, areas[k].end)
  {
    forall v: nat | areas[k].start <= v < areas[k].end
      ensures v !in tr
    {
      assert InArea(areas[k], v);
      assert v in owned <==> InAreas(areas, k, v);
    }
  }

  /** The heap and mmap pages are not mapped before they are copied. */
  lemma PagesFree(areas: seq<Area>, heap: map<nat, nat>, mmap: map<nat, nat>,
                  owned: map<nat, nat>, tr: map<nat, Entry>, heap': map<nat, nat>)
    requires Apart(areas, heap, mmap) && AreasDone(areas, |areas|, owned, tr) && Plain(tr, owned)
    ensures tr.Keys * heap.Keys == {}
    ensures heap'.Keys == heap.Keys ==> (tr + Entries(heap', DATA_FLAGS)).Keys * mmap.Keys == {}
  {
    forall v | v in heap || v in mmap
      ensures v !in tr
    {
      assert v in owned <==> InAreas(areas, |areas|, v);
    }
    forall v | heap'.Keys == heap.Keys && v in mmap
      ensures v !in (tr + Entries(heap', DATA_FLAGS))
    {
      assert v !in heap'.Keys;
    }
  }

  /** The two trampoline entries are as they were. */
  ghost predicate SameTop(tr: map<nat, Entry>, tr': map<nat, Entry>) {
    && TRAMPOLINE in tr && TRAMPOLINE in tr' && tr'[TRAMPOLINE] == tr[TRAMPOLINE]
    && SIGNAL_TRAMPOLINE in tr && SIGNAL_TRAMPOLINE in tr' && tr'[SIGNAL_TRAMPOLINE] == tr[SIGNAL_TRAMPOLINE]
  }

  lemma SameTopSnoc(tr0: map<nat, Entry>, tr: map<nat, Entry>, pages: map<nat, nat>, flags: nat)
    requires SameTop(tr0, tr) && forall v :: v in pages ==> v < SIGNAL_TRAMPOLINE
    ensures SameTop(tr0, tr + Entries(pages, flags))
  {
  }

  /** The first k areas are copied and nothing else is. */
  ghost predicate AreasCopied(areas: seq<Area>, k: nat, owned: map<nat, nat>, tr0: map<nat, Entry>, tr: map<nat, Entry>) {
    AreasDone(areas, k, owned, tr) && Plain(tr, owned) && SameTop(tr0, tr)
  }

  lemma AreasCopiedStep(areas: seq<Area>, heap: map<nat, nat>, mmap: map<nat, nat>, k: nat,
                        owned: map<nat, nat>, tr0: map<nat, Entry>, tr: map<nat, Entry>, pages: map<nat, nat>)
    requires Apart(areas, heap, mmap) && k < |areas| && AreasCopied(areas, k, owned, tr0, tr)
    requires forall v: nat :: v in pages <==> InArea(areas[k], v)
    ensures AreasCopied(areas, k + 1, owned + pages, tr0, tr + Entries(pages, areas[k].perm))
  {
    AreasDoneStep(areas, k, owned, tr, pages);
    SameTopSnoc(tr0, tr, pages, areas[k].perm);
    PlainSnoc(tr, owned, pages, areas[k].perm);
  }

  /** The first k areas are copied, with the frames recorded in `copies`. */
  ghost predicate Copies(areas: seq<Area>, k: nat, copies: seq<Area>, owned: map<nat, nat>, tr0: map<nat, Entry>, tr: map<nat, Entry>) {
    k <= |areas| && AreasCopied(areas, k, owned, tr0, tr) && SameAreas(areas[..k], copies) && AllHeld(copies, owned)
  }

  lemma CopiesStep(areas: seq<Area>, heap: map<nat, nat>, mmap: map<nat, nat>, k: nat, copies: seq<Area>,
                   owned: map<nat, nat>, tr0: map<nat, Entry>, tr: map<nat, Entry>, pages: map<nat, nat>)
    requires Apart(areas, heap, mmap) && k < |areas| && Copies(areas, k, copies, owned, tr0, tr)
    requires pages.Keys !! owned.Keys && forall v: nat :: v in pages <==> InArea(areas[k], v)
    ensures var a := areas[k];
      Copies(areas, k + 1, copies + [Area(a.start, a.end, pages, a.perm)], owned + pages, tr0, tr + Entries(pages, a.perm))
  {
    AreasCopiedStep(areas, heap, mmap, k, owned, tr0, tr, pages);
    AllHeldSnoc(copies, owned, Area(areas[k].start, areas[k].end, pages, areas[k].perm));
  }

  method CloneNextArea(c: Space, m: Frames.Machine, parent: Space, k: nat, copies: seq<Area>, ghost mem0: Mem, ghost live0: set<nat>,
                       ghost tr0: map<nat, Entry>) returns (ok: bool, copies': seq<Area>)
    requires c != parent && c.table != parent.table && MemOk(mem0) && live0 <= mem0.Keys
    requires CloneOk(c, m, mem0, live0, parent.owned, 0, 0) && SpaceAt(parent, mem0, live0)
    requires Apart(parent.areas, parent.heap, parent.mmap) && AllHeld(parent.areas, parent.owned)
    requires k < |parent.areas| && Copies(parent.areas, k, copies, c.owned, tr0, c.table.tr)
    modifies m, c`owned, c.table
    ensures c.table.root == old(c.table.root)
    ensures !ok ==> Frames.Unallocated(m.allocator) == 0
    ensures ok ==> CloneOk(c, m, mem0, live0, parent.owned, 0, 0)
    ensures ok ==> Copies(parent.areas, k + 1, copies', c.owned, tr0, c.table.tr)
  {
    var a := parent.areas[k];
    ghost var owned, tr := c.owned, c.table.tr;
    AreaFree(parent.areas, parent.heap, parent.mmap, k, owned, tr);
    assert AreaHeld(a, parent.owned);
    var pages;
    ok, pages := CloneArea(c, m, parent, a, mem0, live0);
    copies' := copies + [Area(a.start, a.end, pages, a.perm)];
    if ok {
      CopiesStep(parent.areas, parent.heap, parent.mmap, k, copies, owned, tr0, tr, pages);
    }
  }

  /** Copy all areas of the parent. */
  method CloneAreas(c: Space, m: Frames.Machine, parent: Space, ghost mem0: Mem, ghost live0: set<nat>)
      returns (ok: bool, areas: seq<Area>)
    requires c != parent && c.table != parent.table && MemOk(mem0) && live0 <= mem0.Keys
    requires CloneOk(c, m, mem0, live0, parent.owned, 0, 0) && SpaceAt(parent, mem0, live0) && c.owned == map[]
    requires Apart(parent.areas, parent.heap, parent.mmap) && AllHeld(parent.areas, parent.owned)
    requires SameTop(c.table.tr, c.table.tr) && Plain(c.table.tr, c.owned)
    modifies m, c`owned, c.table
    ensures c.table.root == old(c.table.root)
    ensures !ok ==> Frames.Unallocated(m.allocator) == 0
    ensures ok ==> CloneOk(c, m, mem0, live0, parent.owned, 0, 0)
    ensures ok ==> Copies(parent.areas, |parent.areas|, areas, c.owned, old(c.table.tr), c.table.tr)
  {
    areas := [];
    var k := 0;
    while k < |parent.areas|
      invariant 0 <= k <= |parent.areas| && c.table.root == old(c.table.root)
      invariant CloneOk(c, m, mem0, live0, parent.owned, 0, 0)
      invariant Copies(parent.areas, k, areas, c.owned, old(c.table.tr), c.table.tr)
    {
      ok, areas := CloneNextArea(c, m, parent, k, areas, mem0, live0, old(c.table.tr));
      if !ok {
        return;
      }
      k := k + 1;
    }
    ok := true;
  }

  /** Same ranges and permissions, in order. */
  ghost predicate SameAreas(areas: seq<Area>, areas': seq<Area>) {
    |areas'| == |areas| && forall i :: 0 <= i < |areas| ==>
      (areas'[i].start, areas'[i].end, areas'[i].perm) == (areas[i].start, areas[i].end, areas[i].perm)
  }

  ghost function Trampolines(trampoline: nat, signalTrampoline: nat): map<nat, Entry> {
    map[TRAMPOLINE := Entry(trampoline, WithV(FLAG_R + FLAG_X)),
        SIGNAL_TRAMPOLINE := Entry(signalTrampoline, WithV(FLAG_R + FLAG_X + FLAG_U))]
  }

  /** Map the two trampolines into an empty table. */
  method MapTrampolines(table: Table, m: Frames.Machine, trampoline: nat, signalTrampoline: nat) returns (ok: bool)
    requires table.Valid(m) && table.tr == map[] && trampoline < PPNS && signalTrampoline < PPNS
    modifies table`frames, table`place, table`tr, m
    ensures table.Valid(m) && GrewTree(old(table.Now(m)), table.Now(m)) && m.allocator.end == old(m.allocator.end)
    ensures if ok then table.tr == Trampolines(trampoline, signalTrampoline) else Frames.Unallocated(m.allocator) == 0
  {
    var first := table.Map(m, TRAMPOLINE, trampoline, FLAG_R + FLAG_X);
    if !first.Mapped? {
      return false;
    }
    ghost var s := table.Now(m);
    var second := table.Map(m, SIGNAL_TRAMPOLINE, signalTrampoline, FLAG_R + FLAG_X + FLAG_U);
    GrewTreeTwice(old(table.Now(m)), s, table.Now(m));
    return second.Mapped?;
  }

  /** Start a copy: a fresh table with the two trampolines mapped. */
  method NewUserSpace(m: Frames.Machine, trampoline: nat, signalTrampoline: nat) returns (r: Option<Space>)
    requires m.Valid() && m.allocator.end <= PPNS && trampoline < PPNS && signalTrampoline < PPNS
    modifies m
    ensures m.Valid() && m.allocator.end == old(m.allocator.end) && old(m.live) <= m.live
    ensures Untouched(old(m.mem), m.mem, old(m.live))
    ensures r.None? ==> Frames.Unallocated(m.allocator) == 0
    ensures r.Some? ==>
              && fresh(r.value) && fresh(r.value.table) && r.value.Valid(m)
              && r.value.owned == map[] && r.value.areas == [] && r.value.heap == map[] && r.value.mmap == map[]
              && (forall f :: f in r.value.table.place ==> f !in old(m.live))
              && r.value.table.tr == Trampolines(trampoline, signalTrampoline)
  {
    var frame := m.FrameAlloc();
    if frame.None? {
      return None;
    }
    var table := new Table(m, frame.value);
    var ok := MapTrampolines(table, m, trampoline, signalTrampoline);
    if !ok {
      return None;
    }
    var c := new Space(m, table);
    return Some(c);
  }

  /** The copy owns exactly the tracked pages; area pages carry the area's
      permission, heap and mmap pages the fixed data flags. */
  ghost predicate LayoutCopied(areas: seq<Area>, heap: map<nat, nat>, mmap: map<nat, nat>,
                               owned: map<nat, nat>, tr: map<nat, Entry>) {
    && (forall v: nat :: v in owned <==> Tracked(areas, heap, mmap, v))
    && (forall i, v: nat :: 0 <= i < |areas| && InArea(areas[i], v) ==> v in tr && tr[v].flags == WithV(areas[i].perm))
    && (forall v :: v in heap || v in mmap ==> v in tr && tr[v].flags == WithV(DATA_FLAGS))
  }

  /** The flag bits of a page, from V up to U, and none above. */
  ghost predicate FlagsAre(flags: nat, r: bool, w: bool, x: bool, u: bool) {
    && Bit(flags, 0) && Bit(flags, 1) == r && Bit(flags, 2) == w && Bit(flags, 3) == x && Bit(flags, 4) == u
    && forall k: nat :: k > 4 ==> !Bit(flags, k)
  }

  lemma FiveBits(flags: nat)
    requires flags < 32
    ensures FlagsAre(WithV(flags), flags / 2 % 2 == 1, flags / 4 % 2 == 1, flags / 8 % 2 == 1, flags / 16 % 2 == 1)
  {
    var f := WithV(flags);
    assert Bit(f, 1) == (f / 2 % 2 == 1);
    assert Bit(f, 2) == Bit(f / 2, 1) == (f / 2 / 2 % 2 == 1);
    assert Bit(f, 3) == Bit(f / 2, 2) == Bit(f / 2 / 2, 1) == (f / 2 / 2 / 2 % 2 == 1);
    FourthBit(f);
    NoHigherBit(f);
  }

  lemma NoHigherBit(flags: nat)
    requires flags < 32
    ensures forall k: nat :: k > 4 ==> !Bit(flags, k)
  {
    forall k: nat | k > 4
      ensures !Bit(flags, k)
    {
      assert Bit(flags, k) == Bit(flags / 2, k - 1) == Bit(flags / 2 / 2, k - 2) == Bit(flags / 2 / 2 / 2, k - 3);
      assert Bit(flags / 2 / 2 / 2, k - 3) == Bit(flags / 2 / 2 / 2 / 2, k - 4) == Bit(flags / 2 / 2 / 2 / 2 / 2, k - 5);
      ZeroBit(k - 5);
    }
  }

  /** Heap and mmap pages of the copy are user pages that can be read and written
      and not executed. */
  lemma DataFlags(areas: seq<Area>, heap: map<nat, nat>, mmap: map<nat, nat>, owned: map<nat, nat>, tr: map<nat, Entry>, v: nat)
    requires LayoutCopied(areas, heap, mmap, owned, tr) && (v in heap || v in mmap)
    ensures v in tr && FlagsAre(tr[v].flags, true, true, false, true)
  {
    FiveBits(DATA_FLAGS);
  }

  /** Both trampolines can be read and executed and not written, the signal one by
      the user. */
  lemma TrampolineFlags(trampoline: nat, signalTrampoline: nat)
    ensures var tr := Trampolines(trampoline, signalTrampoline);
      && tr[TRAMPOLINE].ppn == trampoline && FlagsAre(tr[TRAMPOLINE].flags, true, false, true, false)
      && tr[SIGNAL_TRAMPOLINE].ppn == signalTrampoline && FlagsAre(tr[SIGNAL_TRAMPOLINE].flags, true, false, true, true)
  {
    FiveBits(FLAG_R + FLAG_X);
    FiveBits(FLAG_R + FLAG_X + FLAG_U);
  }

  /** The permission on record for a page. */
  ghost function TrackedPerm(areas: seq<Area>, heap: map<nat, nat>, mmap: map<nat, nat>, v: nat): nat
    requires Tracked(areas, heap, mmap, v)
  {
    if v in heap || v in mmap then DATA_FLAGS
    else
      var i :| 0 <= i < |areas| && InArea(areas[i], v);
      areas[i].perm
  }

  /** A page has the parent's flags in the copy if and only if they are still those
      on record; what `mprotect` changed is lost. */
  lemma FlagsKept(areas: seq<Area>, heap: map<nat, nat>, mmap: map<nat, nat>, owned: map<nat, nat>,
                  tr: map<nat, Entry>, parent: map<nat, Entry>, v: nat)
    requires LayoutCopied(areas, heap, mmap, owned, tr) && Tracked(areas, heap, mmap, v) && v in parent
    ensures v in tr && (tr[v].flags == parent[v].flags <==> parent[v].flags == WithV(TrackedPerm(areas, heap, mmap, v)))
  {
  }

  /** After `mprotect` that is a matter of its flags alone. */
  lemma ProtectionKept(areas: seq<Area>, heap: map<nat, nat>, mmap: map<nat, nat>, owned: map<nat, nat>,
                       tr: map<nat, Entry>, before: map<nat, Entry>, lo: nat, hi: nat, flags: nat, v: nat)
    requires LayoutCopied(areas, heap, mmap, owned, tr) && Tracked(areas, heap, mmap, v) && v in before && lo <= v < hi
    ensures v in tr
    ensures tr[v].flags == Protected(before, lo, hi, flags)[v].flags <==> WithUV(flags) == WithV(TrackedPerm(areas, heap, mmap, v))
  {
    FlagsKept(areas, heap, mmap, owned, tr, Protected(before, lo, hi, flags), v);
  }

  /** So a heap page made read-only is writable in the copy. */
  lemma ReadOnlyLost(areas: seq<Area>, heap: map<nat, nat>, mmap: map<nat, nat>, owned: map<nat, nat>,
                     tr: map<nat, Entry>, before: map<nat, Entry>, v: nat)
    requires LayoutCopied(areas, heap, mmap, owned, tr) && v in heap && v in before
    ensures v in tr && tr[v].flags != Protected(before, v, v + 1, FLAG_R)[v].flags
  {
    ProtectionKept(areas, heap, mmap, owned, tr, before, v, v + 1, FLAG_R, v);
  }

  lemma LayoutComplete(areas: seq<Area>, heap: map<nat, nat>, mmap: map<nat, nat>,
                       owned: map<nat, nat>, tr: map<nat, Entry>, heap': map<nat, nat>, mmap': map<nat, nat>)
    requires Apart(areas, heap, mmap) && AreasDone(areas, |areas|, owned, tr)
    requires heap'.Keys == heap.Keys && mmap'.Keys == mmap.Keys
    ensures LayoutCopied(areas, heap, mmap, owned + heap' + mmap',
                         tr + Entries(heap', DATA_FLAGS) + Entries(mmap', DATA_FLAGS))
  {
    forall v: nat
      ensures v in owned + heap' + mmap' <==> Tracked(areas, heap, mmap, v)
    {
      assert v in owned <==> InAreas(areas, |areas|, v);
    }
    FlagsComplete(areas, heap, mmap, tr, heap', mmap');
  }

  /** The copy has a layout of the same kind, so it can be copied in turn. */
  lemma LayoutAgain(areas: seq<Area>, heap: map<nat, nat>, mmap: map<nat, nat>,
                    owned: map<nat, nat>, areas': seq<Area>, heap': map<nat, nat>, mmap': map<nat, nat>)
    requires Apart(areas, heap, mmap) && SameAreas(areas, areas') && AllHeld(areas', owned)
    requires forall v: nat :: v in owned <==> InAreas(areas, |areas|, v)
    requires heap'.Keys == heap.Keys && mmap'.Keys == mmap.Keys
    ensures LayoutOk(areas', heap', mmap', owned + heap' + mmap')
  {
    ApartAgain(areas, heap, mmap, areas', heap', mmap');
    HeldAgain(areas, heap, mmap, owned, areas', heap', mmap');
  }

  lemma ApartAgain(areas: seq<Area>, heap: map<nat, nat>, mmap: map<nat, nat>, areas': seq<Area>, heap': map<nat, nat>, mmap': map<nat, nat>)
    requires Apart(areas, heap, mmap) && SameAreas(areas, areas') && heap'.Keys == heap.Keys && mmap'.Keys == mmap.Keys
    ensures Apart(areas', heap', mmap')
  {
    forall i, v: nat | 0 <= i < |areas'| && InArea(areas'[i], v)
      ensures v !in heap' && v !in mmap'
    {
      assert InArea(areas[i], v);
      assert v !in heap.Keys && v !in mmap.Keys;
    }
    forall i, j, v: nat | 0 <= i < j < |areas'| && InArea(areas'[i], v)
      ensures !InArea(areas'[j], v)
    {
      assert InArea(areas[i], v) && !InArea(areas[j], v);
    }
    forall v | v in heap'
      ensures v !in mmap' && v < SIGNAL_TRAMPOLINE
    {
      assert v in heap.Keys && v !in mmap.Keys;
    }
    forall v | v in mmap'
      ensures v < SIGNAL_TRAMPOLINE
    {
      assert v in mmap.Keys;
    }
  }

  /** Area pages are neither heap nor mmap pages. */
  lemma OwnedApart(areas: seq<Area>, heap: map<nat, nat>, mmap: map<nat, nat>, owned: map<nat, nat>)
    requires Apart(areas, heap, mmap) && forall v: nat :: v in owned ==> InAreas(areas, |areas|, v)
    ensures heap.Keys !! owned.Keys && mmap.Keys !! owned.Keys && mmap.Keys !! heap.Keys
  {
    forall v | v in owned.Keys
      ensures v !in heap.Keys && v !in mmap.Keys
    {
      assert InAreas(areas, |areas|, v);
    }
  }

  lemma HeldAgain(areas: seq<Area>, heap: map<nat, nat>, mmap: map<nat, nat>,
                  owned: map<nat, nat>, areas': seq<Area>, heap': map<nat, nat>, mmap': map<nat, nat>)
    requires Apart(areas, heap, mmap) && SameAreas(areas, areas') && AllHeld(areas', owned)
    requires forall v: nat :: v in owned <==> InAreas(areas, |areas|, v)
    requires heap'.Keys == heap.Keys && mmap'.Keys == mmap.Keys
    ensures Tracks(areas', heap', mmap', owned + heap' + mmap')
  {
    OwnedApart(areas, heap, mmap, owned);
    forall v: nat | v in owned
      ensures Tracked(areas', heap', mmap', v)
    {
      var i :| 0 <= i < |areas| && InArea(areas[i], v);
      assert InArea(areas'[i], v);
    }
    TracksMore(areas', heap', mmap', owned);
  }

  lemma TracksMore(areas: seq<Area>, heap: map<nat, nat>, mmap: map<nat, nat>, owned: map<nat, nat>)
    requires AllHeld(areas, owned) && heap.Keys !! owned.Keys && mmap.Keys !! owned.Keys && mmap.Keys !! heap.Keys
    requires forall v: nat :: v in owned ==> Tracked(areas, heap, mmap, v)
    ensures Tracks(areas, heap, mmap, owned + heap + mmap)
  {
    forall i | 0 <= i < |areas|
      ensures AreaHeld(areas[i], owned + heap + mmap)
    {
      AreaHeldStays(areas[i], owned, heap);
      AreaHeldStays(areas[i], owned + heap, mmap);
    }
    forall v | v in heap
      ensures v !in mmap
    {
      assert v in heap.Keys;
    }
  }

  /** What the copy is once areas, heap and mmap are copied. */
  lemma CopyDone(areas: seq<Area>, heap: map<nat, nat>, mmap: map<nat, nat>, copies: seq<Area>, owned: map<nat, nat>,
                 tr0: map<nat, Entry>, tr: map<nat, Entry>, heap': map<nat, nat>, mmap': map<nat, nat>)
    requires Apart(areas, heap, mmap) && Copies(areas, |areas|, copies, owned, tr0, tr)
    requires heap'.Keys == heap.Keys && mmap'.Keys == mmap.Keys
    ensures SameAreas(areas, copies) && LayoutOk(copies, heap', mmap', owned + heap' + mmap')
    ensures var tr' := tr + Entries(heap', DATA_FLAGS) + Entries(mmap', DATA_FLAGS);
      LayoutCopied(areas, heap, mmap, owned + heap' + mmap', tr') && SameTop(tr0, tr')
  {
    assert areas[..|areas|] == areas;
    LayoutComplete(areas, heap, mmap, owned, tr, heap', mmap');
    LayoutAgain(areas, heap, mmap, owned, copies, heap', mmap');
    forall v | v in heap' || v in mmap'
      ensures v < SIGNAL_TRAMPOLINE
    {
      assert v in heap.Keys || v in mmap.Keys;
    }
    SameTopSnoc(tr0, tr, heap', DATA_FLAGS);
    SameTopSnoc(tr0, tr + Entries(heap', DATA_FLAGS), mmap', DATA_FLAGS);
  }

  lemma FlagsComplete(areas: seq<Area>, heap: map<nat, nat>, mmap: map<nat, nat>,
                      tr: map<nat, Entry>, heap': map<nat, nat>, mmap': map<nat, nat>)
    requires Apart(areas, heap, mmap) && heap'.Keys == heap.Keys && mmap'.Keys == mmap.Keys
    requires forall i, v: nat :: 0 <= i < |areas| && InArea(areas[i], v) ==> v in tr && tr[v].flags == WithV(areas[i].perm)
    ensures var tr' := tr + Entries(heap', DATA_FLAGS) + Entries(mmap', DATA_FLAGS);
      && (forall i, v: nat :: 0 <= i < |areas| && InArea(areas[i], v) ==> v in tr' && tr'[v].flags == WithV(areas[i].perm))
      && (forall v :: v in heap || v in mmap ==> v in tr' && tr'[v].flags == WithV(DATA_FLAGS))
  {
    var tr' := tr + Entries(heap', DATA_FLAGS) + Entries(mmap', DATA_FLAGS);
    forall i, v: nat | 0 <= i < |areas| && InArea(areas[i], v)
      ensures v in tr' && tr'[v].flags == WithV(areas[i].perm)
    {
      assert v !in heap'.Keys && v !in mmap'.Keys;
    }
    forall v | v in heap || v in mmap
      ensures v in tr' && tr'[v].flags == WithV(DATA_FLAGS)
    {
      assert v in heap'.Keys || v in mmap'.Keys;
    }
  }

  /** Copy areas, heap and mmap, in this order. */
  method CloneTracked(c: Space, m: Frames.Machine, parent: Space, ghost mem0: Mem, ghost live0: set<nat>)
      returns (ok: bool, areas: seq<Area>, heap: map<nat, nat>, mmap: map<nat, nat>)
    requires c != parent && c.table != parent.table && MemOk(mem0) && live0 <= mem0.Keys
    requires CloneOk(c, m, mem0, live0, parent.owned, 0, 0) && SpaceAt(parent, mem0, live0)
    requires c.owned == map[] && SameTop(c.table.tr, c.table.tr) && Plain(c.table.tr, c.owned)
    requires LayoutOk(parent.areas, parent.heap, parent.mmap, parent.owned)
    modifies m, c`owned, c.table
    ensures !ok ==> Frames.Unallocated(m.allocator) == 0
    ensures ok ==> CloneOk(c, m, mem0, live0, parent.owned, 0, 0) && SameTop(old(c.table.tr), c.table.tr)
    ensures ok ==> LayoutCopied(parent.areas, parent.heap, parent.mmap, c.owned, c.table.tr)
    ensures ok ==> SameAreas(parent.areas, areas) && heap.Keys == parent.heap.Keys && mmap.Keys == parent.mmap.Keys
    ensures ok ==> LayoutOk(areas, heap, mmap, c.owned)
  {
    heap, mmap := map[], map[];
    ok, areas := CloneAreas(c, m, parent, mem0, live0);
    if !ok {
      return;
    }
    ghost var owned, tr := c.owned, c.table.tr;
    PagesFree(parent.areas, parent.heap, parent.mmap, owned, tr, map[]);
    SourcesOf(parent, parent.heap, mem0, live0);
    ok, heap := ClonePages(c, m, parent.heap, mem0, live0, parent.owned);
    if !ok {
      return;
    }
    PagesFree(parent.areas, parent.heap, parent.mmap, owned, tr, heap);
    SourcesOf(parent, parent.mmap, mem0, live0);
    ok, mmap := ClonePages(c, m, parent.mmap, mem0, live0, parent.owned);
    if !ok {
      return;
    }
    CopyDone(parent.areas, parent.heap, parent.mmap, areas, owned, old(c.table.tr), tr, heap, mmap);
  }

  /** Copy the contents and record them in the copy. */
  method CloneContents(c: Space, m: Frames.Machine, parent: Space, ghost mem0: Mem, ghost live0: set<nat>) returns (ok: bool)
    requires c != parent && c.table != parent.table && MemOk(mem0) && live0 <= mem0.Keys
    requires CloneOk(c, m, mem0, live0, parent.owned, 0, 0) && SpaceAt(parent, mem0, live0)
    requires c.owned == map[] && SameTop(c.table.tr, c.table.tr) && Plain(c.table.tr, c.owned)
    requires LayoutOk(parent.areas, parent.heap, parent.mmap, parent.owned)
    modifies m, c, c.table
    ensures !ok ==> Frames.Unallocated(m.allocator) == 0
    ensures ok ==> CloneOk(c, m, mem0, live0, parent.owned, 0, 0) && SameTop(old(c.table.tr), c.table.tr)
    ensures ok ==> LayoutCopied(parent.areas, parent.heap, parent.mmap, c.owned, c.table.tr)
    ensures ok ==> SameAreas(parent.areas, c.areas) && c.heap.Keys == parent.heap.Keys && c.mmap.Keys == parent.mmap.Keys
    ensures ok ==> LayoutOk(c.areas, c.heap, c.mmap, c.owned)
  {
    var areas, heap, mmap;
    ok, areas, heap, mmap := CloneTracked(c, m, parent, mem0, live0);
    c.areas, c.heap, c.mmap := areas, heap, mmap;
  }

  /** `from_existed_user`. The copy owns exactly the pages the parent tracks, in
      frames that were free before, each with the bytes of the parent's page;
      both trampolines are mapped; and nothing that was live before has changed,
      so the parent is as it was. Fails, as the source panics, only when memory
      runs out. */
  method FromExistedUser(m: Frames.Machine, parent: Space, trampoline: nat, signalTrampoline: nat) returns (r: Option<Space>)
    requires parent.Valid(m) && LayoutOk(parent.areas, parent.heap, parent.mmap, parent.owned)
    requires trampoline < PPNS && signalTrampoline < PPNS
    modifies m
    ensures r.None? ==> Frames.Unallocated(m.allocator) == 0
    ensures r.Some? ==> fresh(r.value) && fresh(r.value.table) && parent.Valid(m)
    ensures r.Some? ==> CloneOk(r.value, m, old(m.mem), old(m.live), parent.owned, 0, 0)
    ensures r.Some? ==> LayoutCopied(parent.areas, parent.heap, parent.mmap, r.value.owned, r.value.table.tr)
    ensures r.Some? ==> SameTop(Trampolines(trampoline, signalTrampoline), r.value.table.tr)
    ensures r.Some? ==> SameAreas(parent.areas, r.value.areas)
    ensures r.Some? ==> r.value.heap.Keys == parent.heap.Keys && r.value.mmap.Keys == parent.mmap.Keys
    ensures r.Some? ==> LayoutOk(r.value.areas, r.value.heap, r.value.mmap, r.value.owned)
  {
    ghost var mem0, live0 := m.mem, m.live;
    var space := NewUserSpace(m, trampoline, signalTrampoline);
    if space.None? {
      return None;
    }
    var ok := CloneContents(space.value, m, parent, mem0, live0);
    if !ok {
      return None;
    }
    SpaceStays(parent, m, mem0, live0);
    return space;
  }
}
