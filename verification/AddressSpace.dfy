/** User address spaces: framed areas, heap and mmap pages over a page table,
    loading program segments, and changing protection. */
module AddressSpace {
  import opened Bits
  import opened Bytes
  import opened Options
  import opened Memory
  import opened Address
  import opened PageTable
  import opened Layout
  import Frames

  ghost predicate Injective(owned: map<nat, nat>) {
    forall u, v :: u in owned && v in owned && owned[u] == owned[v] ==> u == v
  }

  /** Every owned page translates to its own live frame, which is neither a
      table nor any other page's frame. */
  ghost predicate PagesOk(live: set<nat>, place: map<nat, Place>, tr: map<nat, Entry>, owned: map<nat, nat>) {
    && Injective(owned)
    && (forall v :: v in owned ==> v < VPNS && owned[v] in live && owned[v] !in place)
    && (forall v :: v in owned ==> v in tr && tr[v].ppn == owned[v])
  }

  /** From s to s' frames were only allocated, new tables only in new frames,
      and live frames outside the page table kept their bytes. */
  ghost predicate Allocated(s: Snapshot, s': Snapshot) {
    && s.live <= s'.live
    && s'.place.Keys - s.place.Keys <= s'.live - s.live
    && Untouched(s.mem, s'.mem, s.live - s.place.Keys)
  }

  lemma AllocatedTwice(s: Snapshot, s1: Snapshot, s2: Snapshot)
    requires Allocated(s, s1) && Allocated(s1, s2)
    ensures Allocated(s, s2)
  {
    forall f | f in s.live - s.place.Keys
      ensures f in s2.mem && s2.mem[f] == s.mem[f]
    {
      assert f in s1.live - s1.place.Keys;
    }
    forall f | f in s2.place.Keys - s.place.Keys
      ensures f in s2.live - s.live
    {
      if f in s1.place.Keys { assert f in s1.place.Keys - s.place.Keys; } else { assert f in s2.place.Keys - s1.place.Keys; }
    }
  }

  /** Freshly mapped pages: new frames, all zero. */
  ghost predicate FreshPages(pages: map<nat, nat>, lo: nat, hi: nat, live0: set<nat>, mem: Mem) {
    && (forall v: nat :: v in pages <==> lo <= v < hi)
    && (forall v :: v in pages ==> pages[v] !in live0 && pages[v] in mem && mem[pages[v]] == ZeroFrame())
  }

  /** The translations added by mapping these pages with these flags. */
  function Entries(pages: map<nat, nat>, flags: nat): map<nat, Entry> {
    map v | v in pages :: Entry(pages[v], WithV(flags))
  }

  /** Some page from lo to hi is mapped. */
  ghost predicate Taken(tr: map<nat, Entry>, lo: nat, hi: nat) {
    exists v: nat :: lo <= v < hi && v in tr
  }

  lemma FreshPagesSnoc(pages: map<nat, nat>, lo: nat, vpn: nat, live0: set<nat>, mem: Mem, mem': Mem, frame: nat)
    requires lo <= vpn && FreshPages(pages, lo, vpn, live0, mem)
    requires forall v :: v in pages ==> pages[v] in mem' && mem'[pages[v]] == mem[pages[v]]
    requires frame !in live0 && frame in mem' && mem'[frame] == ZeroFrame()
    ensures FreshPages(pages[vpn := frame], lo, vpn + 1, live0, mem')
  {
  }

  lemma EntriesSnoc(tr: map<nat, Entry>, pages: map<nat, nat>, flags: nat, vpn: nat, frame: nat)
    ensures (tr + Entries(pages, flags))[vpn := Entry(frame, WithV(flags))] == tr + Entries(pages[vpn := frame], flags)
  {
  }

  lemma OwnedSnoc(o: map<nat, nat>, pages: map<nat, nat>, vpn: nat, frame: nat)
    ensures (o + pages)[vpn := frame] == o + pages[vpn := frame]
  {
  }

  lemma PagesApart(live: set<nat>, place: map<nat, Place>, tr: map<nat, Entry>, o: map<nat, nat>, pages: map<nat, nat>)
    requires PagesOk(live, place, tr, o + pages)
    ensures forall v :: v in pages ==> pages[v] in live - place.Keys
  {
    forall v | v in pages
      ensures pages[v] in live - place.Keys
    {
      assert (o + pages)[v] == pages[v];
    }
  }

  // ---------------------------------------------------------------------
  // Virtual bytes
  // ---------------------------------------------------------------------

  ghost predicate Owns(mem: Mem, owned: map<nat, nat>, lo: nat, hi: nat) {
    forall v: nat :: lo <= v < hi ==> v in owned && HasFrame(mem, owned[v])
  }

  /** The byte at a virtual address of an owned page. */
  ghost function ByteAt(mem: Mem, owned: map<nat, nat>, va: nat): byte
    requires va / PAGE_SIZE in owned && HasFrame(mem, owned[va / PAGE_SIZE])
  {
    mem[owned[va / PAGE_SIZE]][va % PAGE_SIZE]
  }

  ghost function PageFrames(owned: map<nat, nat>, lo: nat, hi: nat): set<nat> {
    set v | v in owned && lo <= v < hi :: owned[v]
  }

  function Spliced(frame: seq<byte>, off: nat, src: seq<byte>): (frame': seq<byte>)
    requires off + |src| <= |frame|
    ensures |frame'| == |frame|
    ensures forall k :: 0 <= k < |frame| ==> frame'[k] == if off <= k < off + |src| then src[k - off] else frame[k]
  {
    frame[..off] + src + frame[off + |src|..]
  }

  /** Writing into the frame of one page changes the bytes of that page only. */
  lemma SplicePage(mem: Mem, owned: map<nat, nat>, vpn: nat, off: nat, src: seq<byte>, va: nat)
    requires Injective(owned) && vpn in owned && HasFrame(mem, owned[vpn]) && off + |src| <= PAGE_SIZE
    requires va / PAGE_SIZE in owned && HasFrame(mem, owned[va / PAGE_SIZE])
    ensures var mem' := mem[owned[vpn] := Spliced(mem[owned[vpn]], off, src)];
      ByteAt(mem', owned, va) ==
        if va / PAGE_SIZE == vpn && off <= va % PAGE_SIZE < off + |src| then src[va % PAGE_SIZE - off]
        else ByteAt(mem, owned, va)
  {
  }

  /** Bytes of pages lo to hi after copying the first n bytes of data to address `at`. */
  ghost predicate Copied(mem: Mem, mem': Mem, owned: map<nat, nat>, lo: nat, hi: nat, at: nat, data: seq<byte>, n: nat)
    requires Owns(mem, owned, lo, hi) && Owns(mem', owned, lo, hi) && n <= |data|
  {
    forall va: nat :: lo * PAGE_SIZE <= va < hi * PAGE_SIZE ==> ByteCopied(mem, mem', owned, va, at, data, n)
  }

  ghost predicate ByteCopied(mem: Mem, mem': Mem, owned: map<nat, nat>, va: nat, at: nat, data: seq<byte>, n: nat)
    requires va / PAGE_SIZE in owned && HasFrame(mem, owned[va / PAGE_SIZE]) && HasFrame(mem', owned[va / PAGE_SIZE])
    requires n <= |data|
  {
    ByteAt(mem', owned, va) == if at <= va < at + n then data[va - at] else ByteAt(mem, owned, va)
  }

  lemma CopiedMore(mem: Mem, mem1: Mem, owned: map<nat, nat>, lo: nat, hi: nat, at: nat, data: seq<byte>,
                   n: nat, vpn: nat, off: nat, n': nat)
    requires Injective(owned) && Owns(mem, owned, lo, hi) && Owns(mem1, owned, lo, hi)
    requires lo <= vpn < hi && n <= n' <= |data| && Copied(mem, mem1, owned, lo, hi, at, data, n)
    requires at + n == vpn * PAGE_SIZE + off && off + (n' - n) <= PAGE_SIZE
    ensures var mem2 := mem1[owned[vpn] := Spliced(mem1[owned[vpn]], off, data[n..n'])];
      Owns(mem2, owned, lo, hi) && Copied(mem, mem2, owned, lo, hi, at, data, n')
  {
    var mem2 := mem1[owned[vpn] := Spliced(mem1[owned[vpn]], off, data[n..n'])];
    forall va: nat | lo * PAGE_SIZE <= va < hi * PAGE_SIZE
      ensures ByteCopied(mem, mem2, owned, va, at, data, n')
    {
      assert ByteCopied(mem, mem1, owned, va, at, data, n);
      SplicePage(mem1, owned, vpn, off, data[n..n'], va);
    }
  }

  /** What a segment's pages hold: data at its address, zero everywhere else. */
  ghost predicate Loaded(mem: Mem, owned: map<nat, nat>, lo: nat, hi: nat, at: nat, data: seq<byte>)
    requires Owns(mem, owned, lo, hi)
  {
    forall va: nat :: lo * PAGE_SIZE <= va < hi * PAGE_SIZE ==> ByteLoaded(mem, owned, va, at, data)
  }

  ghost predicate ByteLoaded(mem: Mem, owned: map<nat, nat>, va: nat, at: nat, data: seq<byte>)
    requires va / PAGE_SIZE in owned && HasFrame(mem, owned[va / PAGE_SIZE])
  {
    ByteAt(mem, owned, va) == if at <= va < at + |data| then data[va - at] else 0
  }

  lemma CopiedIntoZero(mem: Mem, mem': Mem, owned: map<nat, nat>, lo: nat, hi: nat, at: nat, data: seq<byte>)
    requires Owns(mem, owned, lo, hi) && Owns(mem', owned, lo, hi)
    requires Loaded(mem, owned, lo, hi, 0, []) && Copied(mem, mem', owned, lo, hi, at, data, |data|)
    ensures Loaded(mem', owned, lo, hi, at, data)
  {
    forall va: nat | lo * PAGE_SIZE <= va < hi * PAGE_SIZE
      ensures ByteLoaded(mem', owned, va, at, data)
    {
      assert ByteLoaded(mem, owned, va, 0, []) && ByteCopied(mem, mem', owned, va, at, data, |data|);
    }
  }

  lemma FreshIsZero(mem: Mem, owned: map<nat, nat>, pages: map<nat, nat>, lo: nat, hi: nat, live0: set<nat>)
    requires FreshPages(pages, lo, hi, live0, mem) && forall v :: v in pages ==> v in owned && owned[v] == pages[v]
    ensures Owns(mem, owned, lo, hi) && Loaded(mem, owned, lo, hi, 0, [])
  {
    forall va: nat | lo * PAGE_SIZE <= va < hi * PAGE_SIZE
      ensures va / PAGE_SIZE in pages && mem[owned[va / PAGE_SIZE]] == ZeroFrame()
    {
      assert lo <= va / PAGE_SIZE < hi;
    }
  }

  /** Copying into pages mapped meanwhile leaves all older data alone. */
  lemma CopiedIsAllocated(s: Snapshot, s1: Snapshot, s2: Snapshot, owned: map<nat, nat>, pages: map<nat, nat>, lo: nat, hi: nat)
    requires Allocated(s, s1) && s2.live == s1.live && s2.place == s1.place
    requires FreshPages(pages, lo, hi, s.live, s1.mem) && (forall v :: v in pages ==> v in owned && owned[v] == pages[v])
    requires Untouched(s1.mem, s2.mem, s1.mem.Keys - PageFrames(owned, lo, hi))
    ensures Allocated(s, s2)
  {
    forall f | f in s.live - s.place.Keys
      ensures f in s2.mem && s2.mem[f] == s.mem[f]
    {
      assert f in s1.mem;
      assert f !in PageFrames(owned, lo, hi);
    }
  }

  // ---------------------------------------------------------------------
  // Segments
  // ---------------------------------------------------------------------

  /** A loadable program segment. */
  datatype Segment = Segment(start: nat, end: nat, perm: nat, data: seq<byte>)

  ghost predicate SegmentLoaded(mem: Mem, owned: map<nat, nat>, a: Area, s: Segment) {
    && s.end < USIZE && a.start == Floor(s.start) && a.end == Ceil(s.end) && a.perm == s.perm
    && Owns(mem, owned, a.start, a.end) && Loaded(mem, owned, a.start, a.end, s.start, s.data)
  }

  /** A loaded segment stays loaded while its frames and their owner stay. */
  lemma SegmentStays(mem: Mem, mem': Mem, owned: map<nat, nat>, owned': map<nat, nat>, a: Area, s: Segment)
    requires SegmentLoaded(mem, owned, a, s)
    requires forall v :: v in owned ==> v in owned' && owned'[v] == owned[v] && owned[v] in mem' && (owned[v] in mem ==> mem'[owned[v]] == mem[owned[v]])
    ensures SegmentLoaded(mem', owned', a, s)
  {
    forall va: nat | a.start * PAGE_SIZE <= va < a.end * PAGE_SIZE
      ensures va / PAGE_SIZE in owned && HasFrame(mem, owned[va / PAGE_SIZE]) && ByteLoaded(mem', owned', va, s.start, s.data)
    {
      assert a.start <= va / PAGE_SIZE < a.end;
      assert ByteLoaded(mem, owned, va, s.start, s.data);
    }
  }

  predicate SegmentOk(s: Segment) {
    s.start < s.end < VA_SPACE && s.perm < 256 && |s.data| <= s.end - s.start
  }

  predicate SegmentsOk(segs: seq<Segment>) {
    forall k :: 0 <= k < |segs| ==> SegmentOk(segs[k])
  }

  /** The first n segments are loaded in the areas from `base` on. */
  ghost predicate SegmentsLoaded(mem: Mem, owned: map<nat, nat>, areas: seq<Area>, base: nat, segs: seq<Segment>, n: nat) {
    && n <= |segs| && base + n <= |areas|
    && forall k :: 0 <= k < n ==> SegmentLoaded(mem, owned, areas[base + k], segs[k])
  }

  ghost predicate InSegment(s: Segment, v: nat) {
    s.end < USIZE && Floor(s.start) <= v < Ceil(s.end)
  }

  /** The area of a segment records a frame for each of its pages. */
  ghost predicate AreaOf(a: Area, s: Segment) {
    && s.end < USIZE && a.start == Floor(s.start) && a.end == Ceil(s.end) && a.perm == s.perm
    && (forall v: nat :: v in a.frames <==> InArea(a, v))
  }

  /** Segment k needs a page that is mapped already or that an earlier one needs. */
  ghost predicate Clash(tr: map<nat, Entry>, segs: seq<Segment>, k: nat) {
    k < |segs| && exists v: nat :: InSegment(segs[k], v) && (v in tr || InSegments(segs, k, v))
  }

  ghost predicate NoClash(tr: map<nat, Entry>, segs: seq<Segment>, n: nat) {
    forall k: nat :: k < n ==> !Clash(tr, segs, k)
  }

  ghost predicate InSegments(segs: seq<Segment>, n: nat, v: nat) {
    exists j :: 0 <= j < n && j < |segs| && InSegment(segs[j], v)
  }

  /** Mapped are the pages of tr and of the first n segments. */
  ghost predicate OnlySegments(tr: map<nat, Entry>, tr': map<nat, Entry>, segs: seq<Segment>, n: nat) {
    forall v: nat :: v in tr' <==> v in tr || InSegments(segs, n, v)
  }

  lemma InSegmentsSnoc(segs: seq<Segment>, n: nat, v: nat)
    requires n < |segs|
    ensures InSegments(segs, n + 1, v) <==> InSegments(segs, n, v) || InSegment(segs[n], v)
  {
  }

  lemma OnlySegmentsStep(tr: map<nat, Entry>, tr': map<nat, Entry>, segs: seq<Segment>, n: nat, frames: map<nat, nat>, flags: nat)
    requires OnlySegments(tr, tr', segs, n) && n < |segs| && (forall v: nat :: v in frames <==> InSegment(segs[n], v))
    ensures OnlySegments(tr, tr' + Entries(frames, flags), segs, n + 1)
  {
    forall v: nat
      ensures v in tr' + Entries(frames, flags) <==> v in tr || InSegments(segs, n + 1, v)
    {
      InSegmentsSnoc(segs, n, v);
    }
  }

  /** Finding a page of the next segment taken is a clash, and no other thing is. */
  lemma TakenIsClash(tr: map<nat, Entry>, tr': map<nat, Entry>, segs: seq<Segment>, n: nat)
    requires OnlySegments(tr, tr', segs, n) && n < |segs| && SegmentOk(segs[n])
    ensures Taken(tr', Floor(segs[n].start), Ceil(segs[n].end)) <==> Clash(tr, segs, n)
  {
    if Taken(tr', Floor(segs[n].start), Ceil(segs[n].end)) {
      var v: nat :| Floor(segs[n].start) <= v < Ceil(segs[n].end) && v in tr';
      assert InSegment(segs[n], v);
    }
    if Clash(tr, segs, n) {
      var v: nat :| InSegment(segs[n], v) && (v in tr || InSegments(segs, n, v));
      assert Floor(segs[n].start) <= v < Ceil(segs[n].end) && v in tr';
    }
  }

  lemma NotTaken(tr: map<nat, Entry>, a: Area)
    requires a.frames.Keys !! tr.Keys && forall v: nat :: v in a.frames <==> InArea(a, v)
    ensures !Taken(tr, a.start, a.end)
  {
    forall v: nat | a.start <= v < a.end
      ensures v !in tr
    {
      assert v in a.frames.Keys;
    }
  }

  /** Owned are the pages of owned0, as before, and those of the first n segments,
      whose areas from `base` on record their frames. */
  ghost predicate SegmentsHeld(owned0: map<nat, nat>, owned: map<nat, nat>, areas: seq<Area>, base: nat, segs: seq<Segment>, n: nat) {
    && n <= |segs| && base + n == |areas|
    && (forall v :: v in owned0 ==> v in owned && owned[v] == owned0[v])
    && (forall v: nat :: v in owned <==> v in owned0 || InSegments(segs, n, v))
    && HeldFrom(areas, base, owned)
  }

  ghost predicate HeldFrom(areas: seq<Area>, base: nat, owned: map<nat, nat>) {
    forall i :: base <= i < |areas| ==> AreaHeld(areas[i], owned)
  }

  lemma HeldStep(owned0: map<nat, nat>, owned: map<nat, nat>, areas: seq<Area>, a: Area, base: nat, segs: seq<Segment>, n: nat)
    requires SegmentsHeld(owned0, owned, areas, base, segs, n) && n < |segs| && |areas| == base + n
    requires a.frames.Keys !! owned.Keys && AreaOf(a, segs[n])
    ensures SegmentsHeld(owned0, owned + a.frames, areas + [a], base, segs, n + 1)
  {
    var owned' := owned + a.frames;
    forall v | v in owned0
      ensures v in owned' && owned'[v] == owned0[v]
    {
      assert v in owned.Keys;
    }
    forall v: nat
      ensures v in owned' <==> v in owned0 || InSegments(segs, n + 1, v)
    {
      InSegmentsSnoc(segs, n, v);
    }
    forall i | base <= i < |areas|
      ensures AreaHeld(areas[i], owned')
    {
      AreaHeldStays(areas[i], owned, a.frames);
    }
  }

  /** The first n segments end below the trampolines. */
  ghost predicate SegmentsBelow(segs: seq<Segment>, n: nat) {
    forall k :: 0 <= k < n && k < |segs| ==> segs[k].end < USIZE && Ceil(segs[k].end) <= SIGNAL_TRAMPOLINE
  }

  /** In a space with both trampolines mapped no segment that clashes with nothing
      can be anywhere else. */
  lemma BelowTrampolines(tr: map<nat, Entry>, segs: seq<Segment>)
    requires TRAMPOLINE in tr && SIGNAL_TRAMPOLINE in tr && SegmentsOk(segs) && NoClash(tr, segs, |segs|)
    ensures SegmentsBelow(segs, |segs|)
  {
    forall k: nat | k < |segs|
      ensures SegmentOk(segs[k]) && Ceil(segs[k].end) <= SIGNAL_TRAMPOLINE
    {
      assert SegmentOk(segs[k]);
      if Ceil(segs[k].end) > SIGNAL_TRAMPOLINE { AboveClashes(tr, segs, k); }
    }
  }

  lemma AboveClashes(tr: map<nat, Entry>, segs: seq<Segment>, k: nat)
    requires TRAMPOLINE in tr && SIGNAL_TRAMPOLINE in tr && k < |segs| && SegmentOk(segs[k]) && Ceil(segs[k].end) > SIGNAL_TRAMPOLINE
    ensures Clash(tr, segs, k)
  {
    var s := segs[k];
    FloorCeil(s.start);
    FloorCeil(s.end);
    assert InSegment(s, Ceil(s.end) - 1);
  }

  ghost predicate LayoutKept(areas0: seq<Area>, owned0: map<nat, nat>, heap: map<nat, nat>, mmap: map<nat, nat>,
                             areas: seq<Area>, owned: map<nat, nat>, segs: seq<Segment>, n: nat)
  {
    LayoutOk(areas0, heap, mmap, owned0) && SegmentsBelow(segs, n) ==> LayoutOk(areas, heap, mmap, owned)
  }

  lemma LayoutStep(areas0: seq<Area>, owned0: map<nat, nat>, heap: map<nat, nat>, mmap: map<nat, nat>,
                   areas: seq<Area>, owned: map<nat, nat>, a: Area, segs: seq<Segment>, n: nat)
    requires LayoutKept(areas0, owned0, heap, mmap, areas, owned, segs, n)
    requires n < |segs| && SegmentOk(segs[n]) && AreaOf(a, segs[n]) && a.frames.Keys !! owned.Keys
    ensures LayoutKept(areas0, owned0, heap, mmap, areas + [a], owned + a.frames, segs, n + 1)
  {
    FloorCeil(segs[n].start);
    FloorCeil(segs[n].end);
    if LayoutOk(areas0, heap, mmap, owned0) && SegmentsBelow(segs, n + 1) {
      LayoutPush(areas, heap, mmap, owned, a);
    }
  }

  /** What loading the first n segments has made of translations, pages and areas. */
  ghost predicate SpaceGrown(segs: seq<Segment>, n: nat, heap: map<nat, nat>, mmap: map<nat, nat>,
                        tr0: map<nat, Entry>, owned0: map<nat, nat>, areas0: seq<Area>,
                        tr: map<nat, Entry>, owned: map<nat, nat>, areas: seq<Area>)
  {
    && |areas| == |areas0| + n && areas[..|areas0|] == areas0
    && OnlySegments(tr0, tr, segs, n) && SegmentsHeld(owned0, owned, areas, |areas0|, segs, n)
    && NoClash(tr0, segs, n) && LayoutKept(areas0, owned0, heap, mmap, areas, owned, segs, n)
  }

  lemma SpaceGrownStep(segs: seq<Segment>, n: nat, heap: map<nat, nat>, mmap: map<nat, nat>,
                  tr0: map<nat, Entry>, owned0: map<nat, nat>, areas0: seq<Area>,
                  tr: map<nat, Entry>, owned: map<nat, nat>, areas: seq<Area>, a: Area)
    requires SpaceGrown(segs, n, heap, mmap, tr0, owned0, areas0, tr, owned, areas) && n < |segs| && SegmentOk(segs[n])
    requires AreaOf(a, segs[n]) && a.frames.Keys !! tr.Keys && a.frames.Keys !! owned.Keys
    ensures SpaceGrown(segs, n + 1, heap, mmap, tr0, owned0, areas0, tr + Entries(a.frames, segs[n].perm), owned + a.frames, areas + [a])
  {
    OnlySegmentsStep(tr0, tr, segs, n, a.frames, segs[n].perm);
    HeldStep(owned0, owned, areas, a, |areas0|, segs, n);
    NoClashStep(tr0, tr, segs, n, a);
    LayoutStep(areas0, owned0, heap, mmap, areas, owned, a, segs, n);
  }

  lemma NoClashStep(tr0: map<nat, Entry>, tr: map<nat, Entry>, segs: seq<Segment>, n: nat, a: Area)
    requires NoClash(tr0, segs, n) && OnlySegments(tr0, tr, segs, n) && n < |segs| && SegmentOk(segs[n])
    requires AreaOf(a, segs[n]) && a.frames.Keys !! tr.Keys
    ensures NoClash(tr0, segs, n + 1)
  {
    TakenIsClash(tr0, tr, segs, n);
    NotTaken(tr, a);
  }

  /** Loading keeps the layout of a space exactly when all segments are below. */
  lemma LayoutIsBelow(areas: seq<Area>, heap: map<nat, nat>, mmap: map<nat, nat>, owned: map<nat, nat>, mem: Mem, base: nat, segs: seq<Segment>)
    requires LayoutOk(areas, heap, mmap, owned) && SegmentsLoaded(mem, owned, areas, base, segs, |segs|)
    ensures SegmentsBelow(segs, |segs|)
  {
    forall k | 0 <= k < |segs|
      ensures segs[k].end < USIZE && Ceil(segs[k].end) <= SIGNAL_TRAMPOLINE
    {
      assert SegmentLoaded(mem, owned, areas[base + k], segs[k]);
    }
  }

  /** Pushing one more segment keeps those loaded before. */
  lemma SegmentsStep(s: Snapshot, s': Snapshot, tr: map<nat, Entry>, owned: map<nat, nat>, areas: seq<Area>, a: Area,
                     base: nat, segs: seq<Segment>, n: nat)
    requires PagesOk(s.live, s.place, tr, owned) && s.live <= s.mem.Keys && Allocated(s, s')
    requires SegmentsLoaded(s.mem, owned, areas, base, segs, n) && n < |segs| && |areas| == base + n
    requires a.frames.Keys !! owned.Keys && SegmentLoaded(s'.mem, owned + a.frames, a, segs[n])
    ensures SegmentsLoaded(s'.mem, owned + a.frames, areas + [a], base, segs, n + 1)
  {
    var owned' := owned + a.frames;
    forall v | v in owned
      ensures v in owned' && owned'[v] == owned[v] && owned[v] in s'.mem && s'.mem[owned[v]] == s.mem[owned[v]]
    {
      assert v in owned.Keys;
      assert owned[v] in s.live - s.place.Keys;
    }
    forall k | 0 <= k < n + 1
      ensures SegmentLoaded(s'.mem, owned', (areas + [a])[base + k], segs[k])
    {
      if k < n { SegmentStays(s.mem, s'.mem, owned, owned', areas[base + k], segs[k]); }
    }
  }

  // ---------------------------------------------------------------------
  // Protection
  // ---------------------------------------------------------------------

  /** Pages lo to hi have the flags asked for and U and V besides, all others those
      they had; no page changes its frame. */
  ghost predicate Reprotected(tr: map<nat, Entry>, tr': map<nat, Entry>, lo: nat, hi: nat, flags: nat) {
    && tr'.Keys == tr.Keys
    && (forall v :: v in tr ==> v in tr' && tr'[v].ppn == tr[v].ppn)
    && (forall v :: v in tr ==> v in tr' && tr'[v].flags == if lo <= v < hi then Or(Or(flags, FLAG_U), FLAG_V) else tr[v].flags)
  }

  /** The first page from lo to hi that is not mapped, or hi. */
  ghost function FirstGap(tr: map<nat, Entry>, lo: nat, hi: nat): (k: nat)
    ensures lo <= hi ==> lo <= k <= hi && (forall v :: lo <= v < k ==> v in tr) && (k < hi ==> k !in tr)
    decreases hi - lo
  {
    if lo >= hi || lo !in tr then lo else FirstGap(tr, lo + 1, hi)
  }

  /** The same pages and frames, with new flags on pages lo to hi. */
  ghost function Protected(tr: map<nat, Entry>, lo: nat, hi: nat, flags: nat): map<nat, Entry> {
    map v | v in tr :: if lo <= v < hi then Entry(tr[v].ppn, WithUV(flags)) else tr[v]
  }

  lemma ProtectedNone(tr: map<nat, Entry>, lo: nat, flags: nat)
    ensures Protected(tr, lo, lo, flags) == tr
  {
  }

  lemma ProtectedStep(tr: map<nat, Entry>, lo: nat, vpn: nat, flags: nat)
    requires lo <= vpn
    ensures var done := Protected(tr, lo, vpn, flags);
      && (vpn in done <==> vpn in tr)
      && (vpn in tr ==> Protected(tr, lo, vpn + 1, flags) == done[vpn := Entry(done[vpn].ppn, WithUV(flags))])
  {
  }

  class Space {
    const table: Table
    var areas: seq<Area>
    var heap: map<nat, nat>
    var mmap: map<nat, nat>
    ghost var owned: map<nat, nat>

    ghost predicate Valid(m: Frames.Machine)
      reads this`owned, table, m
    {
      table.Valid(m) && PagesOk(m.live, table.place, table.tr, owned)
    }

    /** `new_bare` over a fresh page table. */
    constructor (m: Frames.Machine, table: Table)
      requires table.Valid(m)
      ensures this.table == table && Valid(m) && areas == [] && heap == map[] && mmap == map[] && owned == map[]
    {
      this.table := table;
      areas, heap, mmap, owned := [], map[], map[], map[];
    }

    /** `map_one` of a framed page: allocate a zeroed frame and map it. Fails,
        as the source panics, when memory runs out or the page is mapped. */
    method MapFresh(m: Frames.Machine, vpn: nat, flags: nat) returns (r: Option<nat>)
      requires Valid(m) && vpn < VPNS && flags < 256
      modifies this`owned, table, m
      ensures r.Some? ==> Valid(m) && vpn !in old(owned) && owned == old(owned)[vpn := r.value]
      ensures r.Some? ==> r.value !in old(m.live) && r.value in m.mem && m.mem[r.value] == ZeroFrame()
      ensures r.Some? ==> vpn !in old(table.tr)
      ensures r.None? ==> vpn in old(table.tr) || Frames.Unallocated(m.allocator) == 0
      ensures r.Some? ==>
                table.tr == old(table.tr)[vpn := Entry(r.value, WithV(flags))]
      ensures table.root == old(table.root) && Allocated(old(table.Now(m)), table.Now(m))
    {
      ghost var mem0 := m.mem;
      var frame := m.FrameAlloc();
      if frame.None? {
        return None;
      }
      TreeFrame(mem0, m.mem, table.root, table.place);
      RefinesSame(mem0, m.mem, table.root, table.tr);
      var done := table.Map(m, vpn, frame.value, flags);
      if !done.Mapped? {
        return None;
      }
      owned := owned[vpn := frame.value];
      return frame;
    }

    /** `MapArea::map` for a framed area: a fresh zeroed frame for every page. */
    method MapRange(m: Frames.Machine, lo: nat, hi: nat, flags: nat) returns (ok: bool, pages: map<nat, nat>)
      requires Valid(m) && lo <= hi <= VPNS && flags < 256
      modifies this`owned, table, m
      ensures table.root == old(table.root) && Allocated(old(table.Now(m)), table.Now(m))
      ensures ok ==> Valid(m) && owned == old(owned) + pages && pages.Keys !! old(owned.Keys)
      ensures !ok ==> Taken(old(table.tr), lo, hi) || Frames.Unallocated(m.allocator) == 0
      ensures ok ==> FreshPages(pages, lo, hi, old(m.live), m.mem)
      ensures ok ==> table.tr == old(table.tr) + Entries(pages, flags) && pages.Keys !! old(table.tr).Keys
    {
      pages := map[];
      ghost var s, tr := table.Now(m), table.tr;
      var vpn := lo;
      while vpn < hi
        invariant lo <= vpn <= hi && Valid(m) && table.root == old(table.root) && Allocated(s, table.Now(m))
        invariant owned == old(owned) + pages && pages.Keys !! old(owned.Keys)
        invariant FreshPages(pages, lo, vpn, s.live, m.mem)
        invariant table.tr == tr + Entries(pages, flags) && pages.Keys !! tr.Keys
      {
        ghost var before := table.Now(m);
        PagesApart(m.live, table.place, table.tr, old(owned), pages);
        var frame := MapFresh(m, vpn, flags);
        AllocatedTwice(s, before, table.Now(m));
        if frame.None? {
          return false, pages;
        }
        OwnedSnoc(old(owned), pages, vpn, frame.value);
        FreshPagesSnoc(pages, lo, vpn, s.live, before.mem, m.mem, frame.value);
        EntriesSnoc(tr, pages, flags, vpn, frame.value);
        pages := pages[vpn := frame.value];
        vpn := vpn + 1;
      }
      ok := true;
    }

    /** The frame an owned page is mapped to, by `translate(..).unwrap().ppn()`. */
    method FrameOf(m: Frames.Machine, vpn: nat) returns (ppn: nat)
      requires Valid(m) && vpn in owned
      ensures ppn == owned[vpn]
    {
      var bits := table.Translate(m, vpn);
      assert vpn in table.tr;
      ppn := PtePpn(bits.value);
    }

    /** A store into the frame of an owned page leaves the tables alone. */
    method StorePage(m: Frames.Machine, vpn: nat, ppn: nat, frame: seq<byte>)
      requires Valid(m) && vpn in owned && ppn == owned[vpn] && |frame| == PAGE_SIZE
      modifies m`mem
      ensures Valid(m) && m.mem == old(m.mem)[ppn := frame]
      ensures table.tr == old(table.tr)
    {
      m.Store(ppn, frame);
      TreeFrame(old(m.mem), m.mem, table.root, table.place);
      RefinesSame(old(m.mem), m.mem, table.root, table.tr);
    }

    /** What holds while data is being copied: n bytes are in place. */
    ghost predicate Copying(m: Frames.Machine, mem0: Mem, tr: map<nat, Entry>, lo: nat, hi: nat, at: nat,
                            data: seq<byte>, n: nat)
      reads this`owned, table, m
    {
      && Valid(m) && table.tr == tr
      && Owns(mem0, owned, lo, hi) && Owns(m.mem, owned, lo, hi)
      && n <= |data| && Copied(mem0, m.mem, owned, lo, hi, at, data, n)
      && Untouched(mem0, m.mem, mem0.Keys - PageFrames(owned, lo, hi))
    }

    /** Copy data[n..n'] into page vpn at offset off. */
    method CopyChunk(m: Frames.Machine, ghost mem0: Mem, ghost tr: map<nat, Entry>, ghost lo: nat, ghost hi: nat, ghost at: nat,
                     data: seq<byte>, n: nat, n': nat, vpn: nat, off: nat)
      requires lo <= vpn < hi && n <= n' <= |data| && Copying(m, mem0, tr, lo, hi, at, data, n)
      requires at + n == vpn * PAGE_SIZE + off && off + (n' - n) <= PAGE_SIZE
      modifies m`mem
      ensures Copying(m, mem0, tr, lo, hi, at, data, n')
    {
      var ppn := FrameOf(m, vpn);
      CopiedMore(mem0, m.mem, owned, lo, hi, at, data, n, vpn, off, n');
      assert ppn in PageFrames(owned, lo, hi);
      StorePage(m, vpn, ppn, Spliced(m.mem[ppn], off, data[n..n']));
    }

    /** `copy_data`: copy data to the pages from lo on, starting at an offset
        into the first page. */
    method CopyData(m: Frames.Machine, lo: nat, hi: nat, data: seq<byte>, offset: nat, ghost at: nat)
      requires Valid(m) && lo < hi && Owns(m.mem, owned, lo, hi)
      requires offset < PAGE_SIZE && offset + |data| <= (hi - lo) * PAGE_SIZE && at == lo * PAGE_SIZE + offset
      modifies m`mem
      ensures Copying(m, old(m.mem), old(table.tr), lo, hi, at, data, |data|)
    {
      var start: nat, pageOffset: nat, vpn: nat := 0, offset, lo;
      var len := |data|;
      ghost var mem0, tr := m.mem, table.tr;
      while true
        invariant lo <= vpn < hi && pageOffset < PAGE_SIZE && start <= len
        invariant at + start == vpn * PAGE_SIZE + pageOffset
        invariant Copying(m, mem0, tr, lo, hi, at, data, start)
        decreases hi - vpn
      {
        var next := start + PAGE_SIZE - pageOffset;
        if next >= len {
          CopyChunk(m, mem0, tr, lo, hi, at, data, start, |data|, vpn, pageOffset);
          return;
        }
        CopyChunk(m, mem0, tr, lo, hi, at, data, start, next, vpn, pageOffset);
        start, pageOffset := next, 0;
        vpn := vpn + 1;
      }
    }

    /** Map fresh pages lo to hi and copy data to them at an offset: the pages hold
        the data there and zero everywhere else. */
    method LoadPages(m: Frames.Machine, lo: nat, hi: nat, perm: nat, data: seq<byte>, offset: nat, ghost at: nat)
        returns (ok: bool, pages: map<nat, nat>)
      requires Valid(m) && lo < hi <= VPNS && perm < 256
      requires offset < PAGE_SIZE && offset + |data| <= (hi - lo) * PAGE_SIZE && at == lo * PAGE_SIZE + offset
      modifies this`owned, table, m
      ensures table.root == old(table.root) && Allocated(old(table.Now(m)), table.Now(m))
      ensures !ok ==> Taken(old(table.tr), lo, hi) || Frames.Unallocated(m.allocator) == 0
      ensures ok ==> Valid(m) && owned == old(owned) + pages && pages.Keys !! old(owned.Keys)
      ensures ok ==> (forall v: nat :: v in pages <==> lo <= v < hi)
      ensures ok ==> table.tr == old(table.tr) + Entries(pages, perm) && pages.Keys !! old(table.tr).Keys
      ensures ok ==> Owns(m.mem, owned, lo, hi) && Loaded(m.mem, owned, lo, hi, at, data)
    {
      ghost var before := table.Now(m);
      ok, pages := MapRange(m, lo, hi, perm);
      if !ok {
        return;
      }
      ghost var mapped := table.Now(m);
      FreshIsZero(m.mem, owned, pages, lo, hi, before.live);
      CopyData(m, lo, hi, data, offset, at);
      CopiedIntoZero(mapped.mem, m.mem, owned, lo, hi, at, data);
      CopiedIsAllocated(before, mapped, table.Now(m), owned, pages, lo, hi);
    }

    /** Push a framed area for [startVa, endVa) and load data at startVa: the
        pages hold the data there and zero everywhere else, and all data pages
        there were keep their bytes. */
    method PushSegment(m: Frames.Machine, startVa: nat, endVa: nat, perm: nat, data: seq<byte>) returns (ok: bool)
      requires Valid(m) && startVa < endVa < VA_SPACE && perm < 256 && |data| <= endVa - startVa
      modifies this`owned, this`areas, table, m
      ensures table.root == old(table.root) && Allocated(old(table.Now(m)), table.Now(m))
      ensures !ok ==> Taken(old(table.tr), Floor(startVa), Ceil(endVa)) || Frames.Unallocated(m.allocator) == 0
      ensures ok ==> Valid(m) && |areas| == |old(areas)| + 1 && areas[..|old(areas)|] == old(areas)
      ensures ok ==>
                var a := areas[|old(areas)|];
                && SegmentLoaded(m.mem, owned, a, Segment(startVa, endVa, perm, data))
                && owned == old(owned) + a.frames && a.frames.Keys !! old(owned.Keys)
                && (forall v: nat :: v in a.frames <==> InArea(a, v))
                && table.tr == old(table.tr) + Entries(a.frames, perm) && a.frames.Keys !! old(table.tr).Keys
    {
      FloorCeil(startVa);
      FloorCeil(endVa);
      var lo, hi := Floor(startVa), Ceil(endVa);
      var pages;
      ok, pages := LoadPages(m, lo, hi, perm, data, PageOffset(startVa), startVa);
      if ok {
        areas := areas + [Area(lo, hi, pages, perm)];
      }
    }

    /** Push the next segment, keeping those loaded before. */
    method PushNext(m: Frames.Machine, segs: seq<Segment>, n: nat, ghost base: nat) returns (ok: bool, ghost a: Area)
      requires Valid(m) && n < |segs| && SegmentOk(segs[n]) && |areas| == base + n
      requires SegmentsLoaded(m.mem, owned, areas, base, segs, n)
      modifies this`owned, this`areas, table, m
      ensures table.root == old(table.root) && Allocated(old(table.Now(m)), table.Now(m))
      ensures !ok ==> Taken(old(table.tr), Floor(segs[n].start), Ceil(segs[n].end)) || Frames.Unallocated(m.allocator) == 0
      ensures ok ==> Valid(m) && areas == old(areas) + [a] && SegmentsLoaded(m.mem, owned, areas, base, segs, n + 1)
      ensures ok ==> AreaOf(a, segs[n]) && a.frames.Keys !! old(table.tr).Keys && a.frames.Keys !! old(owned).Keys
      ensures ok ==> owned == old(owned) + a.frames && table.tr == old(table.tr) + Entries(a.frames, segs[n].perm)
    {
      var s := segs[n];
      ghost var before, tr, owned0, areas0 := table.Now(m), table.tr, owned, areas;
      ok := PushSegment(m, s.start, s.end, s.perm, s.data);
      a := Area(0, 0, map[], 0);
      if ok {
        a := areas[|areas0|];
        assert areas == areas0 + [a];
        SegmentsStep(before, table.Now(m), tr, owned0, areas0, a, base, segs, n);
      }
    }

    /** The first n segments are loaded, since state s with translations tr, pages
        owned0 and areas0. */
    ghost predicate LoadedSoFar(m: Frames.Machine, segs: seq<Segment>, n: nat, s: Snapshot, tr: map<nat, Entry>,
                                owned0: map<nat, nat>, areas0: seq<Area>)
      reads this, table, m
    {
      && Valid(m) && Allocated(s, table.Now(m)) && SegmentsLoaded(m.mem, owned, areas, |areas0|, segs, n)
      && SpaceGrown(segs, n, heap, mmap, tr, owned0, areas0, table.tr, owned, areas)
    }

    /** One turn of the loop. */
    method LoadNext(m: Frames.Machine, segs: seq<Segment>, n: nat, ghost s: Snapshot, ghost tr: map<nat, Entry>,
                    ghost owned0: map<nat, nat>, ghost areas0: seq<Area>) returns (ok: bool)
      requires n < |segs| && SegmentOk(segs[n]) && LoadedSoFar(m, segs, n, s, tr, owned0, areas0)
      modifies this`owned, this`areas, table, m
      ensures table.root == old(table.root) && Allocated(s, table.Now(m))
      ensures !ok ==> Clash(tr, segs, n) || Frames.Unallocated(m.allocator) == 0
      ensures ok ==> LoadedSoFar(m, segs, n + 1, s, tr, owned0, areas0)
    {
      ghost var before, tr1, areas1, owned1 := table.Now(m), table.tr, areas, owned;
      TakenIsClash(tr, tr1, segs, n);
      ghost var a;
      ok, a := PushNext(m, segs, n, |areas0|);
      AllocatedTwice(s, before, table.Now(m));
      if ok { SpaceGrownStep(segs, n, heap, mmap, tr, owned0, areas0, tr1, owned1, areas1, a); }
    }

    /** The program-header loop of `from_elf`: all segments are loaded, each with
        its own bytes and in an area that records its frames; what was owned stays.
        Fails only on overlapping pages or when memory runs out, and always on
        overlapping pages. The layout stays one that can be forked and dropped
        exactly when every segment ends below the trampolines. */
    method LoadSegments(m: Frames.Machine, segs: seq<Segment>) returns (ok: bool)
      requires Valid(m) && SegmentsOk(segs)
      modifies this`owned, this`areas, table, m
      ensures table.root == old(table.root) && Allocated(old(table.Now(m)), table.Now(m))
      ensures !ok ==> (exists k: nat :: Clash(old(table.tr), segs, k)) || Frames.Unallocated(m.allocator) == 0
      ensures ok ==> NoClash(old(table.tr), segs, |segs|)
      ensures ok ==> Valid(m) && |areas| == |old(areas)| + |segs| && areas[..|old(areas)|] == old(areas)
      ensures ok ==> SegmentsLoaded(m.mem, owned, areas, |old(areas)|, segs, |segs|)
      ensures ok ==> SegmentsHeld(old(owned), owned, areas, |old(areas)|, segs, |segs|)
      ensures ok ==> OnlySegments(old(table.tr), table.tr, segs, |segs|)
      ensures ok && old(LayoutOk(areas, heap, mmap, owned)) ==>
                (LayoutOk(areas, heap, mmap, owned) <==> SegmentsBelow(segs, |segs|))
    {
      ghost var s, tr, owned0, areas0 := table.Now(m), table.tr, owned, areas;
      var n := 0;
      while n < |segs|
        invariant 0 <= n <= |segs| && table.root == old(table.root)
        invariant LoadedSoFar(m, segs, n, s, tr, owned0, areas0)
      {
        ok := LoadNext(m, segs, n, s, tr, owned0, areas0);
        if !ok {
          return;
        }
        n := n + 1;
      }
      if LayoutOk(areas, heap, mmap, owned) { LayoutIsBelow(areas, heap, mmap, owned, m.mem, |areas0|, segs); }
      ok := true;
    }

    /** Change the flags of the next page, if it is mapped. */
    method ProtectPage(m: Frames.Machine, vpn: nat, flags: nat, ghost tr: map<nat, Entry>, ghost lo: nat) returns (ok: bool)
      requires Valid(m) && lo <= vpn < VPNS && flags < 256 && table.tr == Protected(tr, lo, vpn, flags)
      modifies m`mem, table`tr
      ensures Valid(m) && Untouched(old(m.mem), m.mem, m.live - table.place.Keys)
      ensures ok <==> vpn in tr
      ensures table.tr == Protected(tr, lo, if ok then vpn + 1 else vpn, flags)
    {
      ProtectedStep(tr, lo, vpn, flags);
      ok := table.SetPteFlags(m, vpn, flags);
    }

    /** The loop of `mprotect`: stops at the first page that is not mapped; the
        pages before it have changed by then. */
    method ProtectRange(m: Frames.Machine, lo: nat, hi: nat, flags: nat) returns (ok: bool)
      requires Valid(m) && lo <= hi <= VPNS && flags < 256
      modifies m`mem, table`tr
      ensures Valid(m) && Untouched(old(m.mem), m.mem, m.live - table.place.Keys)
      ensures var tr := old(table.tr);
        var gap := FirstGap(tr, lo, hi);
        ok == (gap == hi) && table.tr == Protected(tr, lo, gap, flags)
    {
      ghost var tr := table.tr;
      var vpn := lo;
      ProtectedNone(tr, lo, flags);
      while vpn < hi
        invariant lo <= vpn <= hi && Valid(m) && FirstGap(tr, vpn, hi) == FirstGap(tr, lo, hi)
        invariant table.tr == Protected(tr, lo, vpn, flags)
        invariant Untouched(old(m.mem), m.mem, m.live - table.place.Keys)
      {
        ok := ProtectPage(m, vpn, flags, tr, lo);
        if !ok {
          return;
        }
        vpn := vpn + 1;
      }
      return true;
    }

    /** `mprotect`: give every page that meets [startVa, endVa) new flags.
        Succeeds exactly if all of them are mapped; frames never change. */
    method Mprotect(m: Frames.Machine, startVa: nat, endVa: nat, flags: nat) returns (ok: bool)
      requires Valid(m) && endVa < VA_SPACE && Floor(startVa) <= Ceil(endVa) && flags < 256
      modifies m`mem, table`tr
      ensures Valid(m) && Untouched(old(m.mem), m.mem, m.live - table.place.Keys)
      ensures ok <==> forall v :: Floor(startVa) <= v < Ceil(endVa) ==> v in old(table.tr)
      ensures var tr := old(table.tr);
        table.tr == Protected(tr, Floor(startVa), FirstGap(tr, Floor(startVa), Ceil(endVa)), flags)
      ensures ok ==> Reprotected(old(table.tr), table.tr, Floor(startVa), Ceil(endVa), flags)
    {
      FloorCeil(endVa);
      WithIsOr(flags);
      ok := ProtectRange(m, Floor(startVa), Ceil(endVa), flags);
    }
  }
}
