/** The per-file page cache: a growable pool of cached pages, the list of pages
    that are allocated, and write-back when memory runs low. `nb` gives the disk
    blocks of each page of the file. */
module PageCacheManager {
  import opened Bytes
  import opened Options
  import opened Memory
  import opened Seqs
  import opened PageCache

  const PRIORITY_UPPERBOUND: nat := 1

  /** A cached page; `pins` counts the handles held outside the manager and
      `mapped` says that its frame is also mapped into some address space. */
  datatype Cached = Cached(priority: nat, bytes: seq<byte>, dirty: bool, pins: nat, mapped: bool)

  datatype State = State(pool: seq<Option<Cached>>, inUse: seq<nat>, disk: Disk)

  type Neighbor = nat -> seq<nat>

  // ---------------------------------------------------------------------
  // The code
  // ---------------------------------------------------------------------

  function Extended(pool: seq<Option<Cached>>, id: nat): (pool': seq<Option<Cached>>)
    ensures id < |pool'|
  {
    if id < |pool| then pool else pool + Empty(id + 1 - |pool|)
  }

  function Empty(n: nat): seq<Option<Cached>> {
    seq(n, _ => None)
  }

  function Fresh(disk: Disk, ids: seq<nat>): Cached
    requires OnDisk(disk, ids) && |Gather(disk, ids)| <= PAGE_SIZE
  {
    Cached(0, Gather(disk, ids) + Zeros(PAGE_SIZE - |Gather(disk, ids)|), false, 0, false)
  }

  function Taken(p: Cached): Cached {
    p.(priority := if p.priority < PRIORITY_UPPERBOUND then p.priority + 1 else p.priority, pins := p.pins + 1)
  }

  /** `get_cache`. */
  function Get(s: State, nb: Neighbor, id: nat): State
    requires OnDisk(s.disk, nb(id)) && |Gather(s.disk, nb(id))| <= PAGE_SIZE
  {
    var pool := Extended(s.pool, id);
    match pool[id]
    case Some(p) => s.(pool := pool[id := Some(Taken(p))])
    case None => s.(pool := pool[id := Some(Taken(Fresh(s.disk, nb(id))))], inUse := s.inUse + [id])
  }

  /** `sync`: write the page back if it is dirty. */
  function Synced(disk: Disk, ids: seq<nat>, p: Cached): Disk {
    if p.dirty && |p.bytes| >= BUFFER_SIZE * |ids| then WriteEach(disk, ids, p.bytes[..BUFFER_SIZE * |ids|]) else disk
  }

  /** What an out-of-memory pass does with page id: keep it if it is in use or
      mapped, lower its priority if it has any, else write it back and drop it. */
  datatype Fate = Keep | Lower | Drop

  function FateOf(p: Cached): Fate {
    if p.pins > 0 || p.mapped then Keep else if p.priority > 0 then Lower else Drop
  }

  function OomOne(s: State, nb: Neighbor, id: nat): State {
    if id >= |s.pool| || s.pool[id].None? then s
    else
      var p := s.pool[id].value;
      match FateOf(p)
      case Keep => s
      case Lower => s.(pool := s.pool[id := Some(p.(priority := p.priority - 1))])
      case Drop => s.(pool := s.pool[id := None], disk := Synced(s.disk, nb(id), p))
  }

  /** The pass over the allocated pages from position k on. */
  function OomFrom(s: State, nb: Neighbor, k: nat): State
    decreases |s.inUse| - k
  {
    if k >= |s.inUse| then s else OomFrom(OomOne(s, nb, s.inUse[k]), nb, k + 1)
  }

  /** The pages that are still in the pool, in order. */
  function Present(pool: seq<Option<Cached>>, ids: seq<nat>): seq<nat> {
    if ids == [] then []
    else
      var last := ids[|ids| - 1];
      Present(pool, ids[..|ids| - 1]) + (if last < |pool| && pool[last].Some? then [last] else [])
  }

  function OomPass(s: State, nb: Neighbor): State {
    var s' := OomFrom(s, nb, 0);
    s'.(inUse := Present(s'.pool, s.inUse))
  }

  function PagesOf(size: nat): nat {
    (size + PAGE_SIZE - 1) / PAGE_SIZE
  }

  /** The pages dropped by a new size must not be in use. */
  predicate CanShrink(s: State, n: nat) {
    forall i :: n <= i < |s.pool| && s.pool[i].Some? ==> s.pool[i].value.pins == 0
  }

  function Below(ids: seq<nat>, n: nat): seq<nat> {
    if ids == [] then []
    else
      var last := ids[|ids| - 1];
      Below(ids[..|ids| - 1], n) + (if last < n then [last] else [])
  }

  /** `notify_new_size`. */
  function Shrunk(s: State, n: nat): State {
    s.(pool := if n < |s.pool| then s.pool[..n] else s.pool, inUse := Below(s.inUse, n))
  }

  // ---------------------------------------------------------------------
  // The invariant and the file's content
  // ---------------------------------------------------------------------

  /** Every page has at most eight distinct blocks, all on the device, and no
      two pages share a block. */
  ghost predicate FileOk(disk: Disk, nb: Neighbor) {
    && DiskOk(disk)
    && (forall i: nat :: |nb(i)| <= PAGE_BUFFERS && Distinct(nb(i)) && OnDisk(disk, nb(i)))
    && (forall i: nat, j: nat, x :: x in nb(i) && x in nb(j) ==> i == j)
  }

  predicate IsCached(s: State, id: nat) {
    id < |s.pool| && s.pool[id].Some?
  }

  ghost predicate InvList(s: State) {
    && Distinct(s.inUse)
    && (forall id: nat :: id in s.inUse <==> IsCached(s, id))
  }

  /** A clean page agrees with its blocks on the device. */
  ghost predicate InvPage(s: State, nb: Neighbor, id: nat)
    requires FileOk(s.disk, nb) && IsCached(s, id)
  {
    var p := s.pool[id].value;
    && |p.bytes| == PAGE_SIZE
    && p.priority <= PRIORITY_UPPERBOUND
    && (!p.dirty ==> p.bytes[..BUFFER_SIZE * |nb(id)|] == Gather(s.disk, nb(id)))
  }

  ghost predicate Inv(s: State, nb: Neighbor) {
    && FileOk(s.disk, nb)
    && InvList(s)
    && (forall id: nat :: IsCached(s, id) ==> InvPage(s, nb, id))
  }

  /** The logical content of a page of the file. */
  ghost function Content(s: State, nb: Neighbor, id: nat): seq<byte>
    requires FileOk(s.disk, nb)
  {
    if IsCached(s, id) && |s.pool[id].value.bytes| == PAGE_SIZE then s.pool[id].value.bytes[..BUFFER_SIZE * |nb(id)|]
    else Gather(s.disk, nb(id))
  }

  ghost predicate SameContent(s: State, s': State, nb: Neighbor)
    requires FileOk(s.disk, nb) && FileOk(s'.disk, nb)
  {
    forall id: nat :: Content(s', nb, id) == Content(s, nb, id)
  }

  lemma {:induction false} GatherAgree(disk: Disk, disk': Disk, ids: seq<nat>)
    requires OnDisk(disk, ids) && OnDisk(disk', ids)
    requires forall i :: 0 <= i < |ids| ==> disk'[ids[i]] == disk[ids[i]]
    ensures Gather(disk', ids) == Gather(disk, ids)
    decreases |ids|
  {
    if ids != [] { GatherAgree(disk, disk', ids[1..]); }
  }

  // ---------------------------------------------------------------------
  // Write-back
  // ---------------------------------------------------------------------

  /** Writing page id back leaves the device well formed, and the blocks of
      every other page as they were. */
  lemma SyncedKeeps(disk: Disk, nb: Neighbor, id: nat, p: Cached)
    requires FileOk(disk, nb) && |p.bytes| == PAGE_SIZE
    ensures FileOk(Synced(disk, nb(id), p), nb)
    ensures forall j: nat :: j != id ==> Gather(Synced(disk, nb(id), p), nb(j)) == Gather(disk, nb(j))
    ensures p.dirty ==> Gather(Synced(disk, nb(id), p), nb(id)) == p.bytes[..BUFFER_SIZE * |nb(id)|]
  {
    var ids := nb(id);
    var disk' := Synced(disk, ids, p);
    if p.dirty {
      var chunk := p.bytes[..BUFFER_SIZE * |ids|];
      WriteEachOk(disk, ids, chunk);
      WriteThenGather(disk, ids, chunk);
      assert chunk[..BUFFER_SIZE * |ids|] == chunk;
      forall j: nat
        ensures OnDisk(disk', nb(j))
      {
        assert forall i :: 0 <= i < |nb(j)| ==> nb(j)[i] in disk.Keys;
      }
      forall j: nat | j != id
        ensures Gather(disk', nb(j)) == Gather(disk, nb(j))
      {
        forall i | 0 <= i < |nb(j)|
          ensures disk'[nb(j)[i]] == disk[nb(j)[i]]
        {
          assert nb(j)[i] in nb(j);
          WriteEachOthers(disk, ids, chunk, nb(j)[i]);
        }
        GatherAgree(disk, disk', nb(j));
      }
    }
  }

  ghost predicate InvPages(s: State, nb: Neighbor) {
    FileOk(s.disk, nb) && forall id: nat :: IsCached(s, id) ==> InvPage(s, nb, id)
  }

  /** The fate of one page: its file content stays, whatever happens to it. */
  lemma OomOneKeeps(s: State, nb: Neighbor, id: nat)
    requires InvPages(s, nb)
    ensures var s' := OomOne(s, nb, id);
      && InvPages(s', nb) && SameContent(s, s', nb) && s'.inUse == s.inUse && |s'.pool| == |s.pool|
      && (forall j: nat :: j != id ==> (IsCached(s', j) <==> IsCached(s, j)))
      && (forall j: nat :: IsCached(s', j) ==> IsCached(s, j))
  {
    var s' := OomOne(s, nb, id);
    if IsCached(s, id) {
      var p := s.pool[id].value;
      assert InvPage(s, nb, id);
      SyncedKeeps(s.disk, nb, id, p);
      forall j: nat | IsCached(s', j)
        ensures InvPage(s', nb, j)
      {
        assert InvPage(s, nb, j);
      }
      forall j: nat
        ensures Content(s', nb, j) == Content(s, nb, j)
      {
        if IsCached(s, j) { assert InvPage(s, nb, j); }
      }
    }
  }

  /** The whole pass: content kept, pages only removed, and only listed ones. */
  lemma {:induction false} OomFromKeeps(s: State, nb: Neighbor, k: nat)
    requires InvPages(s, nb)
    ensures var s' := OomFrom(s, nb, k);
      && InvPages(s', nb) && SameContent(s, s', nb) && s'.inUse == s.inUse && |s'.pool| == |s.pool|
      && (forall j: nat :: IsCached(s', j) ==> IsCached(s, j))
      && (forall j: nat :: IsCached(s, j) && j !in s.inUse ==> IsCached(s', j))
    decreases |s.inUse| - k
  {
    if k < |s.inUse| {
      OomOneKeeps(s, nb, s.inUse[k]);
      OomFromKeeps(OomOne(s, nb, s.inUse[k]), nb, k + 1);
    }
  }

  lemma {:induction false} PresentExactly(pool: seq<Option<Cached>>, ids: seq<nat>)
    requires Distinct(ids)
    ensures Distinct(Present(pool, ids))
    ensures forall x :: x in Present(pool, ids) <==> x in ids && x < |pool| && pool[x].Some?
    ensures |Present(pool, ids)| <= |ids|
    decreases |ids|
  {
    if ids != [] {
      var front, last := ids[..|ids| - 1], ids[|ids| - 1];
      LastNotInFront(ids);
      PresentExactly(pool, front);
      assert ids == front + [last];
      DistinctSnoc(Present(pool, front), last);
    }
  }

  lemma {:induction false} BelowExactly(ids: seq<nat>, n: nat)
    requires Distinct(ids)
    ensures Distinct(Below(ids, n))
    ensures forall x :: x in Below(ids, n) <==> x in ids && x < n
    decreases |ids|
  {
    if ids != [] {
      var front, last := ids[..|ids| - 1], ids[|ids| - 1];
      LastNotInFront(ids);
      BelowExactly(front, n);
      assert ids == front + [last];
      DistinctSnoc(Below(front, n), last);
    }
  }

  // ---------------------------------------------------------------------
  // Steps
  // ---------------------------------------------------------------------

  /** An out-of-memory pass never changes the file's content, and the list of
      allocated pages stays exact. */
  lemma OomKeeps(s: State, nb: Neighbor)
    requires Inv(s, nb)
    ensures Inv(OomPass(s, nb), nb) && SameContent(s, OomPass(s, nb), nb)
    ensures |OomPass(s, nb).inUse| <= |s.inUse|
  {
    OomFromKeeps(s, nb, 0);
    var mid := OomFrom(s, nb, 0);
    PresentExactly(mid.pool, s.inUse);
    var s' := OomPass(s, nb);
    forall id: nat
      ensures id in s'.inUse <==> IsCached(s', id)
      ensures IsCached(s', id) ==> InvPage(s', nb, id)
      ensures Content(s', nb, id) == Content(s, nb, id)
    {
      assert Content(mid, nb, id) == Content(s, nb, id);
      assert IsCached(s', id) <==> IsCached(mid, id);
      if IsCached(mid, id) {
        assert InvPage(mid, nb, id);
        assert IsCached(s, id);
      }
    }
  }

  /** What a pass leaves of one slot. */
  function Passed(slot: Option<Cached>): Option<Cached> {
    match slot
    case None => None
    case Some(p) =>
      match FateOf(p)
      case Keep => slot
      case Lower => Some(p.(priority := p.priority - 1))
      case Drop => None
  }

  lemma {:induction false} OomSlots(s: State, nb: Neighbor, k: nat, id: nat)
    requires Distinct(s.inUse) && id < |s.pool|
    ensures |OomFrom(s, nb, k).pool| == |s.pool|
    ensures OomFrom(s, nb, k).pool[id] == if exists i :: k <= i < |s.inUse| && s.inUse[i] == id then Passed(s.pool[id]) else s.pool[id]
    decreases |s.inUse| - k
  {
    if k < |s.inUse| {
      OomSlots(OomOne(s, nb, s.inUse[k]), nb, k + 1, id);
    }
  }

  /** A handle is held or the frame is mapped. */
  predicate InUse(p: Cached) {
    p.pins > 0 || p.mapped
  }

  /** What a pass does with every page: one in use is untouched; an unused one of
      some priority stays with the same bytes and one less; an unused one of
      priority 0 is gone from the cache and its content is on its blocks. */
  lemma OomExactly(s: State, nb: Neighbor, id: nat)
    requires Inv(s, nb)
    ensures Inv(OomPass(s, nb), nb)
    ensures var s' := OomPass(s, nb);
      if !IsCached(s, id) then !IsCached(s', id)
      else
        var p := s.pool[id].value;
        if InUse(p) then IsCached(s', id) && s'.pool[id].value == p
        else if p.priority > 0 then IsCached(s', id) && s'.pool[id].value == p.(priority := p.priority - 1)
        else !IsCached(s', id) && |p.bytes| == PAGE_SIZE && Gather(s'.disk, nb(id)) == p.bytes[..BUFFER_SIZE * |nb(id)|]
  {
    OomKeeps(s, nb);
    OomSize(s, nb, 0);
    if id < |s.pool| {
      OomSlots(s, nb, 0, id);
      assert IsCached(s, id) ==> id in s.inUse;
    }
    if IsCached(s, id) {
      assert InvPage(s, nb, id);
      assert Content(OomPass(s, nb), nb, id) == Content(s, nb, id);
    }
  }

  lemma {:induction false} OomSize(s: State, nb: Neighbor, k: nat)
    ensures |OomFrom(s, nb, k).pool| == |s.pool|
    decreases |s.inUse| - k
  {
    if k < |s.inUse| { OomSize(OomOne(s, nb, s.inUse[k]), nb, k + 1); }
  }

  /** The blocks of a page that a pass does not drop stay as they are. */
  lemma OomDevice(s: State, nb: Neighbor, id: nat)
    requires Inv(s, nb) && (IsCached(s, id) ==> IsCached(OomPass(s, nb), id))
    ensures FileOk(OomPass(s, nb).disk, nb) && Gather(OomPass(s, nb).disk, nb(id)) == Gather(s.disk, nb(id))
  {
    OomExactly(s, nb, id);
    OomDeviceFrom(s, nb, 0, id);
  }

  lemma {:induction false} OomDeviceFrom(s: State, nb: Neighbor, k: nat, id: nat)
    requires InvPages(s, nb) && (IsCached(s, id) ==> FateOf(s.pool[id].value) != Drop || (forall i :: k <= i < |s.inUse| ==> s.inUse[i] != id))
    requires Distinct(s.inUse)
    ensures FileOk(OomFrom(s, nb, k).disk, nb) && Gather(OomFrom(s, nb, k).disk, nb(id)) == Gather(s.disk, nb(id))
    decreases |s.inUse| - k
  {
    if k < |s.inUse| {
      var j := s.inUse[k];
      OomOneKeeps(s, nb, j);
      if IsCached(s, j) {
        assert InvPage(s, nb, j);
        SyncedKeeps(s.disk, nb, j, s.pool[j].value);
      }
      OomDeviceFrom(OomOne(s, nb, j), nb, k + 1, id);
    }
  }

  /** A page that is in use or mapped is never evicted or changed by a pass. */
  lemma OomKeepsUsed(s: State, nb: Neighbor, id: nat)
    requires Inv(s, nb) && IsCached(s, id) && InUse(s.pool[id].value)
    ensures IsCached(OomPass(s, nb), id) && OomPass(s, nb).pool[id] == s.pool[id]
  {
    OomExactly(s, nb, id);
  }

  /** After two passes no unused page is left. */
  lemma TwoPassesClear(s: State, nb: Neighbor, id: nat)
    requires Inv(s, nb)
    ensures Inv(OomPass(s, nb), nb)
    ensures var s2 := OomPass(OomPass(s, nb), nb);
      IsCached(s2, id) <==> IsCached(s, id) && InUse(s.pool[id].value)
  {
    OomExactly(s, nb, id);
    OomExactly(OomPass(s, nb), nb, id);
    if IsCached(s, id) { assert InvPage(s, nb, id); }
  }

  /** The pages a pass drops. */
  ghost function Idle(s: State): set<nat> {
    set id: nat | id < |s.pool| && IsCached(s, id) && !InUse(s.pool[id].value) && s.pool[id].value.priority == 0
  }

  /** The list gets shorter by the number of pages dropped. */
  lemma DroppedExactly(s: State, nb: Neighbor)
    requires Inv(s, nb)
    ensures |s.inUse| - |OomPass(s, nb).inUse| == |Idle(s)|
  {
    OomKeeps(s, nb);
    forall id: nat
      ensures id in s.inUse <==> id in OomPass(s, nb).inUse || id in Idle(s)
      ensures !(id in OomPass(s, nb).inUse && id in Idle(s))
    {
      ListedOrIdle(s, nb, id);
    }
    DistinctSize(s.inUse);
    DistinctSize(OomPass(s, nb).inUse);
    assert Elements(s.inUse) == Elements(OomPass(s, nb).inUse) + Idle(s);
    assert Elements(OomPass(s, nb).inUse) !! Idle(s);
  }

  lemma ListedOrIdle(s: State, nb: Neighbor, id: nat)
    requires Inv(s, nb)
    ensures id in s.inUse <==> id in OomPass(s, nb).inUse || id in Idle(s)
    ensures !(id in OomPass(s, nb).inUse && id in Idle(s))
  {
    OomExactly(s, nb, id);
  }

  /** As long as an unused page is cached, one of two passes drops some page. */
  lemma PassesDrop(s: State, nb: Neighbor, id: nat)
    requires Inv(s, nb) && IsCached(s, id) && !InUse(s.pool[id].value)
    ensures Inv(OomPass(s, nb), nb)
    ensures |OomPass(OomPass(s, nb), nb).inUse| < |s.inUse|
  {
    var s1 := OomPass(s, nb);
    OomExactly(s, nb, id);
    OomKeeps(s1, nb);
    DroppedExactly(s, nb);
    DroppedExactly(s1, nb);
    assert InvPage(s, nb, id);
    if s.pool[id].value.priority == 0 { assert id in Idle(s); } else { assert id in Idle(s1); }
  }

  lemma FreshOk(disk: Disk, nb: Neighbor, id: nat)
    requires FileOk(disk, nb)
    ensures OnDisk(disk, nb(id)) && |Gather(disk, nb(id))| == BUFFER_SIZE * |nb(id)| <= PAGE_SIZE
    ensures |Fresh(disk, nb(id)).bytes| == PAGE_SIZE
    ensures Fresh(disk, nb(id)).bytes[..BUFFER_SIZE * |nb(id)|] == Gather(disk, nb(id))
  {
    GatherLength(disk, nb(id));
  }

  /** Fetching a page keeps the file's content and the list exact. */
  lemma GetKeeps(s: State, nb: Neighbor, id: nat)
    requires Inv(s, nb)
    ensures OnDisk(s.disk, nb(id)) && |Gather(s.disk, nb(id))| <= PAGE_SIZE
    ensures Inv(Get(s, nb, id), nb) && SameContent(s, Get(s, nb, id), nb)
    ensures IsCached(Get(s, nb, id), id) && Get(s, nb, id).pool[id].value.pins > 0
  {
    FreshOk(s.disk, nb, id);
    if !IsCached(s, id) { DistinctSnoc(s.inUse, id); }
    var s' := Get(s, nb, id);
    forall j: nat
      ensures IsCached(s', j) <==> IsCached(s, j) || j == id
      ensures IsCached(s', j) ==> InvPage(s', nb, j)
      ensures Content(s', nb, j) == Content(s, nb, j)
    {
      if IsCached(s, j) { assert InvPage(s, nb, j); }
    }
  }

  /** What fetching does with every page: the one fetched keeps bytes and state if it
      was cached, and else holds its blocks and zeros and is clean; it has one handle
      more. No other page and no block of the device changes. */
  lemma GetExactly(s: State, nb: Neighbor, id: nat, j: nat)
    requires Inv(s, nb)
    ensures OnDisk(s.disk, nb(id)) && |Gather(s.disk, nb(id))| <= PAGE_SIZE
    ensures var s' := Get(s, nb, id);
      && s'.disk == s.disk && (IsCached(s', j) <==> IsCached(s, j) || j == id)
      && (IsCached(s, j) && j != id ==> s'.pool[j] == s.pool[j])
      && (IsCached(s, id) ==>
            var p, p' := s.pool[id].value, s'.pool[id].value;
            p'.bytes == p.bytes && p'.dirty == p.dirty && p'.mapped == p.mapped && p'.pins == p.pins + 1)
    ensures !IsCached(s, id) ==>
      var p := Get(s, nb, id).pool[id].value; var n := |Gather(s.disk, nb(id))|;
      && |p.bytes| == PAGE_SIZE && p.bytes[..n] == Gather(s.disk, nb(id)) && (forall i :: n <= i < PAGE_SIZE ==> p.bytes[i] == 0)
      && !p.dirty && !p.mapped && p.pins == 1
  {
    GetKeeps(s, nb, id);
  }

  /** A client writes a page through its handle; the page becomes dirty. */
  function Modify(s: State, id: nat, bytes: seq<byte>): State
    requires IsCached(s, id)
  {
    s.(pool := s.pool[id := Some(s.pool[id].value.(bytes := bytes, dirty := true))])
  }

  lemma ModifyKeeps(s: State, nb: Neighbor, id: nat, bytes: seq<byte>)
    requires Inv(s, nb) && IsCached(s, id) && |bytes| == PAGE_SIZE
    ensures Inv(Modify(s, id, bytes), nb)
    ensures forall j: nat :: Content(Modify(s, id, bytes), nb, j) ==
              if j == id then bytes[..BUFFER_SIZE * |nb(id)|] else Content(s, nb, j)
  {
    var s' := Modify(s, id, bytes);
    forall j: nat
      ensures IsCached(s', j) <==> IsCached(s, j)
      ensures IsCached(s', j) ==> InvPage(s', nb, j)
    {
      if IsCached(s, j) { assert InvPage(s, nb, j); }
    }
  }

  function Release(s: State, id: nat): State
    requires IsCached(s, id) && s.pool[id].value.pins > 0
  {
    s.(pool := s.pool[id := Some(s.pool[id].value.(pins := s.pool[id].value.pins - 1))])
  }

  lemma ReleaseKeeps(s: State, nb: Neighbor, id: nat)
    requires Inv(s, nb) && IsCached(s, id) && s.pool[id].value.pins > 0
    ensures Inv(Release(s, id), nb) && SameContent(s, Release(s, id), nb)
  {
    var s' := Release(s, id);
    forall j: nat
      ensures IsCached(s', j) <==> IsCached(s, j)
      ensures IsCached(s', j) ==> InvPage(s', nb, j)
      ensures Content(s', nb, j) == Content(s, nb, j)
    {
      if IsCached(s, j) { assert InvPage(s, nb, j); }
    }
  }

  /** A new size drops the pages past the end and keeps the content of the rest. */
  lemma ShrinkKeeps(s: State, nb: Neighbor, n: nat)
    requires Inv(s, nb)
    ensures Inv(Shrunk(s, n), nb)
    ensures forall j: nat :: j < n ==> Content(Shrunk(s, n), nb, j) == Content(s, nb, j)
    ensures forall j: nat :: j >= n ==> !IsCached(Shrunk(s, n), j)
  {
    var s' := Shrunk(s, n);
    BelowExactly(s.inUse, n);
    forall j: nat
      ensures IsCached(s', j) <==> IsCached(s, j) && j < n
      ensures IsCached(s', j) ==> InvPage(s', nb, j)
    {
      if IsCached(s, j) { assert InvPage(s, nb, j); }
    }
  }

  /** A page that was just used survives the next pass even if it was released. */
  lemma SecondChance(s: State, nb: Neighbor, id: nat)
    requires Inv(s, nb)
    ensures OnDisk(s.disk, nb(id)) && |Gather(s.disk, nb(id))| <= PAGE_SIZE
    ensures var s1 := Get(s, nb, id);
      IsCached(s1, id) && s1.pool[id].value.pins > 0 && IsCached(OomPass(Release(s1, id), nb), id)
  {
    GetKeeps(s, nb, id);
    ReleaseKeeps(Get(s, nb, id), nb, id);
    OomExactly(Release(Get(s, nb, id), id), nb, id);
  }

  /** A page is within a file of this size exactly if its first byte is. */
  lemma PagesOfExactly(size: nat, i: nat)
    ensures i < PagesOf(size) <==> i * PAGE_SIZE < size
  {
  }

  /** A new size keeps exactly the pages that still hold bytes of the file, as they
      are. */
  lemma ShrinkExactly(s: State, size: nat, i: nat)
    ensures var s' := Shrunk(s, PagesOf(size));
      if i * PAGE_SIZE < size && IsCached(s, i) then IsCached(s', i) && s'.pool[i] == s.pool[i] else !IsCached(s', i)
  {
    PagesOfExactly(size, i);
  }

  lemma CanShrinkExactly(s: State, size: nat)
    ensures CanShrink(s, PagesOf(size)) <==>
      forall i :: 0 <= i < |s.pool| && i * PAGE_SIZE >= size && s.pool[i].Some? ==> s.pool[i].value.pins == 0
  {
    forall i: nat
      ensures i < PagesOf(size) <==> i * PAGE_SIZE < size
    {
      PagesOfExactly(size, i);
    }
  }

  datatype Step =
    | GetStep(id: nat)
    | ModifyStep(id: nat, bytes: seq<byte>)
    | ReleaseStep(id: nat)
    | OomStep
    | ResizeStep(size: nat)

  predicate Enabled(s: State, step: Step) {
    match step
    case GetStep(_) => true
    case ModifyStep(id, bytes) => IsCached(s, id) && s.pool[id].value.pins > 0 && |bytes| == PAGE_SIZE
    case ReleaseStep(id) => IsCached(s, id) && s.pool[id].value.pins > 0
    case OomStep => true
    case ResizeStep(size) => CanShrink(s, PagesOf(size))
  }

  ghost function Apply(s: State, nb: Neighbor, step: Step): (s': State)
    requires Inv(s, nb) && Enabled(s, step)
    ensures Inv(s', nb)
  {
    match step
    case GetStep(id) => GetKeeps(s, nb, id); Get(s, nb, id)
    case ModifyStep(id, bytes) => ModifyKeeps(s, nb, id, bytes); Modify(s, id, bytes)
    case ReleaseStep(id) => ReleaseKeeps(s, nb, id); Release(s, id)
    case OomStep => OomKeeps(s, nb); OomPass(s, nb)
    case ResizeStep(size) => ShrinkKeeps(s, nb, PagesOf(size)); Shrunk(s, PagesOf(size))
  }

  ghost function Run(s: State, nb: Neighbor, steps: seq<Step>): (s': State)
    requires Inv(s, nb)
    ensures Inv(s', nb)
    decreases |steps|
  {
    if steps == [] || !Enabled(s, steps[0]) then s else Run(Apply(s, nb, steps[0]), nb, steps[1..])
  }

  /** The content page id should have after a run: the last write to it, unless
      a resize dropped it, else what it was. */
  ghost function Expected(s: State, nb: Neighbor, steps: seq<Step>, id: nat, content: seq<byte>): seq<byte>
    requires Inv(s, nb)
    decreases |steps|
  {
    if steps == [] || !Enabled(s, steps[0]) then content
    else
      var s' := Apply(s, nb, steps[0]);
      var content' := match steps[0]
                      case ModifyStep(w, bytes) => (if w == id then bytes[..BUFFER_SIZE * Blocks(nb, id)] else content)
                      case ResizeStep(size) => (if id >= PagesOf(size) then Gather'(s'.disk, nb(id)) else content)
                      case _ => content;
      Expected(s', nb, steps[1..], id, content')
  }

  ghost function Blocks(nb: Neighbor, id: nat): nat {
    if |nb(id)| <= PAGE_BUFFERS then |nb(id)| else 0
  }

  ghost function Gather'(disk: Disk, ids: seq<nat>): seq<byte> {
    if OnDisk(disk, ids) then Gather(disk, ids) else []
  }

  /** Over any run of fetches, writes, releases, out-of-memory passes and
      resizes, every page reads as the last write to it: caching and eviction
      are invisible. */
  lemma {:induction false} Transparent(s: State, nb: Neighbor, steps: seq<Step>, id: nat)
    requires Inv(s, nb)
    ensures Content(Run(s, nb, steps), nb, id) == Expected(s, nb, steps, id, Content(s, nb, id))
    decreases |steps|
  {
    if steps != [] && Enabled(s, steps[0]) {
      var s' := Apply(s, nb, steps[0]);
      match steps[0] {
        case GetStep(w) => GetKeeps(s, nb, w);
        case ModifyStep(w, bytes) => ModifyKeeps(s, nb, w, bytes);
        case ReleaseStep(w) => ReleaseKeeps(s, nb, w);
        case OomStep => OomKeeps(s, nb);
        case ResizeStep(size) => ShrinkKeeps(s, nb, PagesOf(size));
      }
      Transparent(s', nb, steps[1..], id);
    }
  }

  lemma {:induction false} PresentFrame(pool: seq<Option<Cached>>, pool': seq<Option<Cached>>, ids: seq<nat>)
    requires |pool| == |pool'|
    requires forall x: nat :: x in ids && x < |pool| ==> (pool[x].Some? <==> pool'[x].Some?)
    ensures Present(pool, ids) == Present(pool', ids)
    decreases |ids|
  {
    if ids != [] { PresentFrame(pool, pool', ids[..|ids| - 1]); }
  }

  // ---------------------------------------------------------------------
  // The manager object
  // ---------------------------------------------------------------------

  ghost predicate Sized(pool: seq<Option<Cached>>) {
    forall j :: 0 <= j < |pool| && pool[j].Some? ==> |pool[j].value.bytes| == PAGE_SIZE
  }

  /** Only the page at position k of the list may have gone. */
  lemma PresentSnoc(pool: seq<Option<Cached>>, pool': seq<Option<Cached>>, ids: seq<nat>, k: nat)
    requires Distinct(ids) && k < |ids| && ids[k] < |pool| && |pool'| == |pool| && pool' == pool[ids[k] := pool'[ids[k]]]
    ensures Present(pool', ids[..k + 1]) == Present(pool, ids[..k]) + (if pool'[ids[k]].Some? then [ids[k]] else [])
  {
    assert ids[k] !in ids[..k];
    PresentFrame(pool, pool', ids[..k]);
    assert ids[..k + 1][..k] == ids[..k];
  }

  class Manager {
    var pool: seq<Option<Cached>>
    var inUse: seq<nat>
    var disk: Disk

    ghost function Value(): State
      reads this
    {
      State(pool, inUse, disk)
    }

    constructor (disk: Disk)
      ensures Value() == State([], [], disk)
    {
      pool, inUse := [], [];
      this.disk := disk;
    }

    /** `PageCache::new` and `read_in`. */
    method ReadPage(ids: seq<nat>) returns (p: Cached)
      requires DiskOk(disk) && OnDisk(disk, ids) && |ids| <= PAGE_BUFFERS
      ensures |Gather(disk, ids)| <= PAGE_SIZE && p == Fresh(disk, ids)
    {
      GatherLength(disk, ids);
      var page := new Page();
      page.ReadIn(ids, disk);
      assert ids == [] ==> Gather(disk, ids) + Zeros(PAGE_SIZE) == Zeros(PAGE_SIZE);
      p := Cached(0, page.bytes, false, 0, false);
    }

    /** `sync`: write the page back unless it is clean. */
    method SyncPage(ids: seq<nat>, p: Cached)
      requires |p.bytes| == PAGE_SIZE && |ids| <= PAGE_BUFFERS
      modifies this`disk
      ensures disk == Synced(old(disk), ids, p)
    {
      if p.dirty {
        var page := new Page.Holding(p.bytes);
        disk := page.WriteBack(ids, disk);
      }
    }

    /** Fetch page id, reading it in if it is not cached. */
    method GetCache(nb: Neighbor, id: nat)
      requires Inv(Value(), nb)
      modifies this`pool, this`inUse
      ensures OnDisk(old(disk), nb(id)) && |Gather(old(disk), nb(id))| <= PAGE_SIZE
      ensures Value() == Get(old(Value()), nb, id)
      ensures Inv(Value(), nb) && SameContent(old(Value()), Value(), nb)
    {
      GetKeeps(Value(), nb, id);
      ghost var target := Extended(pool, id);
      while |pool| <= id
        invariant Extended(pool, id) == target
        invariant inUse == old(inUse)
      {
        assert pool + [None] + Empty(id - |pool|) == pool + Empty(id + 1 - |pool|);
        pool := pool + [None];
      }
      if pool[id].None? {
        var page := ReadPage(nb(id));
        inUse := inUse + [id];
        pool := pool[id := Some(Taken(page))];
      } else {
        pool := pool[id := Some(Taken(pool[id].value))];
      }
    }

    /** The fate of one page; says whether it stays. */
    method OomPage(nb: Neighbor, id: nat) returns (stays: bool)
      requires IsCached(Value(), id) && |pool[id].value.bytes| == PAGE_SIZE && |nb(id)| <= PAGE_BUFFERS
      modifies this`pool, this`disk
      ensures Value() == OomOne(old(Value()), nb, id)
      ensures stays <==> IsCached(Value(), id)
      ensures |pool| == |old(pool)| && pool == old(pool)[id := pool[id]]
      ensures stays ==> pool[id].value.bytes == old(pool)[id].value.bytes
    {
      var p := pool[id].value;
      if p.pins > 0 || p.mapped {
        stays := true;
      } else if p.priority > 0 {
        pool := pool[id := Some(p.(priority := p.priority - 1))];
        stays := true;
      } else {
        SyncPage(nb(id), p);
        pool := pool[id := None];
        stays := false;
      }
    }

    /** The pass over the allocated pages. */
    method OomAll(nb: Neighbor, ids: seq<nat>) returns (kept: seq<nat>, dropped: nat)
      requires inUse == ids && Distinct(ids) && forall j :: 0 <= j < |ids| ==> IsCached(Value(), ids[j])
      requires Sized(pool) && forall i: nat :: |nb(i)| <= PAGE_BUFFERS
      modifies this`pool, this`disk
      ensures Value() == OomFrom(old(Value()), nb, 0) && kept == Present(pool, ids) && dropped == |ids| - |kept|
    {
      kept, dropped := [], 0;
      var k := 0;
      while k < |ids|
        invariant 0 <= k <= |ids| && inUse == ids && dropped == k - |kept| && Sized(pool)
        invariant kept == Present(pool, ids[..k])
        invariant forall j :: k <= j < |ids| ==> IsCached(Value(), ids[j])
        invariant OomFrom(Value(), nb, k) == OomFrom(old(Value()), nb, 0)
      {
        ghost var before := pool;
        var stays := OomPage(nb, ids[k]);
        PresentSnoc(before, pool, ids, k);
        if stays {
          kept := kept + [ids[k]];
        } else {
          dropped := dropped + 1;
        }
        k := k + 1;
      }
      assert ids[..k] == ids;
    }


    /** Write back and drop what is neither in use nor recently used; report
        how many pages were dropped. */
    method Oom(nb: Neighbor) returns (dropped: nat)
      requires Inv(Value(), nb)
      modifies this
      ensures Value() == OomPass(old(Value()), nb)
      ensures dropped == |Idle(old(Value()))| == |old(inUse)| - |inUse|
      ensures Inv(Value(), nb) && SameContent(old(Value()), Value(), nb)
    {
      OomKeeps(Value(), nb);
      DroppedExactly(Value(), nb);
      assert forall j :: 0 <= j < |inUse| ==> inUse[j] in inUse;
      assert Sized(pool) by {
        forall j | 0 <= j < |pool| && pool[j].Some?
          ensures |pool[j].value.bytes| == PAGE_SIZE
        {
          assert IsCached(Value(), j) && InvPage(Value(), nb, j);
        }
      }
      var kept;
      kept, dropped := OomAll(nb, inUse);
      inUse := kept;
    }

    /** Drop the pages past the new end of the file. Fails, as the source
        panics, if one of them is in use. */
    method NotifyNewSize(newSize: nat) returns (ok: bool)
      modifies this`pool, this`inUse
      ensures ok <==> CanShrink(old(Value()), PagesOf(newSize))
      ensures ok <==> forall i :: 0 <= i < |old(pool)| && i * PAGE_SIZE >= newSize && old(pool)[i].Some? ==> old(pool)[i].value.pins == 0
      ensures ok ==> Value() == Shrunk(old(Value()), PagesOf(newSize))
    {
      var n := (newSize + PAGE_SIZE - 1) / PAGE_SIZE;
      CanShrinkExactly(Value(), newSize);
      ghost var pool0 := pool;
      while |pool| > n
        invariant |pool| <= |pool0| && pool == pool0[..|pool|] && (|pool0| >= n ==> |pool| >= n)
        invariant |pool0| < n ==> pool == pool0
        invariant forall i :: |pool| <= i < |pool0| && pool0[i].Some? ==> pool0[i].value.pins == 0
        invariant inUse == old(inUse)
        decreases |pool|
      {
        var last := pool[|pool| - 1];
        if last.Some? && last.value.pins > 0 {
          return false;
        }
        pool := pool[..|pool| - 1];
      }
      var kept: seq<nat> := [];
      var k := 0;
      while k < |inUse|
        invariant 0 <= k <= |inUse| && kept == Below(inUse[..k], n)
        invariant inUse == old(inUse) && |pool| <= |pool0| && pool == pool0[..|pool|]
      {
        assert inUse[..k + 1][..k] == inUse[..k];
        if inUse[k] < n {
          kept := kept + [inUse[k]];
        }
        k := k + 1;
      }
      assert inUse[..k] == inUse;
      inUse := kept;
      ok := true;
    }
  }
}
