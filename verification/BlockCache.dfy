/** The write-back cache of single disk blocks: sixteen slots with priorities,
    pinned while a client holds a handle, evicted by an out-of-memory pass. */
module BlockCache {
  import opened Bytes
  import opened Options

  type Block = seq<byte>

  const PRIORITY_UPPERBOUND: nat := 1

  /** `usize::MAX` marks an unused slot. */
  const UNUSED: nat := 0xFFFF_FFFF_FFFF_FFFF

  datatype Slot = Slot(priority: nat, blockId: nat, buffer: Block)

  /** The slots, the number of handles clients hold on each, and the device. */
  datatype State = State(slots: seq<Slot>, pins: seq<nat>, disk: map<nat, Block>)

  // ---------------------------------------------------------------------
  // The code
  // ---------------------------------------------------------------------

  /** What an out-of-memory pass does to slot i: skip it if pinned, lower its
      priority if it has any, else write it back and free it. */
  function OomSlot(s: State, i: nat): State
    requires i < |s.slots| == |s.pins|
  {
    var c := s.slots[i];
    if s.pins[i] > 0 then s
    else if c.priority > 0 then s.(slots := s.slots[i := c.(priority := c.priority - 1)])
    else s.(slots := s.slots[i := c.(blockId := UNUSED)], disk := s.disk[c.blockId := c.buffer])
  }

  function OomFrom(s: State, i: nat): State
    requires |s.slots| == |s.pins|
    decreases |s.slots| - i
  {
    if i >= |s.slots| then s else OomFrom(OomSlot(s, i), i + 1)
  }

  function OomPass(s: State): State
    requires |s.slots| == |s.pins|
  {
    OomFrom(s, 0)
  }

  /** The first slot from i on that holds this block id. */
  function Find(slots: seq<Slot>, id: nat, i: nat): (k: nat)
    ensures i <= |slots| ==> i <= k <= |slots|
    ensures i <= k < |slots| ==> slots[k].blockId == id
    ensures forall j :: i <= j < k && j < |slots| ==> slots[j].blockId != id
    decreases |slots| - i
  {
    if i >= |slots| then i else if slots[i].blockId == id then i else Find(slots, id, i + 1)
  }

  function Raised(priority: nat): nat {
    if priority < PRIORITY_UPPERBOUND then priority + 1 else priority
  }

  /** State and slot after handing out slot k. */
  function HandOut(s: State, k: nat): State
    requires k < |s.slots| == |s.pins|
  {
    s.(slots := s.slots[k := s.slots[k].(priority := Raised(s.slots[k].priority))], pins := s.pins[k := s.pins[k] + 1])
  }

  function ReadIn(s: State, k: nat, id: nat): State
    requires k < |s.slots| && id in s.disk
  {
    s.(slots := s.slots[k := s.slots[k].(blockId := id, buffer := s.disk[id])])
  }

  /** Read block id into the free slot k and hand it out. */
  function Load(s: State, k: nat, id: nat): State
    requires k < |s.slots| == |s.pins| && id in s.disk
  {
    HandOut(ReadIn(s, k, id), k)
  }

  /** The state in which `alloc_buffer_cache` finds a free slot: now, or after one
      or two passes; none if two passes free nothing. */
  function MakeRoom(s: State): Option<State>
    requires |s.slots| == |s.pins|
  {
    if Find(s.slots, UNUSED, 0) < |s.slots| then Some(s)
    else
      OomSameShape(s, 0);
      var s1 := OomPass(s);
      if Find(s1.slots, UNUSED, 0) < |s1.slots| then Some(s1)
      else
        OomSameShape(s1, 0);
        var s2 := OomPass(s1);
        if Find(s2.slots, UNUSED, 0) < |s2.slots| then Some(s2) else None
  }

  lemma {:induction false} OomSameShape(s: State, i: nat)
    requires |s.slots| == |s.pins|
    ensures |OomFrom(s, i).slots| == |s.slots| && OomFrom(s, i).pins == s.pins
    decreases |s.slots| - i
  {
    if i < |s.slots| { OomSameShape(OomSlot(s, i), i + 1); }
  }

  // ---------------------------------------------------------------------
  // What the client sees
  // ---------------------------------------------------------------------

  /** No block is cached twice, every cached block is on the device, pinned slots
      are in use, and priorities stay within their bound. */
  ghost predicate Inv(s: State) {
    && |s.slots| == |s.pins|
    && UNUSED !in s.disk
    && (forall i :: 0 <= i < |s.slots| ==> s.slots[i].priority <= PRIORITY_UPPERBOUND)
    && (forall i :: 0 <= i < |s.slots| ==> s.slots[i].blockId == UNUSED || s.slots[i].blockId in s.disk)
    && (forall i :: 0 <= i < |s.slots| && s.pins[i] > 0 ==> s.slots[i].blockId != UNUSED)
    && (forall i, j :: 0 <= i < j < |s.slots| && s.slots[i].blockId == s.slots[j].blockId ==> s.slots[i].blockId == UNUSED)
  }

  /** The logical content of a block: its cached buffer if there is one, else
      the block on the device. */
  ghost function Logical(s: State, id: nat): Block
    requires id in s.disk
  {
    var k := Find(s.slots, id, 0);
    if k < |s.slots| then s.slots[k].buffer else s.disk[id]
  }

  ghost function LogicalDisk(s: State): map<nat, Block> {
    map id | id in s.disk :: Logical(s, id)
  }

  lemma LogicalHeld(s: State, k: nat)
    requires Inv(s) && k < |s.slots| && s.slots[k].blockId != UNUSED
    ensures Logical(s, s.slots[k].blockId) == s.slots[k].buffer
  {
    assert Find(s.slots, s.slots[k].blockId, 0) == k;
  }

  lemma FindSame(slots: seq<Slot>, slots': seq<Slot>, id: nat)
    requires |slots| == |slots'|
    requires forall j :: 0 <= j < |slots| ==> (slots[j].blockId == id <==> slots'[j].blockId == id)
    ensures Find(slots, id, 0) == Find(slots', id, 0)
  {
  }

  lemma OomSlotInv(s: State, i: nat)
    requires Inv(s) && i < |s.slots| && s.slots[i].blockId != UNUSED
    ensures Inv(OomSlot(s, i)) && OomSlot(s, i).disk.Keys == s.disk.Keys
  {
  }

  /** Lowering a priority, or writing a block back and freeing its slot, changes
      no block's logical content. */
  lemma OomSlotKeeps(s: State, i: nat)
    requires Inv(s) && i < |s.slots| && s.slots[i].blockId != UNUSED
    ensures Inv(OomSlot(s, i)) && LogicalDisk(OomSlot(s, i)) == LogicalDisk(s)
    ensures OomSlot(s, i).disk.Keys == s.disk.Keys
  {
    OomSlotInv(s, i);
    var s' := OomSlot(s, i);
    forall id | id in s.disk
      ensures Logical(s', id) == Logical(s, id)
    {
      if id != s.slots[i].blockId {
        FindSame(s.slots, s'.slots, id);
      } else {
        LogicalHeld(s, i);
        if s'.slots[i].blockId == id {
          LogicalHeld(s', i);
        } else {
          assert forall j :: 0 <= j < |s'.slots| ==> s'.slots[j].blockId != id;
        }
      }
    }
  }

  ghost predicate Busy(s: State, from: nat) {
    forall i :: from <= i < |s.slots| ==> s.slots[i].blockId != UNUSED
  }

  /** A pass over slots that are all in use keeps the logical disk and never
      writes the unused id to the device. */
  lemma {:induction false} OomKeeps(s: State, i: nat)
    requires Inv(s) && Busy(s, i)
    ensures Inv(OomFrom(s, i)) && LogicalDisk(OomFrom(s, i)) == LogicalDisk(s)
    ensures OomFrom(s, i).disk.Keys == s.disk.Keys
    decreases |s.slots| - i
  {
    if i < |s.slots| {
      OomSlotKeeps(s, i);
      OomKeeps(OomSlot(s, i), i + 1);
    }
  }

  /** What a pass leaves of each slot. */
  function AfterOom(c: Slot, pins: nat): Slot {
    if pins > 0 then c
    else if c.priority > 0 then c.(priority := c.priority - 1)
    else c.(blockId := UNUSED)
  }

  lemma {:induction false} OomSlots(s: State, i: nat)
    requires |s.slots| == |s.pins|
    ensures |OomFrom(s, i).slots| == |s.slots|
    ensures forall k :: 0 <= k < |s.slots| ==>
              OomFrom(s, i).slots[k] == if k < i then s.slots[k] else AfterOom(s.slots[k], s.pins[k])
    decreases |s.slots| - i
  {
    if i < |s.slots| { OomSlots(OomSlot(s, i), i + 1); }
  }

  /** A pass with every slot pinned changes nothing at all. */
  lemma {:induction false} OomAllPinned(s: State, i: nat)
    requires |s.slots| == |s.pins| && forall k :: i <= k < |s.slots| ==> s.pins[k] > 0
    ensures OomFrom(s, i) == s
    decreases |s.slots| - i
  {
    if i < |s.slots| { OomAllPinned(s, i + 1); }
  }

  predicate Full(s: State) {
    Find(s.slots, UNUSED, 0) >= |s.slots|
  }

  /** One pass over a full cache. */
  lemma OnePass(s: State)
    requires Inv(s) && Full(s)
    ensures Inv(OomPass(s)) && LogicalDisk(OomPass(s)) == LogicalDisk(s) && OomPass(s).disk.Keys == s.disk.Keys
    ensures OomPass(s).pins == s.pins && |OomPass(s).slots| == |s.slots|
    ensures forall k :: 0 <= k < |s.slots| ==> OomPass(s).slots[k] == AfterOom(s.slots[k], s.pins[k])
  {
    OomKeeps(s, 0);
    OomSlots(s, 0);
    OomSameShape(s, 0);
  }

  /** Slot j is one a pass evicts. */
  predicate Evicted(s: State, j: nat)
    requires j < |s.slots| == |s.pins|
  {
    s.pins[j] == 0 && s.slots[j].priority == 0
  }

  /** A pass writes to the device only the blocks it evicts. */
  lemma {:induction false} OomDevice(s: State, i: nat, id: nat)
    requires |s.slots| == |s.pins| && id in s.disk
    requires forall j :: i <= j < |s.slots| && Evicted(s, j) ==> s.slots[j].blockId != id
    ensures id in OomFrom(s, i).disk && OomFrom(s, i).disk[id] == s.disk[id]
    decreases |s.slots| - i
  {
    if i < |s.slots| {
      var s' := OomSlot(s, i);
      assert Evicted(s, i) ==> s.slots[i].blockId != id;
      assert forall j :: i < j < |s.slots| ==> s'.slots[j] == s.slots[j];
      assert forall j :: i < j < |s.slots| && Evicted(s', j) ==> Evicted(s, j);
      OomDevice(s', i + 1, id);
    }
  }

  /** What a pass over a full cache does with slot k: a pinned one is untouched; one
      of some priority stays with one less; one of priority 0 is freed and its
      buffer is on the device. */
  lemma OomExactly(s: State, k: nat)
    requires Inv(s) && Full(s) && k < |s.slots|
    ensures |OomPass(s).slots| == |s.slots| && s.slots[k].blockId in s.disk && s.slots[k].blockId in OomPass(s).disk
    ensures var c, s' := s.slots[k], OomPass(s);
      if s.pins[k] > 0 then s'.slots[k] == c && s'.disk[c.blockId] == s.disk[c.blockId]
      else if c.priority > 0 then s'.slots[k] == c.(priority := c.priority - 1) && s'.disk[c.blockId] == s.disk[c.blockId]
      else s'.slots[k].blockId == UNUSED && s'.disk[c.blockId] == c.buffer
  {
    OnePass(s);
    if s.pins[k] > 0 || s.slots[k].priority > 0 {
      OomDevice(s, 0, s.slots[k].blockId);
    } else {
      EvictedIsWritten(s, OomPass(s), k);
    }
  }

  /** A block that is no longer cached but has the same logical content is on the
      device. */
  lemma EvictedIsWritten(s: State, s': State, k: nat)
    requires Inv(s) && k < |s.slots| == |s'.slots| && s.slots[k].blockId in s.disk && s'.disk.Keys == s.disk.Keys
    requires LogicalDisk(s') == LogicalDisk(s) && s'.slots[k].blockId == UNUSED
    requires forall j :: 0 <= j < |s.slots| ==> s'.slots[j].blockId == s.slots[j].blockId || s'.slots[j].blockId == UNUSED
    ensures s'.disk[s.slots[k].blockId] == s.slots[k].buffer
  {
    var id := s.slots[k].blockId;
    LogicalHeld(s, k);
    assert LogicalDisk(s')[id] == LogicalDisk(s)[id];
    assert Find(s'.slots, id, 0) >= |s'.slots|;
  }

  /** Nothing is evicted while a slot is free. */
  lemma RoomAtOnce(s: State, k: nat)
    requires Inv(s) && k < |s.slots| && s.slots[k].blockId == UNUSED
    ensures MakeRoom(s) == Some(s)
  {
  }

  /** Making room keeps the invariant and the logical disk. */
  lemma RoomKeeps(s: State)
    requires Inv(s) && MakeRoom(s).Some?
    ensures var r := MakeRoom(s).value;
      Inv(r) && !Full(r) && r.pins == s.pins && LogicalDisk(r) == LogicalDisk(s) && r.disk.Keys == s.disk.Keys
  {
    if Full(s) {
      OnePass(s);
      if Full(OomPass(s)) { OnePass(OomPass(s)); }
    }
  }

  /** Priorities never exceed one, so an unpinned slot survives one pass and is
      freed by the second at the latest. */
  lemma TwoPassesSuffice(s: State, k: nat)
    requires Inv(s) && k < |s.slots| && s.pins[k] == 0
    ensures MakeRoom(s).Some?
  {
    if Full(s) {
      OnePass(s);
      if Full(OomPass(s)) {
        OnePass(OomPass(s));
        assert OomPass(OomPass(s)).slots[k].blockId == UNUSED;
      }
    }
  }

  /** `alloc_buffer_cache` finds a slot exactly if one is free or unpinned, and
      then needs at most two passes; otherwise a pass changes nothing, so the
      loop never ends. */
  lemma RoomExactly(s: State)
    requires Inv(s)
    ensures MakeRoom(s).Some? <==> exists k :: 0 <= k < |s.slots| && (s.slots[k].blockId == UNUSED || s.pins[k] == 0)
    ensures MakeRoom(s).None? ==> OomPass(s) == s
  {
    if k :| 0 <= k < |s.slots| && s.pins[k] == 0 {
      TwoPassesSuffice(s, k);
    } else {
      OomAllPinned(s, 0);
    }
  }

  /** A slot pinned before keeps its block and buffer while room is made. */
  lemma RoomKeepsPinned(s: State, k: nat)
    requires Inv(s) && MakeRoom(s).Some? && k < |s.slots| && s.pins[k] > 0
    ensures |MakeRoom(s).value.slots| == |s.slots| && MakeRoom(s).value.slots[k] == s.slots[k]
  {
    OomSlots(s, 0);
    OomSameShape(s, 0);
    OomSlots(OomPass(s), 0);
  }

  // ---------------------------------------------------------------------
  // Clients
  // ---------------------------------------------------------------------

  /** `get_block_cache`: the new state and the slot handed out; none if no slot
      can ever be freed. */
  function Get(s: State, id: nat): Option<(State, nat)>
    requires |s.slots| == |s.pins|
  {
    var k := Find(s.slots, id, 0);
    if k < |s.slots| then Some((HandOut(s, k), k))
    else
      match MakeRoom(s)
      case None => None
      case Some(r) =>
        var k := Find(r.slots, UNUSED, 0);
        if id in r.disk && k < |r.slots| == |r.pins| then Some((Load(r, k, id), k)) else None
  }

  /** A client writes through the handle it holds on slot k. */
  function Modify(s: State, k: nat, data: Block): State
    requires k < |s.slots|
  {
    s.(slots := s.slots[k := s.slots[k].(buffer := data)])
  }

  function Release(s: State, k: nat): State
    requires k < |s.pins| && s.pins[k] > 0
  {
    s.(pins := s.pins[k := s.pins[k] - 1])
  }

  lemma HandOutKeeps(s: State, k: nat)
    requires Inv(s) && k < |s.slots| && s.slots[k].blockId != UNUSED
    ensures Inv(HandOut(s, k)) && LogicalDisk(HandOut(s, k)) == LogicalDisk(s)
  {
    var s' := HandOut(s, k);
    forall id | id in s.disk
      ensures Logical(s', id) == Logical(s, id)
    {
      FindSame(s.slots, s'.slots, id);
    }
  }

  lemma ReadInInv(s: State, k: nat, id: nat)
    requires Inv(s) && k < |s.slots| && s.slots[k].blockId == UNUSED && id in s.disk
    requires Find(s.slots, id, 0) >= |s.slots|
    ensures Inv(ReadIn(s, k, id))
  {
    assert forall j :: 0 <= j < |s.slots| ==> s.slots[j].blockId != id;
  }

  lemma ReadInKeeps(s: State, k: nat, id: nat)
    requires Inv(s) && k < |s.slots| && s.slots[k].blockId == UNUSED && id in s.disk
    requires Find(s.slots, id, 0) >= |s.slots|
    ensures Inv(ReadIn(s, k, id)) && LogicalDisk(ReadIn(s, k, id)) == LogicalDisk(s)
  {
    ReadInInv(s, k, id);
    var s' := ReadIn(s, k, id);
    forall b | b in s.disk
      ensures Logical(s', b) == Logical(s, b)
    {
      if b == id {
        LogicalHeld(s', k);
      } else {
        FindSame(s.slots, s'.slots, b);
      }
    }
  }

  /** Fetching a block hands out a slot that holds its logical content, and
      changes no block's logical content and no pinned slot's block. */
  lemma GetKeeps(s: State, id: nat)
    requires Inv(s) && id in s.disk && Get(s, id).Some?
    ensures var (s', k) := Get(s, id).value;
      && Inv(s') && LogicalDisk(s') == LogicalDisk(s) && s'.disk.Keys == s.disk.Keys
      && k < |s'.slots| == |s.slots| && s'.slots[k].blockId == id && s'.slots[k].buffer == Logical(s, id)
      && s'.pins == s.pins[k := s.pins[k] + 1]
  {
    var k := Find(s.slots, id, 0);
    if k < |s.slots| {
      LogicalHeld(s, k);
      HandOutKeeps(s, k);
    } else {
      RoomKeeps(s);
      var r := MakeRoom(s).value;
      RoomLacks(s, id);
      var k := Find(r.slots, UNUSED, 0);
      ReadInKeeps(r, k, id);
      HandOutKeeps(ReadIn(r, k, id), k);
      assert Logical(r, id) == LogicalDisk(r)[id] == LogicalDisk(s)[id];
    }
  }

  /** Making room brings no block into the cache. */
  lemma RoomLacks(s: State, id: nat)
    requires Inv(s) && MakeRoom(s).Some? && id != UNUSED && Find(s.slots, id, 0) >= |s.slots|
    ensures |MakeRoom(s).value.slots| == |s.slots| && Find(MakeRoom(s).value.slots, id, 0) >= |s.slots|
  {
    if Full(s) {
      OnePass(s);
      if Full(OomPass(s)) { OnePass(OomPass(s)); }
    }
  }

  /** Handing out a cached block changes no other slot and not the device. */
  lemma HitExactly(s: State, k: nat)
    requires Inv(s) && k < |s.slots| && s.slots[k].blockId in s.disk
    ensures Get(s, s.slots[k].blockId).Some?
    ensures var (s', j) := Get(s, s.slots[k].blockId).value;
      && j == k && s'.disk == s.disk && |s'.slots| == |s.slots|
      && (forall i :: 0 <= i < |s.slots| && i != k ==> s'.slots[i] == s.slots[i] && s'.pins[i] == s.pins[i])
  {
    assert Find(s.slots, s.slots[k].blockId, 0) == k;
  }

  /** Fetching a block that is not cached while a slot is free changes that slot only:
      it holds the device's block, with one handle. */
  lemma MissExactly(s: State, id: nat, free: nat)
    requires Inv(s) && id in s.disk && Find(s.slots, id, 0) >= |s.slots| && free < |s.slots| && s.slots[free].blockId == UNUSED
    ensures Get(s, id).Some?
    ensures var (s', k) := Get(s, id).value;
      && k < |s'.slots| == |s.slots| == |s'.pins| && s.slots[k].blockId == UNUSED && s'.disk == s.disk
      && s'.slots[k].blockId == id && s'.slots[k].buffer == s.disk[id] && s'.pins[k] == s.pins[k] + 1 == 1
      && (forall i :: 0 <= i < |s.slots| && i != k ==> s'.slots[i] == s.slots[i] && s'.pins[i] == s.pins[i])
  {
    RoomAtOnce(s, free);
  }

  /** A block that was just used is still cached after the next pass, even if its
      handle was dropped. */
  lemma SecondChance(s: State, id: nat)
    requires Inv(s) && id in s.disk && Get(s, id).Some?
    ensures var (s1, k) := Get(s, id).value;
      && k < |s1.slots| == |s1.pins| && s1.pins[k] > 0
      && |OomPass(Release(s1, k)).slots| == |s1.slots| && OomPass(Release(s1, k)).slots[k].blockId == id
      && OomPass(Release(s1, k)).slots[k].buffer == Logical(s, id)
  {
    GetKeeps(s, id);
    var (s1, k) := Get(s, id).value;
    assert s1.slots[k].priority > 0;
    OomSlots(Release(s1, k), 0);
  }

  /** Writing through a handle changes that block's logical content only. */
  lemma ModifyKeeps(s: State, k: nat, data: Block)
    requires Inv(s) && k < |s.slots| && s.slots[k].blockId != UNUSED
    ensures Inv(Modify(s, k, data))
    ensures LogicalDisk(Modify(s, k, data)) == LogicalDisk(s)[s.slots[k].blockId := data]
  {
    var s' := Modify(s, k, data);
    LogicalHeld(s', k);
    forall id | id in s.disk
      ensures Logical(s', id) == if id == s.slots[k].blockId then data else Logical(s, id)
    {
      FindSame(s.slots, s'.slots, id);
    }
  }

  lemma ReleaseKeeps(s: State, k: nat)
    requires Inv(s) && k < |s.pins| && s.pins[k] > 0
    ensures Inv(Release(s, k)) && LogicalDisk(Release(s, k)) == LogicalDisk(s)
  {
    assert forall id :: id in s.disk ==> Logical(Release(s, k), id) == Logical(s, id);
  }

  datatype Step = GetStep(id: nat) | ModifyStep(k: nat, data: Block) | ReleaseStep(k: nat)

  predicate Enabled(s: State, step: Step)
    requires |s.slots| == |s.pins|
  {
    match step
    case GetStep(id) => id in s.disk && Get(s, id).Some?
    case ModifyStep(k, _) => k < |s.slots| && s.pins[k] > 0
    case ReleaseStep(k) => k < |s.pins| && s.pins[k] > 0
  }

  function Apply(s: State, step: Step): State
    requires |s.slots| == |s.pins| && Enabled(s, step)
  {
    match step
    case GetStep(id) => Get(s, id).value.0
    case ModifyStep(k, data) => Modify(s, k, data)
    case ReleaseStep(k) => Release(s, k)
  }

  lemma StepKeeps(s: State, step: Step)
    requires Inv(s) && Enabled(s, step)
    ensures Inv(Apply(s, step))
    ensures LogicalDisk(Apply(s, step)) ==
              if step.ModifyStep? then LogicalDisk(s)[s.slots[step.k].blockId := step.data] else LogicalDisk(s)
  {
    match step
    case GetStep(id) => GetKeeps(s, id);
    case ModifyStep(k, data) => ModifyKeeps(s, k, data);
    case ReleaseStep(k) => ReleaseKeeps(s, k);
  }

  /** The states of a run; it ends early at a step that cannot be taken. */
  ghost function Run(s: State, steps: seq<Step>): (s': State)
    requires Inv(s)
    ensures Inv(s')
    decreases |steps|
  {
    if steps == [] || !Enabled(s, steps[0]) then s
    else
      StepKeeps(s, steps[0]);
      Run(Apply(s, steps[0]), steps[1..])
  }

  /** The blocks the clients of a run wrote, in order, as they would have been
      written to the device directly. */
  ghost function Written(s: State, steps: seq<Step>): seq<(nat, Block)>
    requires Inv(s)
    decreases |steps|
  {
    if steps == [] || !Enabled(s, steps[0]) then []
    else
      StepKeeps(s, steps[0]);
      (if steps[0].ModifyStep? then [(s.slots[steps[0].k].blockId, steps[0].data)] else [])
      + Written(Apply(s, steps[0]), steps[1..])
  }

  function WriteAll(disk: map<nat, Block>, writes: seq<(nat, Block)>): map<nat, Block>
    decreases |writes|
  {
    if writes == [] then disk else WriteAll(disk[writes[0].0 := writes[0].1], writes[1..])
  }

  /** Over any run, the cache is invisible: the logical disk is what the same
      writes make of the device directly. */
  lemma {:induction false} Transparent(s: State, steps: seq<Step>)
    requires Inv(s)
    ensures LogicalDisk(Run(s, steps)) == WriteAll(LogicalDisk(s), Written(s, steps))
    decreases |steps|
  {
    if steps != [] && Enabled(s, steps[0]) {
      StepKeeps(s, steps[0]);
      var s' := Apply(s, steps[0]);
      Transparent(s', steps[1..]);
      var rest := Written(s', steps[1..]);
      if steps[0].ModifyStep? {
        assert ([(s.slots[steps[0].k].blockId, steps[0].data)] + rest)[1..] == rest;
      } else {
        assert [] + rest == rest;
      }
    }
  }

  /** A slot some client holds keeps its block through every step, and its
      content through every step but a write through a handle on that slot. */
  lemma PinnedStays(s: State, step: Step, k: nat)
    requires Inv(s) && Enabled(s, step) && k < |s.slots| && s.pins[k] > 0
    ensures k < |Apply(s, step).slots| && Apply(s, step).slots[k].blockId == s.slots[k].blockId
    ensures Apply(s, step).slots[k].buffer == s.slots[k].buffer || (step.ModifyStep? && step.k == k)
  {
    if step.GetStep? && Find(s.slots, step.id, 0) >= |s.slots| {
      RoomKeepsPinned(s, k);
    }
  }

  // ---------------------------------------------------------------------
  // The manager object
  // ---------------------------------------------------------------------

  class BlockCacheManager {
    var slots: seq<Slot>
    var pins: seq<nat>
    var disk: map<nat, Block>

    ghost function Value(): State
      reads this
    {
      State(slots, pins, disk)
    }

    /** All slots unused over the given device. */
    constructor (buffers: seq<Block>, disk: map<nat, Block>)
      requires UNUSED !in disk
      ensures Inv(Value()) && |slots| == |buffers| && this.disk == disk && LogicalDisk(Value()) == disk
    {
      slots := seq(|buffers|, i requires 0 <= i < |buffers| => Slot(0, UNUSED, buffers[i]));
      pins := seq(|buffers|, _ => 0);
      this.disk := disk;
      new;
      assert forall id :: id in disk ==> Logical(Value(), id) == disk[id];
    }

    method Oom()
      requires |slots| == |pins|
      modifies this`slots, this`disk
      ensures Value() == OomPass(old(Value()))
    {
      var i := 0;
      while i < |slots|
        invariant 0 <= i <= |slots| == |pins|
        invariant OomFrom(Value(), i) == OomFrom(old(Value()), 0)
      {
        if pins[i] > 0 {
        } else if slots[i].priority > 0 {
          slots := slots[i := slots[i].(priority := slots[i].priority - 1)];
        } else {
          disk := disk[slots[i].blockId := slots[i].buffer];
          slots := slots[i := slots[i].(blockId := UNUSED)];
        }
        i := i + 1;
      }
    }

    method FindSlot(id: nat) returns (k: nat)
      ensures k == Find(slots, id, 0)
    {
      k := 0;
      while k < |slots|
        invariant 0 <= k <= |slots| && Find(slots, id, k) == Find(slots, id, 0)
      {
        if slots[k].blockId == id {
          return;
        }
        k := k + 1;
      }
    }

    /** Loop until a slot is free: at most two passes, given that some slot is
        free or unpinned. */
    method AllocBufferCache() returns (k: nat, ghost passes: nat)
      requires Inv(Value()) && MakeRoom(Value()).Some?
      modifies this`slots, this`disk
      ensures Value() == MakeRoom(old(Value())).value && k == Find(slots, UNUSED, 0) < |slots|
      ensures passes <= 2
    {
      passes := 0;
      ghost var s := Value();
      OomSameShape(s, 0);
      OomSameShape(OomPass(s), 0);
      while true
        invariant passes <= 2 && |slots| == |pins|
        invariant Value() == if passes == 0 then s else if passes == 1 then OomPass(s) else OomPass(OomPass(s))
        invariant passes >= 1 ==> Full(s)
        invariant passes == 2 ==> Full(OomPass(s))
        decreases 2 - passes
      {
        k := FindSlot(UNUSED);
        if k < |slots| {
          return;
        }
        Oom();
        passes := passes + 1;
      }
    }

    method GetBlockCache(id: nat) returns (k: nat)
      requires Inv(Value()) && id in disk && Get(Value(), id).Some?
      modifies this
      ensures Get(old(Value()), id) == Some((Value(), k))
      ensures Inv(Value()) && LogicalDisk(Value()) == old(LogicalDisk(Value()))
      ensures k < |slots| && slots[k].blockId == id && slots[k].buffer == old(Logical(Value(), id))
    {
      GetKeeps(Value(), id);
      k := FindSlot(id);
      if k == |slots| {
        RoomKeeps(Value());
        ghost var passes;
        k, passes := AllocBufferCache();
        slots := slots[k := slots[k].(blockId := id, buffer := disk[id])];
      }
      Raise(k);
    }

    /** Raise the priority of slot k and count the new handle on it. */
    method Raise(k: nat)
      requires k < |slots| == |pins|
      modifies this`slots, this`pins
      ensures Value() == HandOut(old(Value()), k)
    {
      if slots[k].priority < PRIORITY_UPPERBOUND {
        slots := slots[k := slots[k].(priority := slots[k].priority + 1)];
      } else {
        assert slots[k := slots[k]] == slots;
      }
      pins := pins[k := pins[k] + 1];
    }
  }
}
