/** The driver object: fixed memory for table and rings, updated in place. */
module VirtQueueDriver {
  import opened Options
  import opened VirtQueue
  import opened VirtQueueProofs

  class Driver {
    const size: nat
    const desc: array<Descriptor>
    const avail: array<nat>
    const used: array<UsedElem>
    var availShared: nat
    var usedIdx: nat
    var numUsed: int
    var freeHead: nat
    var availIdx: nat
    var lastUsedIdx: nat
    ghost var g: Ghost

    ghost function Value(): Queue
      reads this, desc, avail, used
    {
      Queue(size, desc[..], avail[..], availShared, used[..], usedIdx, numUsed, freeHead, availIdx, lastUsedIdx)
    }

    ghost function Now(): World
      reads this, desc, avail, used
    {
      World(Value(), g)
    }

    ghost predicate Valid()
      reads this, desc, avail, used
    {
      Inv(Now())
    }

    /** Link the descriptors of fresh queue memory into one free list. */
    constructor (desc: array<Descriptor>, avail: array<nat>, availShared: nat, used: array<UsedElem>, usedIdx: nat, size: nat)
      requires IsPow2(size) && desc.Length == size && avail.Length == used.Length == RING_SLOTS
      modifies desc
      ensures this.desc == desc && this.avail == avail && this.used == used && this.size == size
      ensures Value() == Initial(Region(old(desc[..]), old(avail[..]), availShared, old(used[..]), usedIdx), size)
      ensures forall i :: 0 <= i < size ==> desc[i] == if i + 1 < size then old(desc[i]).(next := i + 1) else old(desc[i])
      ensures g == InitialGhost(size) && (size <= RING_SLOTS ==> (Valid() <==> availShared == 0 && usedIdx == 0))
    {
      this.size, this.desc, this.avail, this.used := size, desc, avail, used;
      this.availShared, this.usedIdx := availShared, usedIdx;
      numUsed, freeHead, availIdx, lastUsedIdx := 0, 0, 0, 0;
      g := InitialGhost(size);
      new;
      ghost var before := desc[..];
      var i := 0;
      while i + 1 < size
        invariant 0 <= i && (i == 0 || i < size)
        invariant forall k :: 0 <= k < size ==> desc[k] == if k < i then before[k].(next := k + 1) else before[k]
        invariant avail[..] == old(avail[..]) && used[..] == old(used[..])
        modifies desc
      {
        desc[i] := desc[i].(next := i + 1);
        i := i + 1;
      }
      ghost var mem := Region(before, avail[..], availShared, used[..], usedIdx);
      assert desc[..] == Initial(mem, size).desc;
      if size <= RING_SLOTS {
        InitialInv(mem, size);
      }
    }

    /** One allocation loop of `add`, over parts[from..to]. */
    method FillFrom(parts: seq<Part>, from: nat, to: nat, last: nat, ghost free: seq<nat>) returns (last': nat)
      requires from <= to <= |parts| <= |free|
      requires Linked(desc[..], free[from..]) && (from < |free| ==> freeHead == free[from])
      modifies this`freeHead, desc
      ensures Linked(desc[..], free[to..]) && (to < |free| ==> freeHead == free[to])
      ensures Fill(desc[..], freeHead, last', parts[to..]) == old(Fill(desc[..], freeHead, last, parts[from..]))
    {
      last' := last;
      var i := from;
      while i < to
        invariant from <= i <= to
        invariant Linked(desc[..], free[i..]) && (i < |free| ==> freeHead == free[i])
        invariant Fill(desc[..], freeHead, last', parts[i..]) == old(Fill(desc[..], freeHead, last, parts[from..]))
      {
        assert free[i..][0] == free[i];
        assert free[i + 1..] == free[i..][1..];
        var d := desc[freeHead];
        ghost var table := desc[..];
        desc[freeHead] := Filled(d, parts[i]);
        assert desc[..] == table[freeHead := Filled(d, parts[i])];
        assert parts[i..][1..] == parts[i + 1..];
        last' := freeHead;
        freeHead := d.next;
        i := i + 1;
      }
    }

    /** Take descriptors for all parts off the free list and end the chain. */
    method TakeChain(parts: seq<Part>, inputs: nat, ghost free: seq<nat>)
      requires Linked(desc[..], free) && 0 < |parts| <= |free| && inputs <= |parts| && freeHead == free[0]
      modifies this`freeHead, desc
      ensures var f := Fill(old(desc[..]), old(freeHead), old(freeHead), parts);
        desc[..] == EndChain(f.desc, f.last) && freeHead == f.freeHead
    {
      ghost var table := desc[..];
      assert free[0..] == free && parts[0..] == parts && parts[|parts|..] == [];
      LastInRange(table, free, freeHead, parts);
      var last := FillFrom(parts, 0, inputs, freeHead, free);
      last := FillFrom(parts, inputs, |parts|, last, free);
      desc[last] := desc[last].(flagNext := false);
    }

    /** `add` past its checks: take descriptors off the free list, end the
        chain, and publish its head in the available ring. */
    method Publish(inputs: seq<Buffer>, outputs: seq<Buffer>, ghost free: seq<nat>)
      requires 0 < size <= avail.Length && Linked(desc[..], free) && 0 < |inputs| + |outputs| <= |free|
      requires freeHead == free[0] && Slot(availIdx, size) < size
      requires |inputs| + |outputs| + numUsed <= size
      modifies this`freeHead, this`numUsed, this`availIdx, this`availShared, desc, avail
      ensures VirtQueue.Add(old(Value()), inputs, outputs) == Ok((Value(), old(freeHead)))
    {
      var head := freeHead;
      TakeChain(Parts(inputs, outputs), |inputs|, free);
      numUsed := numUsed + |inputs| + |outputs|;
      avail[Masked(availIdx)] := head;
      availIdx := (availIdx + 1) % U16;
      availShared := availIdx;
    }

    method Add(inputs: seq<Buffer>, outputs: seq<Buffer>) returns (r: Result<nat>)
      requires Valid()
      modifies this`freeHead, this`numUsed, this`availIdx, this`availShared, this`g, desc, avail
      ensures Valid()
      ensures Now() == Apply(old(Now()), AddStep(inputs, outputs))
      ensures r == match VirtQueue.Add(old(Value()), inputs, outputs)
                   case Err(e) => Err(e)
                   case Ok(p) => Ok(p.1)
      ensures r == Err(InvalidParam) <==> inputs == [] && outputs == []
      ensures r == Err(BufferTooSmall) <==> |inputs| + |outputs| > |old(g).free|
      ensures r.Ok? <==> 0 < |inputs| + |outputs| <= |old(g).free|
      ensures r.Ok? ==> Describe(Follow(desc[..], r.value, size), inputs, outputs)
    {
      AddFails(Now(), inputs, outputs);
      if |inputs| == 0 && |outputs| == 0 {
        return Err(InvalidParam);
      }
      if |inputs| + |outputs| + numUsed > size {
        return Err(BufferTooSmall);
      }
      AddReady(Now(), inputs, outputs);
      AddedReadsBack(Now(), inputs, outputs);
      ghost var after := Apply(Now(), AddStep(inputs, outputs));
      var head := freeHead;
      Publish(inputs, outputs, g.free);
      g := after.g;
      assert Now() == after;
      return Ok(head);
    }

    function Masked(idx: nat): nat
      requires size > 0
    {
      Slot(idx, size)
    }

    method CanPop() returns (b: bool)
      requires Valid()
      ensures b <==> |g.popped| < |g.returned|
    {
      CanPopExact(Now());
      b := lastUsedIdx != usedIdx;
    }

    /** Push the chain that starts at head to the front of the free list. */
    method RecycleDescriptors(head: nat, ghost idxs: seq<nat>)
      requires ChainIn(desc[..], idxs) && 0 < |idxs| <= desc.Length && |idxs| <= numUsed && idxs[0] == head
      modifies this`freeHead, this`numUsed, desc
      ensures Value() == Popped(old(Value()), head).(lastUsedIdx := lastUsedIdx)
    {
      ghost var table := desc[..];
      RecycleAlong(table, idxs, freeHead, desc.Length);
      var origin, cur := freeHead, head;
      freeHead := head;
      ghost var k := 0;
      while true
        invariant 0 <= k < |idxs| && cur == idxs[k]
        invariant numUsed == old(numUsed) - k && numUsed >= 1
        invariant desc[..] == table && freeHead == head
        decreases |idxs| - k
      {
        assert desc[cur] == table[idxs[k]];
        numUsed := numUsed - 1;
        if desc[cur].flagNext {
          cur := desc[cur].next;
          k := k + 1;
        } else {
          desc[cur] := desc[cur].(next := origin);
          return;
        }
      }
    }

    /** `pop_used` past its check. */
    method Reclaim(ghost idxs: seq<nat>) returns (e: UsedElem)
      requires 0 < size && Slot(lastUsedIdx, size) < used.Length
      requires ChainIn(desc[..], idxs) && 0 < |idxs| <= desc.Length && |idxs| <= numUsed
      requires idxs[0] == UsedAt(Value()).id
      modifies this`freeHead, this`numUsed, this`lastUsedIdx, desc
      ensures e == old(UsedAt(Value()))
      ensures Value() == Popped(old(Value()), e.id)
    {
      e := used[Masked(lastUsedIdx)];
      RecycleDescriptors(e.id, idxs);
      lastUsedIdx := (lastUsedIdx + 1) % U16;
    }

    method PopUsed() returns (r: Result<(nat, nat)>)
      requires Valid()
      modifies this`freeHead, this`numUsed, this`lastUsedIdx, this`g, desc
      ensures Valid()
      ensures Now() == Apply(old(Now()), PopStep)
      ensures r == match VirtQueue.PopUsed(old(Value()))
                   case Err(e) => Err(e)
                   case Ok(p) => Ok((p.1, p.2))
    {
      if lastUsedIdx == usedIdx {
        return Err(NotReady);
      }
      PopReady(Now());
      ghost var after := Apply(Now(), PopStep);
      var e := Reclaim(g.chains[UsedAt(Value()).id].idxs);
      g := after.g;
      assert Now() == after;
      return Ok((e.id, e.len));
    }

    /** The device, having read `taken` heads, reads the next one if there is one. */
    method DeviceTake(taken: nat) returns (head: Option<nat>)
      requires Valid() && taken == g.taken
      modifies this`g
      ensures Valid() && Now() == Take(old(Now()))
      ensures head == if taken < |old(g).adds| then Some(old(g).adds[taken].head) else None
    {
      TakeKeeps(Now());
      TakeReads(Now());
      head := None;
      if taken % U16 != availShared {
        head := Some(avail[Masked(taken % U16)]);
      }
      g := Take(Now()).g;
    }

    /** The device returns a request it holds, writing the shared used ring. */
    method DeviceComplete(ghost which: nat, head: nat, len: nat)
      requires Valid() && which < |g.held| && head == g.held[which]
      modifies this`usedIdx, this`g, used
      ensures Valid() && Now() == Complete(old(Now()), which, len)
    {
      CompleteKeeps(Now(), which, len);
      SlotOfWrapped(|g.returned|, size);
      ghost var after := Complete(Now(), which, len);
      used[Masked(usedIdx)] := UsedElem(head, len);
      usedIdx := (usedIdx + 1) % U16;
      g := after.g;
      assert Now() == after;
    }
  }

  /** The descriptors are linked in this order and NEXT ends with the last. */
  ghost predicate ChainIn(desc: seq<Descriptor>, idxs: seq<nat>) {
    Linked(desc, idxs) && forall k :: 0 <= k < |idxs| ==> desc[idxs[k]].flagNext == (k + 1 < |idxs|)
  }

  /** What an add that is not refused needs and does. */
  lemma AddReady(w: World, inputs: seq<Buffer>, outputs: seq<Buffer>)
    requires Inv(w) && 0 < |inputs| + |outputs| && |inputs| + |outputs| + w.q.numUsed <= w.q.size
    ensures 0 < w.q.size <= |w.q.avail| && Slot(w.q.availIdx, w.q.size) < w.q.size
    ensures Linked(w.q.desc, w.g.free) && |inputs| + |outputs| <= |w.g.free| && w.q.freeHead == w.g.free[0]
    ensures var added := Add(w.q, inputs, outputs);
      && added.Ok? && Apply(w, AddStep(inputs, outputs)) == World(added.value.0, GhostAdd(w.g, added.value.1, inputs, outputs))
      && Inv(Apply(w, AddStep(inputs, outputs)))
  {
    SlotOfWrapped(|w.g.adds|, w.q.size);
    AddKeeps(w, inputs, outputs);
  }

  /** The ring slot the device reads next holds the head of the earliest request it
      has not taken. */
  lemma TakeReads(w: World)
    requires Inv(w)
    ensures 0 < w.q.size && (w.g.taken % U16 == w.q.availShared <==> w.g.taken == |w.g.adds|)
    ensures w.g.taken < |w.g.adds| ==>
              var s := Slot(w.g.taken % U16, w.q.size); s < |w.q.avail| && w.q.avail[s] == w.g.adds[w.g.taken].head
  {
    PendingCount(w);
    WrappedEqual(w.g.taken, |w.g.adds|);
    SlotOfWrapped(w.g.taken, w.q.size);
  }

  /** What a pop that is not refused needs and does. */
  lemma PopReady(w: World)
    requires Inv(w) && CanPop(w.q)
    ensures w.q.size > 0 && Slot(w.q.lastUsedIdx, w.q.size) < |w.q.used| && UsedAt(w.q).id in w.g.chains
    ensures var id := UsedAt(w.q).id; var idxs := w.g.chains[id].idxs;
      && ChainIn(w.q.desc, idxs) && 0 < |idxs| <= |w.q.desc| && |idxs| <= w.q.numUsed && idxs[0] == id
      && PopUsed(w.q) == Ok((Popped(w.q, id), id, UsedAt(w.q).len))
      && Apply(w, PopStep) == World(Popped(w.q, id), GhostPop(w.g, id)) && Inv(Apply(w, PopStep))
  {
    PopKeeps(w);
    NextUsed(w);
    PopUsedIs(w.q);
  }

  /** The used element `pop_used` is about to read. */
  lemma NextUsed(w: World)
    requires Inv(w) && CanPop(w.q)
    ensures Slot(w.q.lastUsedIdx, w.q.size) < |w.q.used|
    ensures UsedAt(w.q).id in w.g.chains && UsedAt(w.q).id < U16
    ensures InvChain(w.q, w.g, UsedAt(w.q).id) && |w.g.chains[UsedAt(w.q).id].idxs| <= w.q.numUsed <= |w.q.desc|
  {
    PendingCount(w);
    NextUsedRead(w);
    RecycleChain(w.q, w.g, UsedAt(w.q).id);
  }

  lemma NextUsedRead(w: World)
    requires InvRings(w.q, w.g) && CanPop(w.q)
    ensures Slot(w.q.lastUsedIdx, w.q.size) < |w.q.used|
    ensures UsedAt(w.q).id in w.g.chains
  {
    WrappedEqual(|w.g.popped|, |w.g.returned|);
    PopFinds(w);
    SlotOfWrapped(|w.g.popped|, w.q.size);
  }

  /** The last descriptor taken lies in the table. */
  lemma LastInRange(table: seq<Descriptor>, free: seq<nat>, head: nat, parts: seq<Part>)
    requires Linked(table, free) && 0 < |parts| <= |free| && head == free[0]
    ensures var f := Fill(table, head, head, parts); f.last < |table| && |f.desc| == |table|
  {
    assert parts[0..] == parts;
    FillAlong(table, free, 0, head, parts);
  }

  /** `VirtQueue::new`: the header must not have the queue in use already, the
      size must be a power of two within the device's limit, and memory must be
      had. Its links are set up; its shared indexes are as they were. */
  method Create(inUse: bool, maxSize: nat, hasMemory: bool, desc: array<Descriptor>, avail: array<nat>, availShared: nat,
                used: array<UsedElem>, usedIdx: nat, size: nat) returns (r: Result<Driver>)
    requires size < U16 && desc.Length == size && avail.Length == used.Length == RING_SLOTS
    modifies desc
    ensures inUse ==> r == Err(AlreadyUsed)
    ensures !inUse && (!IsPow2(size) || maxSize < size) ==> r == Err(InvalidParam)
    ensures !inUse && IsPow2(size) && size <= maxSize && !hasMemory ==> r == Err(DmaError)
    ensures !inUse && IsPow2(size) && size <= maxSize && hasMemory ==>
              r.Ok? && r.value.g == InitialGhost(size)
              && r.value.Value() == Initial(Region(old(desc[..]), avail[..], availShared, used[..], usedIdx), size)
    ensures r.Ok? && size <= RING_SLOTS ==> (r.value.Valid() <==> availShared == 0 && usedIdx == 0)
  {
    if inUse {
      return Err(AlreadyUsed);
    }
    if !IsPow2(size) || maxSize < size {
      return Err(InvalidParam);
    }
    if !hasMemory {
      return Err(DmaError);
    }
    var q := new Driver(desc, avail, availShared, used, usedIdx, size);
    return Ok(q);
  }
}
