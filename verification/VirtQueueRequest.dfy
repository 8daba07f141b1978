/** A synchronous request: add, wait for the device, pop. */
module VirtQueueRequest {
  import opened Seqs
  import opened VirtQueue
  import opened VirtQueueProofs
  import opened VirtQueueDriver

  /** With nothing outstanding all counters agree and every descriptor is free. */
  lemma IdleIs(w: World)
    requires Inv(w) && w.g.chains == map[]
    ensures w.g.taken == |w.g.adds| == |w.g.returned| == |w.g.popped| && w.g.held == [] && w.q.numUsed == 0
  {
    PendingCount(w);
    assert forall x, h :: !OwnedBy(w.g, x, h);
    HoldsAll(w.g.free, w.q.size);
    Pigeonhole(w.g.free, w.q.size);
  }

  /** The only request of a queue, taken and returned by the device, is the one
      popped. */
  lemma PopsOnly(w: World, c: Chain, head: nat, len: nat)
    requires Inv(w) && w.g.chains == map[head := c] && |w.g.popped| + 1 == |w.g.returned|
    requires w.g.returned[|w.g.popped|] == UsedElem(head, len)
    ensures CanPop(w.q) && PopUsed(w.q).Ok? && (PopUsed(w.q).value.1, PopUsed(w.q).value.2) == (head, len)
    ensures var g' := Apply(w, PopStep).g; g'.chains == map[] && g'.popped == w.g.popped + [c.serial]
    ensures var g' := Apply(w, PopStep).g; g'.adds == w.g.adds && g'.returned == w.g.returned
  {
    CanPopExact(w);
    PopReturns(w);
    PopReady(w);
    assert w.g.chains - {head} == map[];
  }

  /** A request added to an idle queue and returned by the device. */
  lemma ServedIs(w: World, inputs: seq<Buffer>, outputs: seq<Buffer>, len: nat)
    requires Inv(w) && w.g.chains == map[] && Add(w.q, inputs, outputs).Ok?
    ensures var w1 := Apply(w, AddStep(inputs, outputs)); w1.g.held == [] && w1.g.taken < |w1.g.adds|
    ensures var w2 := Complete(Take(Apply(w, AddStep(inputs, outputs))), 0, len); var head := w.q.freeHead;
      && head in w2.g.chains && w2.g.chains == map[head := w2.g.chains[head]] && w2.g.chains[head].serial == |w.g.adds|
      && w2.g.adds == w.g.adds + [AddRecord(head, inputs, outputs)]
      && w2.g.returned == w.g.returned + [UsedElem(head, len)] && w2.g.popped == w.g.popped && |w.g.popped| == |w.g.returned|
  {
    IdleIs(w);
    AddReady(w, inputs, outputs);
    TakeKeeps(Apply(w, AddStep(inputs, outputs)));
  }

  /** The device takes the next request and returns it. */
  method Serve(d: Driver, len: nat, taken: nat)
    requires d.Valid() && d.g.held == [] && taken == d.g.taken < |d.g.adds|
    modifies d`usedIdx, d`g, d.used
    ensures d.Valid() && d.Now() == Complete(Take(old(d.Now())), 0, len)
  {
    TakeKeeps(d.Now());
    var head := d.DeviceTake(taken);
    d.DeviceComplete(0, head.value, len);
  }

  /** `read_block` and `write_block` on an idle queue: the request is added, the
      device serves it, and what is popped is this request. Afterwards the queue is
      idle again, with every descriptor free. */
  method Request(d: Driver, inputs: seq<Buffer>, outputs: seq<Buffer>, len: nat, taken: nat) returns (r: Result<(nat, nat)>)
    requires d.Valid() && d.g.chains == map[] && taken == d.g.taken
    modifies d, d.desc, d.avail, d.used
    ensures d.Valid() && d.g.chains == map[] && d.numUsed == 0
    ensures r == Err(InvalidParam) <==> inputs == [] && outputs == []
    ensures r == Err(BufferTooSmall) <==> |inputs| + |outputs| > d.size
    ensures r.Err? ==> d.Now() == old(d.Now()) && (r.error == InvalidParam || r.error == BufferTooSmall)
    ensures r.Ok? ==> r.value == (old(d.freeHead), len)
    ensures r.Ok? ==> d.g.adds == old(d.g).adds + [AddRecord(old(d.freeHead), inputs, outputs)]
    ensures r.Ok? ==> d.g.returned == old(d.g).returned + [UsedElem(old(d.freeHead), len)]
    ensures r.Ok? ==> d.g.popped == old(d.g).popped + [|old(d.g).adds|]
  {
    IdleIs(d.Now());
    ghost var w := d.Now();
    var token := d.Add(inputs, outputs);
    if token.Err? {
      return Err(token.error);
    }
    ServedIs(w, inputs, outputs, len);
    Serve(d, len, taken);
    PopsOnly(d.Now(), d.g.chains[token.value], token.value, len);
    r := d.PopUsed();
    IdleIs(d.Now());
  }
}
