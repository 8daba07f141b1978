/** The split virtqueue of the virtio driver: descriptor table, available ring
    and used ring, the driver's `add` and `pop_used`, and the device that
    consumes available entries and returns used ones.

    `Queue` is the memory the driver and the device share together with the
    driver's private counters; it is exactly what the code reads and writes.
    `Ghost` is the bookkeeping the proofs need and the code does not keep. */
module VirtQueue {
  import opened Bits
  import opened Seqs

  const U16: nat := 0x1_0000
  const U32: nat := 0x1_0000_0000
  const RING_SLOTS: nat := 32

  datatype Error = InvalidParam | BufferTooSmall | NotReady | AlreadyUsed | DmaError
  datatype Result<+T> = Ok(value: T) | Err(error: Error)

  /** A caller's byte slice: its physical address and its length. */
  datatype Buffer = Buffer(addr: nat, len: nat)

  /** One element of a request, and whether the device may write it. */
  datatype Part = Part(buf: Buffer, write: bool)

  datatype Descriptor = Descriptor(addr: nat, len: nat, flagNext: bool, flagWrite: bool, next: nat)

  datatype UsedElem = UsedElem(id: nat, len: nat)

  datatype Queue = Queue(
    size: nat,
    desc: seq<Descriptor>,
    avail: seq<nat>,
    availShared: nat,
    used: seq<UsedElem>,
    usedIdx: nat,
    numUsed: int,
    freeHead: nat,
    availIdx: nat,
    lastUsedIdx: nat)

  // ---------------------------------------------------------------------
  // The code
  // ---------------------------------------------------------------------

  predicate IsPow2(size: nat) {
    exists k: nat :: k < 16 && size == Pow2(k)
  }

  /** Store at an index; an index out of range is a panic in the driver, and
      the invariant below shows that it never happens. */
  function Put<T>(s: seq<T>, i: nat, v: T): seq<T> {
    if i < |s| then s[i := v] else s
  }

  /** Ring slot of a wrapping counter: `idx & (queue_size - 1)`. */
  function Slot(idx: nat, size: nat): nat
    requires size > 0
  {
    And(idx, size - 1)
  }

  function Parts(inputs: seq<Buffer>, outputs: seq<Buffer>): (ps: seq<Part>)
    ensures |ps| == |inputs| + |outputs|
  {
    seq(|inputs| + |outputs|, i requires 0 <= i < |inputs| + |outputs| =>
      if i < |inputs| then Part(inputs[i], false) else Part(outputs[i - |inputs|], true))
  }

  function Filled(d: Descriptor, part: Part): Descriptor {
    Descriptor(part.buf.addr, part.buf.len % U32, true, part.write, d.next)
  }

  datatype FillResult = FillResult(desc: seq<Descriptor>, freeHead: nat, last: nat)

  /** The allocation loop of `add`: take one descriptor off the free list for
      every part, linking them as they already are. */
  function Fill(desc: seq<Descriptor>, freeHead: nat, last: nat, parts: seq<Part>): FillResult
    decreases |parts|
  {
    if parts == [] || freeHead >= |desc| then FillResult(desc, freeHead, last)
    else Fill(desc[freeHead := Filled(desc[freeHead], parts[0])], desc[freeHead].next, freeHead, parts[1..])
  }

  function EndChain(desc: seq<Descriptor>, last: nat): seq<Descriptor> {
    if last < |desc| then desc[last := desc[last].(flagNext := false)] else desc
  }

  function Add(q: Queue, inputs: seq<Buffer>, outputs: seq<Buffer>): Result<(Queue, nat)>
    requires q.size > 0
  {
    if inputs == [] && outputs == [] then Err(InvalidParam)
    else if |inputs| + |outputs| + q.numUsed > q.size then Err(BufferTooSmall)
    else
      var f := Fill(q.desc, q.freeHead, q.freeHead, Parts(inputs, outputs));
      var idx := (q.availIdx + 1) % U16;
      Ok((q.(desc := EndChain(f.desc, f.last),
             freeHead := f.freeHead,
             numUsed := q.numUsed + |inputs| + |outputs|,
             avail := Put(q.avail, Slot(q.availIdx, q.size), q.freeHead),
             availIdx := idx,
             availShared := idx),
          q.freeHead))
  }

  predicate CanPop(q: Queue) {
    q.lastUsedIdx != q.usedIdx
  }

  datatype RecycleResult = RecycleResult(desc: seq<Descriptor>, count: nat)

  /** The loop of `recycle_descriptors`: walk the chain, count it, and hook its
      last descriptor to the old free list. */
  function Recycle(desc: seq<Descriptor>, head: nat, origin: nat, fuel: nat): RecycleResult
    decreases fuel
  {
    if fuel == 0 || head >= |desc| then RecycleResult(desc, 0)
    else if desc[head].flagNext then
      var r := Recycle(desc, desc[head].next, origin, fuel - 1);
      RecycleResult(r.desc, r.count + 1)
    else RecycleResult(desc[head := desc[head].(next := origin)], 1)
  }

  function UsedAt(q: Queue): UsedElem
    requires q.size > 0
  {
    var s := Slot(q.lastUsedIdx, q.size);
    if s < |q.used| then q.used[s] else UsedElem(0, 0)
  }

  function PopUsed(q: Queue): Result<(Queue, nat, nat)>
    requires q.size > 0
  {
    if !CanPop(q) then Err(NotReady)
    else
      var e := UsedAt(q);
      var id := e.id % U16;
      var r := Recycle(q.desc, id, q.freeHead, |q.desc|);
      Ok((q.(desc := r.desc,
             freeHead := id,
             numUsed := q.numUsed - r.count,
             lastUsedIdx := (q.lastUsedIdx + 1) % U16),
          id, e.len))
  }

  /** What the device sees of a request: follow NEXT from the head, at most
      `fuel` descriptors. */
  function Follow(desc: seq<Descriptor>, head: nat, fuel: nat): seq<Descriptor>
    decreases fuel
  {
    if fuel == 0 || head >= |desc| then []
    else if desc[head].flagNext then [desc[head]] + Follow(desc, desc[head].next, fuel - 1)
    else [desc[head]]
  }

  /** What the queue's memory holds when it is handed out, the two shared indexes
      included. `VirtQueue::new` writes the links of the table and nothing else. */
  datatype Region = Region(desc: seq<Descriptor>, avail: seq<nat>, availShared: nat, used: seq<UsedElem>, usedIdx: nat)

  function Initial(mem: Region, size: nat): Queue {
    var desc := mem.desc;
    Queue(size, seq(|desc|, i requires 0 <= i < |desc| => if i + 1 < size then desc[i].(next := i + 1) else desc[i]),
          mem.avail, mem.availShared, mem.used, mem.usedIdx, 0, 0, 0, 0)
  }

  // ---------------------------------------------------------------------
  // The protocol: driver and device as steps
  // ---------------------------------------------------------------------

  /** The add that an outstanding chain belongs to, and its descriptors in order. */
  datatype Chain = Chain(serial: nat, idxs: seq<nat>)

  datatype AddRecord = AddRecord(head: nat, inputs: seq<Buffer>, outputs: seq<Buffer>)

  /** Bookkeeping of a run. `adds`, `returned` and `popped` are complete
      histories: the requests in order, the used elements the device wrote, and
      the serial numbers of the requests popped so far. `held` are the heads the
      device has read from the available ring and not yet returned. */
  datatype Ghost = Ghost(
    free: seq<nat>,
    chains: map<nat, Chain>,
    adds: seq<AddRecord>,
    taken: nat,
    held: seq<nat>,
    returned: seq<UsedElem>,
    popped: seq<nat>)

  datatype World = World(q: Queue, g: Ghost)

  datatype Step =
    | AddStep(inputs: seq<Buffer>, outputs: seq<Buffer>)
    | TakeStep
    | CompleteStep(which: nat, len: nat)
    | PopStep

  function GhostAdd(g: Ghost, head: nat, inputs: seq<Buffer>, outputs: seq<Buffer>): Ghost {
    var n := |inputs| + |outputs|;
    if n > |g.free| then g
    else g.(free := g.free[n..],
            chains := g.chains[head := Chain(|g.adds|, g.free[..n])],
            adds := g.adds + [AddRecord(head, inputs, outputs)])
  }

  function GhostPop(g: Ghost, id: nat): Ghost {
    if id !in g.chains then g
    else g.(free := g.chains[id].idxs + g.free,
            chains := g.chains - {id},
            popped := g.popped + [g.chains[id].serial])
  }

  /** The device reads the next entry of the available ring, if the shared
      index says there is one. */
  function Take(w: World): World
    requires w.q.size > 0
  {
    var s := Slot(w.g.taken % U16, w.q.size);
    if w.g.taken % U16 == w.q.availShared || s >= |w.q.avail| then w
    else World(w.q, w.g.(taken := w.g.taken + 1, held := w.g.held + [w.q.avail[s]]))
  }

  /** The device returns any one of the requests it holds. */
  function Complete(w: World, which: nat, len: nat): World
    requires w.q.size > 0
  {
    if which >= |w.g.held| then w
    else
      var e := UsedElem(w.g.held[which], len);
      World(w.q.(used := Put(w.q.used, Slot(w.q.usedIdx, w.q.size), e), usedIdx := (w.q.usedIdx + 1) % U16),
            w.g.(held := w.g.held[..which] + w.g.held[which + 1..], returned := w.g.returned + [e]))
  }

  function Apply(w: World, s: Step): World
    requires w.q.size > 0
  {
    match s
    case AddStep(inputs, outputs) =>
      (match Add(w.q, inputs, outputs)
       case Err(_) => w
       case Ok(r) => World(r.0, GhostAdd(w.g, r.1, inputs, outputs)))
    case TakeStep => Take(w)
    case CompleteStep(which, len) => Complete(w, which, len)
    case PopStep =>
      (match PopUsed(w.q)
       case Err(_) => w
       case Ok(r) => World(r.0, GhostPop(w.g, r.1)))
  }

  // ---------------------------------------------------------------------
  // The invariant
  // ---------------------------------------------------------------------

  ghost predicate InvShape(q: Queue) {
    IsPow2(q.size) && q.size <= RING_SLOTS && |q.desc| == q.size && |q.avail| == |q.used| == RING_SLOTS
  }

  /** The free list is walked from `freeHead` for exactly `size - numUsed`
      steps; nothing is said about the link of its last descriptor. */
  ghost predicate InvFree(q: Queue, g: Ghost) {
    && |g.free| == q.size - q.numUsed
    && Distinct(g.free)
    && (forall k :: 0 <= k < |g.free| ==> g.free[k] < |q.desc|)
    && (|g.free| > 0 ==> q.freeHead == g.free[0])
    && (forall k {:trigger q.desc[g.free[k]]} :: 0 <= k < |g.free| - 1 ==> q.desc[g.free[k]].next == g.free[k + 1])
  }

  predicate Carries(d: Descriptor, part: Part) {
    d.addr == part.buf.addr && d.len == part.buf.len % U32 && d.flagWrite == part.write
  }

  /** Descriptors idxs, in this order, are an acyclic chain holding parts. */
  ghost predicate ChainOk(desc: seq<Descriptor>, idxs: seq<nat>, parts: seq<Part>) {
    && |idxs| == |parts| > 0
    && Distinct(idxs)
    && (forall k :: 0 <= k < |idxs| ==> idxs[k] < |desc|)
    && (forall k {:trigger desc[idxs[k]]} :: 0 <= k < |idxs| ==> Carries(desc[idxs[k]], parts[k]))
    && (forall k {:trigger desc[idxs[k]]} :: 0 <= k < |idxs| ==> desc[idxs[k]].flagNext == (k + 1 < |idxs|))
    && (forall k {:trigger desc[idxs[k]]} :: 0 <= k < |idxs| - 1 ==> desc[idxs[k]].next == idxs[k + 1])
  }

  ghost predicate InvChain(q: Queue, g: Ghost, h: nat)
    requires h in g.chains
  {
    var c := g.chains[h];
    && c.serial < |g.adds|
    && g.adds[c.serial].head == h
    && ChainOk(q.desc, c.idxs, Parts(g.adds[c.serial].inputs, g.adds[c.serial].outputs))
    && c.idxs[0] == h
  }

  ghost predicate InvChains(q: Queue, g: Ghost) {
    forall h :: h in g.chains ==> InvChain(q, g, h)
  }

  ghost predicate OwnedBy(g: Ghost, x: nat, h: nat) {
    h in g.chains && x in g.chains[h].idxs
  }

  /** Every descriptor is on the free list or in exactly one chain. */
  ghost predicate InvOwners(q: Queue, g: Ghost) {
    && (forall x, h :: OwnedBy(g, x, h) ==> x !in g.free)
    && (forall x, h, h' :: OwnedBy(g, x, h) && OwnedBy(g, x, h') ==> h == h')
    && (forall x: nat :: x < q.size && x !in g.free ==> exists h :: OwnedBy(g, x, h))
  }

  function Offered(g: Ghost): seq<nat> {
    seq<nat>(if g.taken <= |g.adds| then |g.adds| - g.taken else 0,
        i requires 0 <= i < |g.adds| - g.taken => g.adds[g.taken + i].head)
  }

  function Done(g: Ghost): seq<nat> {
    seq<nat>(if |g.popped| <= |g.returned| then |g.returned| - |g.popped| else 0,
        i requires 0 <= i < |g.returned| - |g.popped| => g.returned[|g.popped| + i].id)
  }

  ghost predicate InvCounters(q: Queue, g: Ghost) {
    && |g.popped| <= |g.returned| <= g.taken <= |g.adds|
    && |g.held| == g.taken - |g.returned|
    && q.availIdx == q.availShared == |g.adds| % U16
    && q.usedIdx == |g.returned| % U16
    && q.lastUsedIdx == |g.popped| % U16
  }

  /** The outstanding heads, each once, are those offered, held and returned. */
  ghost predicate InvPending(g: Ghost) {
    multiset(Offered(g)) + multiset(g.held) + multiset(Done(g)) == multiset(g.chains.Keys)
  }

  ghost predicate InvSlots(q: Queue, g: Ghost)
    requires InvShape(q)
  {
    && (forall i :: g.taken <= i < |g.adds| ==> q.avail[i % q.size] == g.adds[i].head)
    && (forall i :: |g.popped| <= i < |g.returned| ==> q.used[i % q.size] == g.returned[i])
  }

  ghost predicate Live(g: Ghost, s: nat) {
    exists h :: h in g.chains && g.chains[h].serial == s
  }

  /** Every request ever added is outstanding once or was popped once. */
  ghost predicate InvHistory(g: Ghost) {
    && Distinct(g.popped)
    && (forall s :: s in g.popped ==> s < |g.adds|)
    && (forall s :: s in g.popped ==> !Live(g, s))
    && (forall s: nat :: s < |g.adds| && s !in g.popped ==> Live(g, s))
    && (forall h, h' :: h in g.chains && h' in g.chains && g.chains[h].serial == g.chains[h'].serial ==> h == h')
  }

  ghost predicate Inv(w: World) {
    && InvShape(w.q)
    && InvFree(w.q, w.g)
    && InvChains(w.q, w.g)
    && InvOwners(w.q, w.g)
    && InvCounters(w.q, w.g)
    && InvPending(w.g)
    && InvSlots(w.q, w.g)
    && InvHistory(w.g)
  }
}
