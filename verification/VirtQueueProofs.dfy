/** What every run of driver and device steps keeps. */
module VirtQueueProofs {
  import opened Bits
  import opened Seqs
  import opened VirtQueue

  lemma WordIsPow2()
    ensures Pow2(16) == U16
  {
    assert Pow2(4) == 16;
    Pow2Split(4, 4);
    Pow2Split(8, 8);
  }

  lemma SizeDividesWord(k: nat)
    requires k < 16
    ensures Pow2(k) * Pow2(16 - k) == U16
    ensures Pow2(k) <= U16
  {
    Pow2Split(k, 16 - k);
    WordIsPow2();
    MulAtLeast(Pow2(k), Pow2(16 - k));
  }

  /** Masking a 16-bit counter that wrapped agrees with the unbounded counter
      modulo the queue size. */
  lemma SlotOfWrapped(n: nat, size: nat)
    requires IsPow2(size)
    ensures size > 0
    ensures Slot(n % U16, size) == n % size < size
  {
    var k: nat :| k < 16 && size == Pow2(k);
    AndMask(n % U16, k);
    SizeDividesWord(k);
    ModOfMod(n, size, Pow2(16 - k));
  }

  /** Every ring slot the driver can address lies inside the 32-entry ring
      arrays exactly when the queue has at most 32 entries. */
  lemma SlotInRing(size: nat)
    requires IsPow2(size)
    ensures size > 0
    ensures (forall idx: nat :: idx < U16 ==> Slot(idx, size) < RING_SLOTS) <==> size <= RING_SLOTS
  {
    SlotOfWrapped(0, size);
    if size <= RING_SLOTS {
      forall idx: nat | idx < U16
        ensures Slot(idx, size) < RING_SLOTS
      {
        SlotOfWrapped(idx, size);
      }
    } else {
      LastSlot(size);
    }
  }

  lemma LastSlot(size: nat)
    requires IsPow2(size)
    ensures 0 < size <= U16 && Slot(size - 1, size) == size - 1
  {
    var k: nat :| k < 16 && size == Pow2(k);
    SizeDividesWord(k);
    AndMask(size - 1, k);
    DivModUnique(size - 1, size, 0, size - 1);
  }

  // ---------------------------------------------------------------------
  // Walks along the table
  // ---------------------------------------------------------------------

  ghost predicate Linked(desc: seq<Descriptor>, idxs: seq<nat>) {
    && Distinct(idxs)
    && (forall k :: 0 <= k < |idxs| ==> idxs[k] < |desc|)
    && (forall k {:trigger desc[idxs[k]]} :: 0 <= k < |idxs| - 1 ==> desc[idxs[k]].next == idxs[k + 1])
  }

  /** The allocation loop takes the free list in order, from position i on. */
  lemma {:induction false} FillAlong(desc: seq<Descriptor>, free: seq<nat>, i: nat, last: nat, parts: seq<Part>)
    requires Linked(desc, free) && i < |parts| <= |free|
    ensures var f := Fill(desc, free[i], last, parts[i..]);
      && |f.desc| == |desc|
      && (forall k :: i <= k < |parts| ==> f.desc[free[k]] == Filled(desc[free[k]], parts[k]))
      && (forall x :: 0 <= x < |desc| && x !in free[i..|parts|] ==> f.desc[x] == desc[x])
      && f.last == free[|parts| - 1]
      && f.freeHead == desc[free[|parts| - 1]].next
    decreases |parts| - i
  {
    var d := desc[free[i] := Filled(desc[free[i]], parts[i])];
    assert parts[i..][1..] == parts[i + 1..];
    assert free[i..|parts|] == [free[i]] + free[i + 1..|parts|];
    if i + 1 < |parts| {
      FillAlong(d, free, i + 1, free[i], parts);
      assert free[i] !in free[i + 1..|parts|];
    }
  }

  /** Recycling walks exactly the chain and terminates at its last element. */
  lemma {:induction false} RecycleAlong(desc: seq<Descriptor>, idxs: seq<nat>, origin: nat, fuel: nat)
    requires Linked(desc, idxs) && 0 < |idxs| <= fuel
    requires forall k :: 0 <= k < |idxs| ==> desc[idxs[k]].flagNext == (k + 1 < |idxs|)
    ensures idxs[|idxs| - 1] < |desc|
    ensures var last := idxs[|idxs| - 1];
      Recycle(desc, idxs[0], origin, fuel) == RecycleResult(desc[last := desc[last].(next := origin)], |idxs|)
    decreases |idxs|
  {
    assert idxs[0] in idxs && idxs[|idxs| - 1] in idxs;
    if |idxs| > 1 {
      RecycleAlong(desc, idxs[1..], origin, fuel - 1);
    }
  }

  lemma {:induction false} FollowAlong(desc: seq<Descriptor>, idxs: seq<nat>, fuel: nat)
    requires Linked(desc, idxs) && 0 < |idxs| <= fuel
    requires forall k :: 0 <= k < |idxs| ==> desc[idxs[k]].flagNext == (k + 1 < |idxs|)
    ensures var f := Follow(desc, idxs[0], fuel);
      |f| == |idxs| && forall k :: 0 <= k < |idxs| ==> f[k] == desc[idxs[k]]
    decreases |idxs|
  {
    assert idxs[0] in idxs;
    if |idxs| > 1 {
      FollowAlong(desc, idxs[1..], fuel - 1);
    }
  }

  // ---------------------------------------------------------------------
  // Counting
  // ---------------------------------------------------------------------

  /** The head of an outstanding request is a descriptor that is not free. */
  lemma HeadsNotFree(q: Queue, g: Ghost)
    requires InvShape(q) && InvChains(q, g) && InvOwners(q, g)
    ensures forall h :: h in g.chains ==> h < q.size && h !in g.free
  {
    forall h | h in g.chains
      ensures h < q.size && h !in g.free
    {
      assert InvChain(q, g, h);
      assert OwnedBy(g, h, h);
    }
  }

  ghost predicate InvLists(q: Queue, g: Ghost) {
    InvShape(q) && InvFree(q, g) && InvChains(q, g) && InvOwners(q, g)
  }

  ghost predicate InvRings(q: Queue, g: Ghost) {
    InvShape(q) && InvCounters(q, g) && InvPending(g) && InvSlots(q, g) && |g.adds| - |g.popped| <= q.size
  }

  /** The number of outstanding requests is the difference of the counters. */
  lemma PendingCount(w: World)
    requires InvLists(w.q, w.g) && InvCounters(w.q, w.g) && InvPending(w.g)
    ensures |w.g.adds| - |w.g.popped| == |w.g.chains|
    ensures |w.g.chains| <= w.q.size
    ensures w.g.free != [] ==> |w.g.chains| < w.q.size
  {
    var g := w.g;
    var heads := g.chains.Keys;
    assert |heads| == |multiset(heads)|;
    assert |multiset(heads)| == |Offered(g)| + |g.held| + |Done(g)|;
    HeadsNotFree(w.q, g);
    SetBelow(heads, w.q.size);
    if g.free != [] {
      assert g.free[0] in g.free;
      SetBelow(heads + {g.free[0]}, w.q.size);
      assert |heads + {g.free[0]}| == |heads| + 1;
    }
  }

  lemma WrappedSucc(n: nat)
    ensures (n % U16 + 1) % U16 == (n + 1) % U16
  {
  }

  /** Sixteen-bit counters that are at most a queue apart are equal exactly
      when the unbounded counters are. */
  lemma WrappedEqual(a: nat, b: nat)
    requires a <= b <= a + RING_SLOTS
    ensures a % U16 == b % U16 <==> a == b
  {
    if a < b { ModDistinct(a, b, U16); }
  }

  // ---------------------------------------------------------------------
  // add
  // ---------------------------------------------------------------------

  /** Filled descriptors become a chain once NEXT is cleared on the last. */
  lemma EndFilled(desc: seq<Descriptor>, filled: seq<Descriptor>, idxs: seq<nat>, parts: seq<Part>)
    requires Linked(desc, idxs) && |idxs| == |parts| > 0 && |filled| == |desc|
    requires forall k :: 0 <= k < |idxs| ==> filled[idxs[k]] == Filled(desc[idxs[k]], parts[k])
    ensures var done := EndChain(filled, idxs[|idxs| - 1]);
      && |done| == |desc|
      && ChainOk(done, idxs, parts)
      && (forall x :: 0 <= x < |desc| && x !in idxs ==> done[x] == filled[x])
  {
    var last := idxs[|idxs| - 1];
    var done := EndChain(filled, last);
    assert last in idxs;
    forall k | 0 <= k < |idxs|
      ensures done[idxs[k]] == filled[idxs[k]].(flagNext := k + 1 < |idxs|)
    {
      assert k < |idxs| - 1 ==> idxs[k] != last;
    }
  }

  /** Filling the front of the free list and ending the chain. */
  lemma FillChain(desc: seq<Descriptor>, free: seq<nat>, parts: seq<Part>)
    requires Linked(desc, free) && 0 < |parts| <= |free|
    ensures var f := Fill(desc, free[0], free[0], parts); var done := EndChain(f.desc, f.last);
      && |done| == |desc| && ChainOk(done, free[..|parts|], parts)
      && (forall x :: 0 <= x < |desc| && x !in free[..|parts|] ==> done[x] == desc[x])
      && (|parts| < |free| ==> f.freeHead == free[|parts|])
  {
    var idxs := free[..|parts|];
    assert parts[0..] == parts && free[0..|parts|] == idxs;
    FillAlong(desc, free, 0, free[0], parts);
    LinkedPrefix(desc, free, |parts|);
    EndFilled(desc, Fill(desc, free[0], free[0], parts).desc, idxs, parts);
  }

  lemma LinkedPrefix(desc: seq<Descriptor>, free: seq<nat>, n: nat)
    requires Linked(desc, free) && n <= |free|
    ensures Linked(desc, free[..n])
  {
  }

  /** What `add` does to the table when it succeeds. */
  lemma AddTable(w: World, inputs: seq<Buffer>, outputs: seq<Buffer>)
    requires InvShape(w.q) && InvFree(w.q, w.g)
    requires Add(w.q, inputs, outputs).Ok?
    ensures var n := |inputs| + |outputs|;
      var q := Add(w.q, inputs, outputs).value.0;
      && 0 < n <= |w.g.free|
      && |q.desc| == |w.q.desc|
      && (forall x :: 0 <= x < |q.desc| && x !in w.g.free[..n] ==> q.desc[x] == w.q.desc[x])
      && ChainOk(q.desc, w.g.free[..n], Parts(inputs, outputs))
      && (n < |w.g.free| ==> q.freeHead == w.g.free[n])
  {
    FillChain(w.q.desc, w.g.free, Parts(inputs, outputs));
  }

  lemma AddKeepsFree(w: World, inputs: seq<Buffer>, outputs: seq<Buffer>)
    requires InvShape(w.q) && InvFree(w.q, w.g) && Add(w.q, inputs, outputs).Ok?
    ensures var w' := Apply(w, AddStep(inputs, outputs)); InvShape(w'.q) && InvFree(w'.q, w'.g)
  {
    AddTable(w, inputs, outputs);
    var w' := Apply(w, AddStep(inputs, outputs));
    var n := |inputs| + |outputs|;
    var free, free' := w.g.free, w'.g.free;
    forall k | 0 <= k < |free'|
      ensures free'[k] == free[n + k] && w'.q.desc[free'[k]] == w.q.desc[free'[k]]
    {
      assert free'[k] !in free[..n];
    }
  }

  lemma AddKeepsChains(w: World, inputs: seq<Buffer>, outputs: seq<Buffer>)
    requires InvLists(w.q, w.g) && Add(w.q, inputs, outputs).Ok?
    ensures var w' := Apply(w, AddStep(inputs, outputs)); InvChains(w'.q, w'.g)
  {
    AddTable(w, inputs, outputs);
    var w' := Apply(w, AddStep(inputs, outputs));
    var g := w.g;
    var n := |inputs| + |outputs|;
    assert forall x :: x in g.free[..n] ==> x in g.free;
    forall h | h in w'.g.chains && h != w.q.freeHead
      ensures InvChain(w'.q, w'.g, h)
    {
      assert InvChain(w.q, g, h);
      var c := g.chains[h];
      forall k | 0 <= k < |c.idxs|
        ensures w'.q.desc[c.idxs[k]] == w.q.desc[c.idxs[k]]
      {
        assert OwnedBy(g, c.idxs[k], h);
      }
    }
  }

  lemma AddKeepsOwners(w: World, inputs: seq<Buffer>, outputs: seq<Buffer>)
    requires InvLists(w.q, w.g) && Add(w.q, inputs, outputs).Ok?
    ensures var w' := Apply(w, AddStep(inputs, outputs)); InvOwners(w'.q, w'.g)
  {
    AddTable(w, inputs, outputs);
    var g, g' := w.g, Apply(w, AddStep(inputs, outputs)).g;
    var n := |inputs| + |outputs|;
    var head := w.q.freeHead;
    assert g.free == g.free[..n] + g.free[n..];
    forall x, h | OwnedBy(g', x, h)
      ensures x !in g'.free
      ensures h == head ==> x in g.free
      ensures h != head ==> OwnedBy(g, x, h)
    {
      if h == head {
        assert x in g.free[..n];
        var k :| 0 <= k < n && g.free[k] == x;
        assert forall j :: 0 <= j < |g'.free| ==> g'.free[j] == g.free[n + j];
      } else {
        assert OwnedBy(g, x, h);
      }
    }
    assert head == g.free[0] && head in g.free;
    HeadsNotFree(w.q, g);
    forall x: nat | x < w.q.size && x !in g'.free
      ensures exists h :: OwnedBy(g', x, h)
    {
      if x in g.free {
        assert x in g.free[..n];
        assert OwnedBy(g', x, head);
      } else {
        var h :| OwnedBy(g, x, h);
        assert OwnedBy(g', x, h);
      }
    }
  }

  lemma AddKeepsLists(w: World, inputs: seq<Buffer>, outputs: seq<Buffer>)
    requires InvLists(w.q, w.g) && Add(w.q, inputs, outputs).Ok?
    ensures var w' := Apply(w, AddStep(inputs, outputs));
      InvLists(w'.q, w'.g) && w.q.freeHead !in w.g.chains && |inputs| + |outputs| <= |w.g.free|
  {
    AddTable(w, inputs, outputs);
    HeadsNotFree(w.q, w.g);
    assert w.g.free[0] in w.g.free;
    AddKeepsFree(w, inputs, outputs);
    AddKeepsChains(w, inputs, outputs);
    AddKeepsOwners(w, inputs, outputs);
  }

  lemma AddKeepsPending(g: Ghost, head: nat, inputs: seq<Buffer>, outputs: seq<Buffer>)
    requires InvPending(g) && head !in g.chains && |inputs| + |outputs| <= |g.free| && g.taken <= |g.adds|
    ensures InvPending(GhostAdd(g, head, inputs, outputs))
  {
    var g' := GhostAdd(g, head, inputs, outputs);
    assert Offered(g') == Offered(g) + [head];
    assert Done(g') == Done(g);
    assert g'.chains.Keys == g.chains.Keys + {head};
    assert multiset(g'.chains.Keys) == multiset(g.chains.Keys) + multiset{head};
  }

  /** The slot that `add` writes is none of those the device has yet to read. */
  lemma AddKeepsAvail(avail: seq<nat>, size: nat, adds: seq<AddRecord>, from: nat, rec: AddRecord)
    requires 0 < size <= |avail| && from <= |adds| < from + size
    requires forall i :: from <= i < |adds| ==> avail[i % size] == adds[i].head
    ensures var avail' := avail[|adds| % size := rec.head];
      var adds' := adds + [rec];
      forall i :: from <= i < |adds'| ==> avail'[i % size] == adds'[i].head
  {
    forall i | from <= i < |adds|
      ensures i % size != |adds| % size
    {
      ModDistinct(i, |adds|, size);
    }
  }

  lemma AddKeepsRings(w: World, inputs: seq<Buffer>, outputs: seq<Buffer>)
    requires InvRings(w.q, w.g) && |w.g.adds| - |w.g.popped| < w.q.size
    requires Add(w.q, inputs, outputs).Ok? && |inputs| + |outputs| <= |w.g.free|
    requires w.q.freeHead !in w.g.chains
    ensures var w' := Apply(w, AddStep(inputs, outputs));
      InvShape(w'.q) ==> InvRings(w'.q, w'.g)
  {
    AddKeepsSlots(w, inputs, outputs);
    WrappedSucc(|w.g.adds|);
    AddKeepsPending(w.g, w.q.freeHead, inputs, outputs);
  }

  lemma AddKeepsSlots(w: World, inputs: seq<Buffer>, outputs: seq<Buffer>)
    requires InvShape(w.q) && InvCounters(w.q, w.g) && InvSlots(w.q, w.g) && |w.g.adds| - |w.g.popped| < w.q.size
    requires Add(w.q, inputs, outputs).Ok?
    ensures var w' := Apply(w, AddStep(inputs, outputs)); InvShape(w'.q) ==> InvSlots(w'.q, w'.g)
  {
    SlotOfWrapped(|w.g.adds|, w.q.size);
    AddKeepsAvail(w.q.avail, w.q.size, w.g.adds, w.g.taken, AddRecord(w.q.freeHead, inputs, outputs));
  }

  /** A new request gets a serial number nobody has. */
  lemma AddKeepsHistory(g: Ghost, head: nat, inputs: seq<Buffer>, outputs: seq<Buffer>)
    requires InvHistory(g) && head !in g.chains && |inputs| + |outputs| <= |g.free|
    requires forall h :: h in g.chains ==> g.chains[h].serial < |g.adds|
    ensures InvHistory(GhostAdd(g, head, inputs, outputs))
  {
    var g' := GhostAdd(g, head, inputs, outputs);
    assert forall h :: h in g.chains ==> h in g'.chains && g'.chains[h] == g.chains[h];
    forall s: nat | s < |g'.adds| && s !in g'.popped
      ensures Live(g', s)
    {
      if s < |g.adds| {
        var h :| h in g.chains && g.chains[h].serial == s;
        assert g'.chains[h].serial == s;
      } else {
        assert g'.chains[head].serial == s;
      }
    }
    forall s | s in g'.popped
      ensures !Live(g', s)
    {
      assert !Live(g, s);
    }
  }

  // ---------------------------------------------------------------------
  // The device
  // ---------------------------------------------------------------------

  /** Steps of the device touch neither the table nor the ownership of
      descriptors nor the history of requests. */
  lemma ListsUntouched(w: World, w': World)
    requires InvFree(w.q, w.g) && InvChains(w.q, w.g) && InvOwners(w.q, w.g) && InvHistory(w.g)
    requires w'.q.desc == w.q.desc && w'.q.size == w.q.size
    requires w'.q.numUsed == w.q.numUsed && w'.q.freeHead == w.q.freeHead
    requires w'.g.free == w.g.free && w'.g.chains == w.g.chains
    requires w'.g.adds == w.g.adds && w'.g.popped == w.g.popped
    ensures InvFree(w'.q, w'.g) && InvChains(w'.q, w'.g) && InvOwners(w'.q, w'.g) && InvHistory(w'.g)
  {
    assert forall h :: h in w.g.chains ==> InvChain(w.q, w.g, h) && InvChain(w'.q, w'.g, h);
    assert forall x, h :: OwnedBy(w'.g, x, h) <==> OwnedBy(w.g, x, h);
    assert forall s :: Live(w'.g, s) <==> Live(w.g, s);
  }

  lemma TakeKeepsPending(g: Ghost, g': Ghost)
    requires InvPending(g) && g.taken < |g.adds|
    requires g' == g.(taken := g.taken + 1, held := g.held + [g.adds[g.taken].head])
    ensures InvPending(g')
  {
    assert Offered(g) == [g.adds[g.taken].head] + Offered(g');
    assert Done(g') == Done(g);
  }

  lemma TakeKeepsRings(w: World)
    requires InvRings(w.q, w.g)
    ensures InvRings(Take(w).q, Take(w).g)
    ensures w.g.taken < |w.g.adds| ==>
              Take(w).g == w.g.(taken := w.g.taken + 1, held := w.g.held + [w.g.adds[w.g.taken].head])
    ensures w.g.taken == |w.g.adds| ==> Take(w) == w
  {
    WrappedEqual(w.g.taken, |w.g.adds|);
    SlotOfWrapped(w.g.taken, w.q.size);
    if w.g.taken < |w.g.adds| {
      TakeKeepsPending(w.g, Take(w).g);
    }
  }

  lemma CompleteKeepsPending(w: World, which: nat, len: nat)
    requires w.q.size > 0 && InvPending(w.g) && which < |w.g.held| && |w.g.popped| <= |w.g.returned|
    ensures InvPending(Complete(w, which, len).g)
  {
    var g, g' := w.g, Complete(w, which, len).g;
    assert g.held == g.held[..which] + [g.held[which]] + g.held[which + 1..];
    assert Done(g') == Done(g) + [g.held[which]];
    assert Offered(g') == Offered(g);
  }

  /** The slot the device writes is none of those the driver has yet to read. */
  lemma CompleteKeepsUsed(used: seq<UsedElem>, size: nat, returned: seq<UsedElem>, from: nat, e: UsedElem)
    requires 0 < size <= |used| && from <= |returned| < from + size
    requires forall i :: from <= i < |returned| ==> used[i % size] == returned[i]
    ensures var used' := used[|returned| % size := e];
      var returned' := returned + [e];
      forall i :: from <= i < |returned'| ==> used'[i % size] == returned'[i]
  {
    forall i | from <= i < |returned|
      ensures i % size != |returned| % size
    {
      ModDistinct(i, |returned|, size);
    }
  }

  lemma CompleteKeepsRings(w: World, which: nat, len: nat)
    requires InvRings(w.q, w.g) && which < |w.g.held|
    ensures InvRings(Complete(w, which, len).q, Complete(w, which, len).g)
  {
    SlotOfWrapped(|w.g.returned|, w.q.size);
    WrappedSucc(|w.g.returned|);
    CompleteKeepsPending(w, which, len);
    CompleteKeepsUsed(w.q.used, w.q.size, w.g.returned, |w.g.popped|, UsedElem(w.g.held[which], len));
  }

  /** The device reads the head of the oldest request it has not read yet. */
  lemma TakeKeeps(w: World)
    requires Inv(w)
    ensures Inv(Take(w))
    ensures w.g.taken < |w.g.adds| ==>
              Take(w).g == w.g.(taken := w.g.taken + 1, held := w.g.held + [w.g.adds[w.g.taken].head])
    ensures w.g.taken == |w.g.adds| ==> Take(w) == w
  {
    PendingCount(w);
    TakeKeepsRings(w);
    ListsUntouched(w, Take(w));
  }

  lemma CompleteKeeps(w: World, which: nat, len: nat)
    requires Inv(w)
    ensures Inv(Complete(w, which, len))
  {
    if which < |w.g.held| {
      PendingCount(w);
      CompleteKeepsRings(w, which, len);
      ListsUntouched(w, Complete(w, which, len));
    }
  }

  // ---------------------------------------------------------------------
  // pop_used
  // ---------------------------------------------------------------------

  /** `can_pop` holds exactly when a completed chain is unread. */
  lemma CanPopExact(w: World)
    requires Inv(w)
    ensures CanPop(w.q) <==> |w.g.popped| < |w.g.returned|
  {
    PendingCount(w);
    WrappedEqual(|w.g.popped|, |w.g.returned|);
  }

  /** The used element that `pop_used` reads names an outstanding request. */
  lemma PopFinds(w: World)
    requires InvRings(w.q, w.g) && |w.g.popped| < |w.g.returned|
    ensures UsedAt(w.q) == w.g.returned[|w.g.popped|]
    ensures UsedAt(w.q).id in w.g.chains
  {
    var p := |w.g.popped|;
    SlotOfWrapped(p, w.q.size);
    assert Done(w.g)[0] == w.g.returned[p].id;
    assert w.g.returned[p].id in multiset(w.g.chains.Keys);
  }

  /** Recycling an outstanding chain: what changes in the table, and that the
      count of used descriptors cannot underflow. */
  lemma RecycleChain(q: Queue, g: Ghost, id: nat)
    requires InvLists(q, g) && id in g.chains
    ensures InvChain(q, g, id) && id < U16
    ensures var idxs := g.chains[id].idxs;
      var last := idxs[|idxs| - 1];
      && last < |q.desc|
      && Recycle(q.desc, id, q.freeHead, |q.desc|)
           == RecycleResult(q.desc[last := q.desc[last].(next := q.freeHead)], |idxs|)
      && |idxs| <= q.numUsed
      && Distinct(idxs + g.free)
  {
    assert InvChain(q, g, id);
    var idxs := g.chains[id].idxs;
    Pigeonhole(idxs, q.size);
    RecycleAlong(q.desc, idxs, q.freeHead, |q.desc|);
    var both := idxs + g.free;
    assert forall k :: 0 <= k < |idxs| ==> OwnedBy(g, idxs[k], id);
    assert forall k :: 0 <= k < |both| ==> both[k] < q.size;
    Pigeonhole(both, q.size);
  }

  /** The queue after popping request id. */
  function Popped(q: Queue, id: nat): Queue {
    var r := Recycle(q.desc, id, q.freeHead, |q.desc|);
    q.(desc := r.desc, freeHead := id, numUsed := q.numUsed - r.count, lastUsedIdx := (q.lastUsedIdx + 1) % U16)
  }

  lemma PopUsedIs(q: Queue)
    requires q.size > 0 && CanPop(q) && UsedAt(q).id < U16
    ensures PopUsed(q) == Ok((Popped(q, UsedAt(q).id), UsedAt(q).id, UsedAt(q).len))
  {
  }

  lemma PopIs(w: World)
    requires InvRings(w.q, w.g) && CanPop(w.q)
    requires forall h :: h in w.g.chains ==> h < w.q.size
    ensures |w.g.popped| < |w.g.returned|
    ensures w.g.returned[|w.g.popped|].id in w.g.chains
    ensures var e := w.g.returned[|w.g.popped|];
      && PopUsed(w.q) == Ok((Popped(w.q, e.id), e.id, e.len))
      && Apply(w, PopStep) == World(Popped(w.q, e.id), GhostPop(w.g, e.id))
  {
    WrappedEqual(|w.g.popped|, |w.g.returned|);
    PopFinds(w);
    PopUsedIs(w.q);
  }

  lemma PopKeepsFree(q: Queue, g: Ghost, id: nat)
    requires InvLists(q, g) && id in g.chains
    ensures InvShape(Popped(q, id)) && InvFree(Popped(q, id), GhostPop(g, id))
  {
    RecycleChain(q, g, id);
    assert Linked(q.desc, g.chains[id].idxs) && Linked(q.desc, g.free);
    LinksJoin(q.desc, g.chains[id].idxs, g.free, q.freeHead);
  }

  /** Hooking the last of one list to the head of another makes one list. */
  lemma LinksJoin(desc: seq<Descriptor>, a: seq<nat>, b: seq<nat>, head: nat)
    requires Linked(desc, a) && Linked(desc, b) && Distinct(a + b) && a != [] && (b != [] ==> head == b[0])
    ensures a[|a| - 1] < |desc| && Linked(desc[a[|a| - 1] := desc[a[|a| - 1]].(next := head)], a + b)
  {
    var c, last := a + b, a[|a| - 1];
    assert last == c[|a| - 1];
    var desc' := desc[last := desc[last].(next := head)];
    forall k | 0 <= k < |c|
      ensures c[k] < |desc'| && (k < |c| - 1 ==> desc'[c[k]].next == c[k + 1])
    {
      if k >= |a| {
        assert c[k] == b[k - |a|];
        if k < |c| - 1 { assert c[k + 1] == b[k - |a| + 1]; }
      }
    }
  }

  lemma PopKeepsChains(q: Queue, g: Ghost, id: nat)
    requires InvLists(q, g) && id in g.chains
    ensures InvChains(Popped(q, id), GhostPop(g, id))
  {
    RecycleChain(q, g, id);
    var q', g' := Popped(q, id), GhostPop(g, id);
    var idxs := g.chains[id].idxs;
    var last := idxs[|idxs| - 1];
    assert OwnedBy(g, last, id);
    forall h | h in g'.chains
      ensures InvChain(q', g', h)
    {
      assert InvChain(q, g, h);
      var c := g.chains[h];
      forall k | 0 <= k < |c.idxs|
        ensures q'.desc[c.idxs[k]] == q.desc[c.idxs[k]]
      {
        assert OwnedBy(g, c.idxs[k], h);
      }
    }
  }

  lemma PopKeepsOwners(q: Queue, g: Ghost, id: nat)
    requires InvOwners(q, g) && id in g.chains
    ensures InvOwners(Popped(q, id), GhostPop(g, id))
  {
    var g' := GhostPop(g, id);
    forall x, h | OwnedBy(g', x, h)
      ensures x !in g'.free && OwnedBy(g, x, h)
    {
      assert OwnedBy(g, x, h);
      assert x in g.chains[id].idxs ==> OwnedBy(g, x, id);
    }
    forall x: nat | x < q.size && x !in g'.free
      ensures exists h :: OwnedBy(g', x, h)
    {
      var h :| OwnedBy(g, x, h);
      assert OwnedBy(g', x, h);
    }
  }

  lemma PopKeepsPending(g: Ghost, id: nat)
    requires InvPending(g) && |g.popped| < |g.returned| && id == g.returned[|g.popped|].id && id in g.chains
    ensures InvPending(GhostPop(g, id))
  {
    var g' := GhostPop(g, id);
    assert |g'.popped| == |g.popped| + 1 && g'.returned == g.returned;
    assert Done(g) == [id] + Done(g');
    assert Offered(g') == Offered(g);
    assert g'.chains.Keys == g.chains.Keys - {id};
    assert multiset(g.chains.Keys) == multiset(g'.chains.Keys) + multiset{id};
    var rest := multiset(Offered(g)) + multiset(g.held) + multiset(Done(g'));
    assert rest + multiset{id} == multiset(g'.chains.Keys) + multiset{id};
    assert rest == (rest + multiset{id}) - multiset{id};
  }

  lemma PopKeepsRings(q: Queue, g: Ghost, id: nat)
    requires InvRings(q, g) && |g.popped| < |g.returned| && id in g.chains
    requires InvPending(GhostPop(g, id)) && InvShape(Popped(q, id))
    ensures InvRings(Popped(q, id), GhostPop(g, id))
  {
    WrappedSucc(|g.popped|);
  }

  lemma PopKeepsHistory(g: Ghost, id: nat)
    requires InvHistory(g) && id in g.chains && g.chains[id].serial < |g.adds|
    ensures InvHistory(GhostPop(g, id))
  {
    var g' := GhostPop(g, id);
    var serial := g.chains[id].serial;
    assert Live(g, serial);
    forall s | s in g'.popped
      ensures !Live(g', s)
    {
      if s in g.popped { assert !Live(g, s); }
    }
    forall s: nat | s < |g'.adds| && s !in g'.popped
      ensures Live(g', s)
    {
      assert Live(g, s);
      var h :| h in g.chains && g.chains[h].serial == s;
      assert h in g'.chains && g'.chains[h].serial == s;
    }
  }

  lemma PopKeeps(w: World)
    requires Inv(w) && CanPop(w.q)
    ensures Inv(Apply(w, PopStep)) && Apply(w, PopStep).q.size == w.q.size
  {
    PendingCount(w);
    HeadsNotFree(w.q, w.g);
    PopIs(w);
    var id := w.g.returned[|w.g.popped|].id;
    assert InvChain(w.q, w.g, id);
    PopKeepsFree(w.q, w.g, id);
    PopKeepsChains(w.q, w.g, id);
    PopKeepsOwners(w.q, w.g, id);
    PopKeepsPending(w.g, id);
    PopKeepsRings(w.q, w.g, id);
    PopKeepsHistory(w.g, id);
  }

  // ---------------------------------------------------------------------
  // Runs
  // ---------------------------------------------------------------------

  lemma AddKeeps(w: World, inputs: seq<Buffer>, outputs: seq<Buffer>)
    requires Inv(w) && Add(w.q, inputs, outputs).Ok?
    ensures var w' := Apply(w, AddStep(inputs, outputs)); Inv(w') && w'.q.size == w.q.size
  {
    AddKeepsLists(w, inputs, outputs);
    PendingCount(w);
    AddKeepsRings(w, inputs, outputs);
    SerialsKnown(w.q, w.g);
    AddKeepsHistory(w.g, w.q.freeHead, inputs, outputs);
  }

  lemma SerialsKnown(q: Queue, g: Ghost)
    requires InvChains(q, g)
    ensures forall h :: h in g.chains ==> g.chains[h].serial < |g.adds|
  {
    forall h | h in g.chains
      ensures g.chains[h].serial < |g.adds|
    {
      assert InvChain(q, g, h);
    }
  }

  lemma StepKeeps(w: World, s: Step)
    requires Inv(w)
    ensures Inv(Apply(w, s)) && Apply(w, s).q.size == w.q.size
  {
    match s
    case AddStep(inputs, outputs) =>
      if Add(w.q, inputs, outputs).Ok? {
        AddKeeps(w, inputs, outputs);
      }
    case TakeStep => TakeKeeps(w);
    case CompleteStep(which, len) => CompleteKeeps(w, which, len);
    case PopStep =>
      if CanPop(w.q) {
        PopKeeps(w);
      }
  }

  /** A run of steps from a world that satisfies the invariant. */
  ghost function Run(w: World, steps: seq<Step>): (w': World)
    requires Inv(w)
    ensures Inv(w') && w'.q.size == w.q.size
    decreases |steps|
  {
    if steps == [] then w
    else
      StepKeeps(w, steps[0]);
      Run(Apply(w, steps[0]), steps[1..])
  }

  function InitialGhost(size: nat): Ghost {
    Ghost(seq(size, i => i), map[], [], 0, [], [], [])
  }

  ghost predicate RegionOk(mem: Region, size: nat) {
    IsPow2(size) && size <= RING_SLOTS && |mem.desc| == size && |mem.avail| == |mem.used| == RING_SLOTS
  }

  /** A freshly created queue satisfies the invariant if and only if its memory
      held zero in the two shared indexes, whatever else it held. */
  lemma InitialInv(mem: Region, size: nat)
    requires RegionOk(mem, size)
    ensures Inv(World(Initial(mem, size), InitialGhost(size))) <==> mem.availShared == 0 && mem.usedIdx == 0
  {
    var g := InitialGhost(size);
    assert Offered(g) == [] && Done(g) == [];
    assert g.chains.Keys == {};
    forall x: nat | x < size
      ensures x in g.free
    {
      assert g.free[x] == x;
    }
  }

  /** The descriptors are the inputs then the outputs, WRITE set on the outputs
      only and NEXT on all but the last. */
  ghost predicate Describe(seen: seq<Descriptor>, inputs: seq<Buffer>, outputs: seq<Buffer>) {
    && |seen| == |inputs| + |outputs|
    && (forall k :: 0 <= k < |inputs| ==>
          seen[k].addr == inputs[k].addr && seen[k].len == inputs[k].len % U32 && !seen[k].flagWrite)
    && (forall k :: |inputs| <= k < |seen| ==>
          var out := outputs[k - |inputs|];
          seen[k].addr == out.addr && seen[k].len == out.len % U32 && seen[k].flagWrite)
    && (forall k :: 0 <= k < |seen| ==> seen[k].flagNext == (k + 1 < |seen|))
  }

  /** Following NEXT from head h, the device reads exactly what was given to the
      add that returned h. */
  ghost predicate ReadsBack(w: World, h: nat)
    requires h in w.g.chains && w.g.chains[h].serial < |w.g.adds|
  {
    var added := w.g.adds[w.g.chains[h].serial];
    added.head == h && Describe(Follow(w.q.desc, h, w.q.size), added.inputs, added.outputs)
  }

  /** What the device reads right after an add: its inputs and outputs. */
  lemma AddedReadsBack(w: World, inputs: seq<Buffer>, outputs: seq<Buffer>)
    requires Inv(w) && Add(w.q, inputs, outputs).Ok?
    ensures var (q, head) := Add(w.q, inputs, outputs).value; Describe(Follow(q.desc, head, q.size), inputs, outputs)
  {
    AddTable(w, inputs, outputs);
    var q, idxs := Add(w.q, inputs, outputs).value.0, w.g.free[..|inputs| + |outputs|];
    ChainDescribes(q, idxs, inputs, outputs);
  }

  lemma ChainDescribes(q: Queue, idxs: seq<nat>, inputs: seq<Buffer>, outputs: seq<Buffer>)
    requires |q.desc| == q.size && ChainOk(q.desc, idxs, Parts(inputs, outputs))
    ensures Describe(Follow(q.desc, idxs[0], q.size), inputs, outputs)
  {
    Pigeonhole(idxs, q.size);
    FollowAlong(q.desc, idxs, q.size);
    var seen := Follow(q.desc, idxs[0], q.size);
    forall k | 0 <= k < |seen|
      ensures Carries(seen[k], Parts(inputs, outputs)[k]) && seen[k].flagNext == (k + 1 < |seen|)
    {
      assert seen[k] == q.desc[idxs[k]];
    }
    CarriesDescribe(seen, inputs, outputs);
  }

  lemma CarriesDescribe(seen: seq<Descriptor>, inputs: seq<Buffer>, outputs: seq<Buffer>)
    requires |seen| == |inputs| + |outputs|
    requires forall k :: 0 <= k < |seen| ==> Carries(seen[k], Parts(inputs, outputs)[k]) && seen[k].flagNext == (k + 1 < |seen|)
    ensures Describe(seen, inputs, outputs)
  {
  }

  /** An add fails for want of parts, or for want of free descriptors, and for no
      other reason. */
  lemma AddFails(w: World, inputs: seq<Buffer>, outputs: seq<Buffer>)
    requires InvShape(w.q) && InvFree(w.q, w.g)
    ensures Add(w.q, inputs, outputs) == Err(InvalidParam) <==> inputs == [] && outputs == []
    ensures Add(w.q, inputs, outputs) == Err(BufferTooSmall) <==> |inputs| + |outputs| > |w.g.free|
    ensures Add(w.q, inputs, outputs).Ok? <==> 0 < |inputs| + |outputs| <= |w.g.free|
  {
  }

  lemma ChainReadsBack(w: World, h: nat)
    requires InvShape(w.q) && InvChains(w.q, w.g) && h in w.g.chains
    ensures w.g.chains[h].serial < |w.g.adds| && ReadsBack(w, h)
  {
    assert InvChain(w.q, w.g, h);
    var added := w.g.adds[w.g.chains[h].serial];
    ChainDescribes(w.q, w.g.chains[h].idxs, added.inputs, added.outputs);
  }

  /** Steps other than the pop of its own head leave an outstanding request
      outstanding, under the same serial number and the same descriptors. */
  lemma ChainStays(w: World, s: Step, h: nat)
    requires InvLists(w.q, w.g) && h in w.g.chains
    requires s.PopStep? && CanPop(w.q) ==> PopUsed(w.q).value.1 != h
    ensures h in Apply(w, s).g.chains && Apply(w, s).g.chains[h] == w.g.chains[h]
    ensures w.g.adds <= Apply(w, s).g.adds
  {
    if s.AddStep? && Add(w.q, s.inputs, s.outputs).Ok? {
      AddedHeadIsNew(w, s.inputs, s.outputs);
    }
  }

  lemma AddedHeadIsNew(w: World, inputs: seq<Buffer>, outputs: seq<Buffer>)
    requires InvLists(w.q, w.g) && Add(w.q, inputs, outputs).Ok?
    ensures w.q.freeHead !in w.g.chains
  {
    HeadsNotFree(w.q, w.g);
    assert w.g.free[0] in w.g.free;
  }

  /** A successful pop returns the element the device wrote earliest among the
      unread ones, and it ends exactly the request whose head that is. */
  lemma PopReturns(w: World)
    requires Inv(w) && CanPop(w.q)
    ensures PopUsed(w.q).Ok?
    ensures var (_, token, len) := PopUsed(w.q).value;
      var w' := Apply(w, PopStep);
      && w.g.returned[|w.g.popped|] == UsedElem(token, len)
      && token in w.g.chains && token !in w'.g.chains
      && w'.g.popped == w.g.popped + [w.g.chains[token].serial]
      && w.g.adds[w.g.chains[token].serial].head == token
  {
    PendingCount(w);
    HeadsNotFree(w.q, w.g);
    PopIs(w);
    assert InvChain(w.q, w.g, w.g.returned[|w.g.popped|].id);
  }

  /** In every reachable state every add is matched by at most one pop, and by
      exactly one once nothing is outstanding. */
  lemma MatchedOnce(g: Ghost, s: nat)
    requires InvHistory(g) && s < |g.adds|
    ensures multiset(g.popped)[s] == if Live(g, s) then 0 else 1
    ensures g.chains == map[] ==> multiset(g.popped)[s] == 1
  {
    OccursOnce(g.popped, s);
  }

  lemma {:induction false} OccursOnce(t: seq<nat>, x: nat)
    requires Distinct(t)
    ensures multiset(t)[x] == if x in t then 1 else 0
  {
    if t != [] {
      assert t == [t[0]] + t[1..];
      assert forall k :: 0 <= k < |t| - 1 ==> t[1..][k] == t[k + 1];
      OccursOnce(t[1..], x);
    }
  }

  /** The driver's 16-bit counters give the number of outstanding requests,
      across wrap-around, and it never exceeds the queue size. */
  lemma OutstandingCount(w: World)
    requires InvRings(w.q, w.g) && |w.g.adds| - |w.g.popped| == |w.g.chains|
    ensures (w.q.availIdx + U16 - w.q.lastUsedIdx) % U16 == |w.g.chains| <= w.q.size
  {
    WrappedDifference(|w.g.popped|, |w.g.adds|);
  }

  lemma WrappedDifference(a: nat, b: nat)
    requires a <= b <= a + RING_SLOTS
    ensures (b % U16 + U16 - a % U16) % U16 == b - a
  {
    var qa, qb := a / U16, b / U16;
    assert b % U16 + U16 - a % U16 == U16 * (1 + qa - qb) + (b - a);
    DivModUnique(b % U16 + U16 - a % U16, U16, 1 + qa - qb, b - a);
  }

  /** The world right after `VirtQueue::new`. */
  ghost function Start(mem: Region, size: nat): (w: World)
    requires RegionOk(mem, size) && mem.availShared == 0 && mem.usedIdx == 0
    ensures Inv(w) && w.q.size == size
  {
    InitialInv(mem, size);
    World(Initial(mem, size), InitialGhost(size))
  }

  ghost predicate AllReadBack(w: World) {
    forall h :: h in w.g.chains ==> w.g.chains[h].serial < |w.g.adds| && ReadsBack(w, h)
  }

  ghost predicate AllMatched(g: Ghost) {
    forall s: nat :: s < |g.adds| ==> multiset(g.popped)[s] == if Live(g, s) then 0 else 1
  }

  ghost predicate CountersExact(w: World) {
    && (w.q.availIdx + U16 - w.q.lastUsedIdx) % U16 == |w.g.chains| <= w.q.size
    && (CanPop(w.q) <==> |w.g.popped| < |w.g.returned|)
  }

  lemma AllReadBackHolds(w: World)
    requires InvShape(w.q) && InvChains(w.q, w.g)
    ensures AllReadBack(w)
  {
    forall h | h in w.g.chains
      ensures w.g.chains[h].serial < |w.g.adds| && ReadsBack(w, h)
    {
      ChainReadsBack(w, h);
    }
  }

  lemma AllMatchedHolds(g: Ghost)
    requires InvHistory(g)
    ensures AllMatched(g)
  {
    forall s: nat | s < |g.adds|
      ensures multiset(g.popped)[s] == if Live(g, s) then 0 else 1
    {
      MatchedOnce(g, s);
    }
  }

  lemma CountersExactHolds(w: World)
    requires InvRings(w.q, w.g) && |w.g.adds| - |w.g.popped| == |w.g.chains|
    ensures CountersExact(w)
  {
    OutstandingCount(w);
    WrappedEqual(|w.g.popped|, |w.g.returned|);
  }

  /** In every state that any interleaving of driver and device steps reaches,
      every descriptor is free or in exactly one acyclic chain, every
      outstanding request reads back as it was added, every add is outstanding
      or popped exactly once, and the wrapping counters count exactly. */
  lemma Reachable(mem: Region, size: nat, steps: seq<Step>)
    requires RegionOk(mem, size) && mem.availShared == 0 && mem.usedIdx == 0
    ensures var w := Run(Start(mem, size), steps);
      Inv(w) && AllReadBack(w) && AllMatched(w.g) && CountersExact(w)
  {
    InvIsSafe(Run(Start(mem, size), steps));
  }

  lemma InvIsSafe(w: World)
    requires Inv(w)
    ensures AllReadBack(w) && AllMatched(w.g) && CountersExact(w)
  {
    AllReadBackHolds(w);
    AllMatchedHolds(w.g);
    PendingCount(w);
    CountersExactHolds(w);
  }
}
