/** The stack frame allocator: a bump pointer and a stack of recycled frames,
    and the physical memory whose frames it hands out zeroed. */
module Frames {
  import opened Bytes
  import opened Options
  import opened Seqs
  import opened Memory

  datatype Allocator = Allocator(current: nat, end: nat, recycled: seq<nat>)

  // ---------------------------------------------------------------------
  // The code
  // ---------------------------------------------------------------------

  function Alloc(a: Allocator): Option<(Allocator, nat)> {
    if a.recycled != [] then
      Some((a.(recycled := a.recycled[..|a.recycled| - 1]), a.recycled[|a.recycled| - 1]))
    else if a.current == a.end then None
    else Some((a.(current := a.current + 1), a.current))
  }

  /** The validity check of `dealloc`; a frame that fails it is a panic. */
  predicate Accepts(a: Allocator, ppn: nat) {
    ppn < a.current && ppn !in a.recycled
  }

  function Dealloc(a: Allocator, ppn: nat): Allocator
    requires Accepts(a, ppn)
  {
    a.(recycled := a.recycled + [ppn])
  }

  function Unallocated(a: Allocator): int {
    |a.recycled| + a.end - a.current
  }

  // ---------------------------------------------------------------------
  // Conservation
  // ---------------------------------------------------------------------

  /** Frames from `start` to the bump pointer are live or recycled, never both. */
  ghost predicate Inv(start: nat, a: Allocator, live: set<nat>) {
    && start <= a.current <= a.end
    && Distinct(a.recycled)
    && (forall f :: f in live ==> start <= f < a.current)
    && (forall f :: f in a.recycled ==> start <= f < a.current && f !in live)
    && (forall f :: start <= f < a.current ==> f in live || f in a.recycled)
  }

  /** A new frame is never one that is live, and no frame is lost or gained. */
  lemma AllocKeeps(start: nat, a: Allocator, live: set<nat>)
    requires Inv(start, a, live)
    ensures Alloc(a).None? <==> Unallocated(a) == 0
    ensures Alloc(a).Some? ==>
              var (a', ppn) := Alloc(a).value;
              && ppn !in live && start <= ppn < a.end && a'.end == a.end
              && Inv(start, a', live + {ppn}) && Unallocated(a') == Unallocated(a) - 1
  {
    if a.recycled != [] {
      var n := |a.recycled| - 1;
      LastNotInFront(a.recycled);
      var front, last := a.recycled[..n], a.recycled[n];
      assert a.recycled == front + [last];
      assert forall f :: f in a.recycled <==> f in front || f == last;
    }
  }

  lemma DeallocKeeps(start: nat, a: Allocator, live: set<nat>, ppn: nat)
    requires Inv(start, a, live) && ppn in live
    ensures Accepts(a, ppn)
    ensures Inv(start, Dealloc(a, ppn), live - {ppn}) && Unallocated(Dealloc(a, ppn)) == Unallocated(a) + 1
  {
    DistinctSnoc(a.recycled, ppn);
  }

  /** The frame freed last is the next one handed out, and leaves the allocator as it
      was. */
  lemma FreedIsNext(a: Allocator, ppn: nat)
    requires Accepts(a, ppn)
    ensures Alloc(Dealloc(a, ppn)) == Some((a, ppn))
  {
  }

  /** A frame never used before is handed out only when every other one is live. */
  lemma NewOnlyWhenNeeded(start: nat, a: Allocator, live: set<nat>)
    requires Inv(start, a, live) && Alloc(a).Some?
    ensures var (a', ppn) := Alloc(a).value;
      ppn >= a.current ==> ppn == a.current && a'.current == ppn + 1 && forall f :: start <= f < ppn ==> f in live
    ensures var (a', ppn) := Alloc(a).value;
      ppn < a.current ==> a'.current == a.current
  {
    if a.recycled != [] {
      assert a.recycled[|a.recycled| - 1] in a.recycled;
    }
  }

  /** The check accepts every live frame, and of the frames that are not live
      exactly those below the managed range. */
  lemma AcceptsExactly(start: nat, a: Allocator, live: set<nat>, ppn: nat)
    requires Inv(start, a, live)
    ensures Accepts(a, ppn) <==> ppn in live || ppn < start
  {
  }

  /** A frame below the managed range was never handed out, yet is accepted. */
  lemma AcceptsUnmanaged()
    ensures var a := Allocator(1, 2, []);
      Inv(1, a, {}) && Unallocated(a) == 1 && Accepts(a, 0)
  {
  }

  lemma {:induction false} RangeSize(s: set<nat>, lo: nat, hi: nat)
    requires lo <= hi && forall f :: f in s <==> lo <= f < hi
    ensures |s| == hi - lo
    decreases hi - lo
  {
    if lo < hi {
      RangeSize(s - {lo}, lo + 1, hi);
    } else {
      assert s == {};
    }
  }

  /** Live and unallocated frames together are always the initial count. */
  lemma Conservation(start: nat, a: Allocator, live: set<nat>)
    requires Inv(start, a, live)
    ensures Unallocated(a) + |live| == a.end - start
  {
    var recycled := Elements(a.recycled);
    var all := live + recycled;
    DistinctSize(a.recycled);
    assert forall f :: f in all <==> start <= f < a.current;
    RangeSize(all, start, a.current);
    assert live !! recycled;
    assert |all| == |live| + |recycled|;
  }

  // ---------------------------------------------------------------------
  // Runs
  // ---------------------------------------------------------------------

  datatype Step = AllocStep | FreeStep(ppn: nat)

  /** Allocator and live frames after a step; freeing a frame that is not live
      is not a step its owners can take. */
  function Apply(a: Allocator, live: set<nat>, step: Step): (Allocator, set<nat>) {
    match step
    case AllocStep => (match Alloc(a) case None => (a, live) case Some(r) => (r.0, live + {r.1}))
    case FreeStep(ppn) => if ppn in live && Accepts(a, ppn) then (Dealloc(a, ppn), live - {ppn}) else (a, live)
  }

  function Run(a: Allocator, live: set<nat>, steps: seq<Step>): (Allocator, set<nat>)
    decreases |steps|
  {
    if steps == [] then (a, live) else var (a', live') := Apply(a, live, steps[0]); Run(a', live', steps[1..])
  }

  /** In every run from a fresh allocator over [start, end), live and recycled
      frames stay disjoint and duplicate-free, and their number is conserved. */
  lemma {:induction false} RunConserves(start: nat, a: Allocator, live: set<nat>, steps: seq<Step>)
    requires Inv(start, a, live)
    ensures var (a', live') := Run(a, live, steps);
      Inv(start, a', live') && a'.end == a.end && Unallocated(a') + |live'| == Unallocated(a) + |live|
    decreases |steps|
  {
    if steps == [] {
    } else {
      var (a', live') := Apply(a, live, steps[0]);
      if steps[0].AllocStep? {
        AllocKeeps(start, a, live);
      } else if steps[0].ppn in live {
        DeallocKeeps(start, a, live, steps[0].ppn);
      }
      Conservation(start, a, live);
      Conservation(start, a', live');
      RunConserves(start, a', live', steps[1..]);
    }
  }

  // ---------------------------------------------------------------------
  // The machine: memory and allocator together
  // ---------------------------------------------------------------------

  class Machine {
    const start: nat
    var mem: Mem
    var allocator: Allocator
    ghost var live: set<nat>

    ghost predicate Valid()
      reads this
    {
      && MemOk(mem)
      && Inv(start, allocator, live)
      && (forall f :: start <= f < allocator.end ==> f in mem)
    }

    /** `init`: manage the frames from l up to r. */
    constructor (mem: Mem, l: nat, r: nat)
      requires MemOk(mem) && l <= r && forall f :: l <= f < r ==> f in mem
      ensures Valid() && this.mem == mem && start == l && live == {} && Unallocated(allocator) == r - l
    {
      start := l;
      this.mem := mem;
      allocator := Allocator(l, r, []);
      live := {};
    }

    /** `frame_alloc`: the frame handed out is zeroed byte by byte. */
    method FrameAlloc() returns (r: Option<nat>)
      requires Valid()
      modifies this
      ensures Valid()
      ensures r.None? <==> Unallocated(old(allocator)) == 0
      ensures r.None? ==> mem == old(mem) && allocator == old(allocator) && live == old(live)
      ensures r.Some? ==> r.value !in old(live) && live == old(live) + {r.value} && start <= r.value < allocator.end
      ensures r.Some? ==> mem == old(mem)[r.value := ZeroFrame()]
      ensures allocator.end == old(allocator.end)
      ensures Unallocated(allocator) == Unallocated(old(allocator)) - (if r.Some? then 1 else 0)
    {
      AllocKeeps(start, allocator, live);
      var got := Alloc(allocator);
      if got.None? {
        return None;
      }
      var ppn := got.value.1;
      allocator := got.value.0;
      live := live + {ppn};
      Zero(ppn);
      return Some(ppn);
    }

    method Zero(ppn: nat)
      requires ppn in mem && MemOk(mem)
      modifies this`mem
      ensures mem == old(mem)[ppn := ZeroFrame()]
    {
      var i := 0;
      while i < PAGE_SIZE
        invariant 0 <= i <= PAGE_SIZE && ppn in mem && |mem[ppn]| == PAGE_SIZE
        invariant mem == old(mem)[ppn := mem[ppn]]
        invariant forall k :: 0 <= k < i ==> mem[ppn][k] == 0
      {
        mem := mem[ppn := mem[ppn][i := 0]];
        i := i + 1;
      }
      assert mem[ppn] == ZeroFrame();
    }

    /** A store to one frame of physical memory. */
    method Store(f: nat, frame: seq<byte>)
      requires Valid() && f in mem && |frame| == PAGE_SIZE
      modifies this`mem
      ensures Valid() && mem == old(mem)[f := frame]
    {
      mem := mem[f := frame];
    }

    /** `Drop` of a frame tracker. */
    method FrameFree(ppn: nat)
      requires Valid() && ppn in live
      modifies this`allocator, this`live
      ensures Valid() && live == old(live) - {ppn} && allocator.end == old(allocator.end)
      ensures Unallocated(allocator) == Unallocated(old(allocator)) + 1
    {
      DeallocKeeps(start, allocator, live, ppn);
      allocator := Dealloc(allocator, ppn);
      live := live - {ppn};
    }
  }
}
