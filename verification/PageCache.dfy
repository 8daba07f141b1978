/** Pages of eight disk blocks: reading and writing back with runs of
    consecutive blocks coalesced into one transfer. */
module PageCache {
  import opened Bytes
  import opened Memory
  import opened Seqs

  const BUFFER_SIZE: nat := 512
  const PAGE_BUFFERS: nat := 8

  type Disk = map<nat, seq<byte>>

  ghost predicate DiskOk(disk: Disk) {
    forall id :: id in disk ==> |disk[id]| == BUFFER_SIZE
  }

  predicate OnDisk(disk: Disk, ids: seq<nat>) {
    forall i :: 0 <= i < |ids| ==> ids[i] in disk
  }

  // ---------------------------------------------------------------------
  // The device
  // ---------------------------------------------------------------------

  /** A device read of n blocks into one buffer. */
  function ReadBlocks(disk: Disk, id: nat, n: nat): seq<byte>
    requires forall k :: id <= k < id + n ==> k in disk
    decreases n
  {
    if n == 0 then [] else disk[id] + ReadBlocks(disk, id + 1, n - 1)
  }

  /** A device write of one buffer, block by block. */
  function WriteBlocks(disk: Disk, id: nat, buf: seq<byte>): Disk
    decreases |buf|
  {
    if |buf| < BUFFER_SIZE then disk
    else WriteBlocks(disk[id := buf[..BUFFER_SIZE]], id + 1, buf[BUFFER_SIZE..])
  }

  // ---------------------------------------------------------------------
  // Block-by-block reference
  // ---------------------------------------------------------------------

  /** The listed blocks, in order. */
  function Gather(disk: Disk, ids: seq<nat>): seq<byte>
    requires forall i :: 0 <= i < |ids| ==> ids[i] in disk
    decreases |ids|
  {
    if ids == [] then [] else disk[ids[0]] + Gather(disk, ids[1..])
  }

  /** Write the chunks of a page one at a time, in order. */
  function WriteEach(disk: Disk, ids: seq<nat>, page: seq<byte>): Disk
    decreases |ids|
  {
    if ids == [] || |page| < BUFFER_SIZE then disk
    else WriteEach(disk[ids[0] := page[..BUFFER_SIZE]], ids[1..], page[BUFFER_SIZE..])
  }

  function Zeros(n: nat): (z: seq<byte>)
    ensures |z| == n && forall i :: 0 <= i < n ==> z[i] == 0
  {
    seq(n, _ => 0)
  }

  lemma {:induction false} GatherLength(disk: Disk, ids: seq<nat>)
    requires DiskOk(disk) && OnDisk(disk, ids)
    ensures |Gather(disk, ids)| == BUFFER_SIZE * |ids|
    decreases |ids|
  {
    if ids != [] { GatherLength(disk, ids[1..]); }
  }

  lemma {:induction false} GatherAppend(disk: Disk, a: seq<nat>, b: seq<nat>)
    requires OnDisk(disk, a) && OnDisk(disk, b)
    ensures OnDisk(disk, a + b) && Gather(disk, a + b) == Gather(disk, a) + Gather(disk, b)
    decreases |a|
  {
    if a == [] {
      assert a + b == b;
    } else {
      assert (a + b)[1..] == a[1..] + b;
      GatherAppend(disk, a[1..], b);
      assert Gather(disk, a + b) == disk[a[0]] + (Gather(disk, a[1..]) + Gather(disk, b));
    }
  }

  /** Block i of a gathered page is the device block with the i-th id. */
  lemma {:induction false} GatherAt(disk: Disk, ids: seq<nat>, i: nat)
    requires DiskOk(disk) && OnDisk(disk, ids) && i < |ids|
    ensures |Gather(disk, ids)| == BUFFER_SIZE * |ids|
    ensures Gather(disk, ids)[BUFFER_SIZE * i..BUFFER_SIZE * (i + 1)] == disk[ids[i]]
  {
    GatherLength(disk, ids);
    assert ids == ids[..i] + ids[i..];
    GatherAppend(disk, ids[..i], ids[i..]);
    GatherLength(disk, ids[..i]);
    GatherLength(disk, ids[i..]);
    var head, tail := Gather(disk, ids[..i]), Gather(disk, ids[i..]);
    assert tail == disk[ids[i]] + Gather(disk, ids[i..][1..]);
    assert (head + tail)[BUFFER_SIZE * i..BUFFER_SIZE * (i + 1)] == tail[..BUFFER_SIZE];
  }

  /** A run of consecutive ids. */
  ghost predicate IsRun(ids: seq<nat>, start: nat) {
    forall i :: 0 <= i < |ids| ==> ids[i] == start + i
  }

  /** ids[from..to] is a run of consecutive ids. */
  ghost predicate RunAt(ids: seq<nat>, from: nat, to: nat, start: nat) {
    from <= to <= |ids| && forall k :: from <= k < to ==> ids[k] == start + (k - from)
  }

  lemma {:induction false} ReadRun(disk: Disk, ids: seq<nat>, start: nat)
    requires OnDisk(disk, ids) && IsRun(ids, start)
    ensures forall k :: start <= k < start + |ids| ==> k in disk
    ensures ReadBlocks(disk, start, |ids|) == Gather(disk, ids)
    decreases |ids|
  {
    forall k | start <= k < start + |ids|
      ensures k in disk
    {
      assert ids[k - start] == k;
    }
    if ids != [] {
      assert IsRun(ids[1..], start + 1);
      ReadRun(disk, ids[1..], start + 1);
    }
  }

  lemma {:induction false} WriteRun(disk: Disk, ids: seq<nat>, start: nat, buf: seq<byte>)
    requires IsRun(ids, start) && |buf| == BUFFER_SIZE * |ids|
    ensures WriteBlocks(disk, start, buf) == WriteEach(disk, ids, buf)
    decreases |ids|
  {
    if ids != [] {
      assert IsRun(ids[1..], start + 1);
      WriteRun(disk[ids[0] := buf[..BUFFER_SIZE]], ids[1..], start + 1, buf[BUFFER_SIZE..]);
    }
  }

  lemma {:induction false} WriteEachAppend(disk: Disk, a: seq<nat>, b: seq<nat>, page: seq<byte>)
    requires |page| >= BUFFER_SIZE * (|a| + |b|)
    ensures WriteEach(disk, a + b, page)
              == WriteEach(WriteEach(disk, a, page[..BUFFER_SIZE * |a|]), b, page[BUFFER_SIZE * |a|..])
    decreases |a|
  {
    if a == [] {
      assert a + b == b && page[..0] == [] && page[0..] == page;
    } else {
      assert (a + b)[1..] == a[1..] + b;
      var rest := page[BUFFER_SIZE..];
      WriteEachAppend(disk[a[0] := page[..BUFFER_SIZE]], a[1..], b, rest);
      var n := BUFFER_SIZE * |a|;
      assert page[..n][..BUFFER_SIZE] == page[..BUFFER_SIZE];
      assert page[..n][BUFFER_SIZE..] == rest[..n - BUFFER_SIZE];
      assert rest[n - BUFFER_SIZE..] == page[n..];
    }
  }

  // ---------------------------------------------------------------------
  // Writing back and reading in again
  // ---------------------------------------------------------------------

  lemma {:induction false} WriteEachOthers(disk: Disk, ids: seq<nat>, page: seq<byte>, id: nat)
    requires id !in ids
    ensures id in WriteEach(disk, ids, page) <==> id in disk
    ensures id in disk ==> WriteEach(disk, ids, page)[id] == disk[id]
    decreases |ids|
  {
    if ids != [] && |page| >= BUFFER_SIZE {
      WriteEachOthers(disk[ids[0] := page[..BUFFER_SIZE]], ids[1..], page[BUFFER_SIZE..], id);
    }
  }

  lemma {:induction false} WriteEachOk(disk: Disk, ids: seq<nat>, page: seq<byte>)
    requires DiskOk(disk) && |page| >= BUFFER_SIZE * |ids|
    ensures DiskOk(WriteEach(disk, ids, page)) && OnDisk(WriteEach(disk, ids, page), ids)
    ensures disk.Keys <= WriteEach(disk, ids, page).Keys
    decreases |ids|
  {
    if ids != [] {
      var disk' := disk[ids[0] := page[..BUFFER_SIZE]];
      WriteEachOk(disk', ids[1..], page[BUFFER_SIZE..]);
      assert ids[0] in disk'.Keys;
    }
  }

  /** Writing a page to distinct blocks and gathering them again gives the page. */
  lemma {:induction false} WriteThenGather(disk: Disk, ids: seq<nat>, page: seq<byte>)
    requires DiskOk(disk) && Distinct(ids) && |page| >= BUFFER_SIZE * |ids|
    ensures OnDisk(WriteEach(disk, ids, page), ids)
    ensures Gather(WriteEach(disk, ids, page), ids) == page[..BUFFER_SIZE * |ids|]
    decreases |ids|
  {
    WriteEachOk(disk, ids, page);
    if ids != [] {
      var first, rest := page[..BUFFER_SIZE], page[BUFFER_SIZE..];
      var disk' := disk[ids[0] := first];
      WriteThenGather(disk', ids[1..], rest);
      assert ids[0] !in ids[1..];
      WriteEachOthers(disk', ids[1..], rest, ids[0]);
      assert page[..BUFFER_SIZE * |ids|] == first + rest[..BUFFER_SIZE * (|ids| - 1)];
    } else {
      assert page[..0] == [];
    }
  }

  /** A full page over distinct blocks is restored by reading it back. */
  lemma FullPage(disk: Disk, ids: seq<nat>, page: seq<byte>)
    requires DiskOk(disk) && Distinct(ids) && |ids| == PAGE_BUFFERS && |page| == PAGE_SIZE
    ensures OnDisk(WriteEach(disk, ids, page), ids)
    ensures Gather(WriteEach(disk, ids, page), ids) + Zeros(PAGE_SIZE - BUFFER_SIZE * |ids|) == page
  {
    WriteThenGather(disk, ids, page);
    assert page[..BUFFER_SIZE * |ids|] == page;
  }

  // ---------------------------------------------------------------------
  // The page object
  // ---------------------------------------------------------------------

  class Page {
    var bytes: seq<byte>

    constructor ()
      ensures bytes == Zeros(PAGE_SIZE)
    {
      bytes := Zeros(PAGE_SIZE);
    }

    /** The page object of bytes that are cached already. */
    constructor Holding(bytes: seq<byte>)
      ensures this.bytes == bytes
    {
      this.bytes := bytes;
    }

    /** Overwrite part of the page, starting at block slot `at`. */
    method Splice(at: nat, data: seq<byte>)
      requires BUFFER_SIZE * at + |data| <= |bytes|
      modifies this
      ensures bytes == old(bytes)[..BUFFER_SIZE * at] + data + old(bytes)[BUFFER_SIZE * at + |data|..]
    {
      bytes := bytes[..BUFFER_SIZE * at] + data + bytes[BUFFER_SIZE * at + |data|..];
    }

    /** Fill the page: block i comes from device block ids[i], the rest is zero.
        An empty list leaves the page as it is. */
    method ReadIn(ids: seq<nat>, disk: Disk)
      requires |bytes| == PAGE_SIZE && |ids| <= PAGE_BUFFERS && DiskOk(disk) && OnDisk(disk, ids)
      modifies this
      ensures ids == [] ==> bytes == old(bytes)
      ensures ids != [] ==> bytes == Gather(disk, ids) + Zeros(PAGE_SIZE - BUFFER_SIZE * |ids|)
    {
      if |ids| == 0 {
        return;
      }
      var startBlock, conLength, startBuf := 0, 0, 0;
      var i := 0;
      while i < |ids|
        invariant 0 <= i <= |ids| && startBuf + conLength == i && (i > 0 ==> conLength > 0)
        invariant |bytes| == PAGE_SIZE && RunAt(ids, startBuf, i, startBlock)
        invariant bytes[..BUFFER_SIZE * startBuf] == Gather(disk, ids[..startBuf])
      {
        if conLength == 0 {
          startBlock, conLength := ids[i], 1;
        } else if ids[i] != startBlock + conLength {
          FlushRead(ids, disk, startBlock, startBuf, conLength);
          startBuf := startBuf + conLength;
          startBlock, conLength := ids[i], 1;
        } else {
          conLength := conLength + 1;
        }
        i := i + 1;
      }
      FlushRead(ids, disk, startBlock, startBuf, conLength);
      assert ids[..|ids|] == ids;
      Clear(|ids|);
    }

    /** Transfer the pending run into the page. */
    method FlushRead(ids: seq<nat>, disk: Disk, startBlock: nat, startBuf: nat, conLength: nat)
      requires |bytes| == PAGE_SIZE && |ids| <= PAGE_BUFFERS && DiskOk(disk) && OnDisk(disk, ids)
      requires startBuf + conLength <= |ids| && RunAt(ids, startBuf, startBuf + conLength, startBlock)
      requires bytes[..BUFFER_SIZE * startBuf] == Gather(disk, ids[..startBuf])
      modifies this
      ensures |bytes| == PAGE_SIZE
      ensures bytes[..BUFFER_SIZE * (startBuf + conLength)] == Gather(disk, ids[..startBuf + conLength])
    {
      var end := startBuf + conLength;
      ghost var run := ids[startBuf..end];
      ReadRun(disk, run, startBlock);
      GatherLength(disk, run);
      assert ids[..end] == ids[..startBuf] + run;
      GatherAppend(disk, ids[..startBuf], run);
      var data := ReadBlocks(disk, startBlock, conLength);
      Splice(startBuf, data);
      assert bytes[..BUFFER_SIZE * end] == old(bytes)[..BUFFER_SIZE * startBuf] + data;
    }

    /** Zero the page from block slot n on. */
    method Clear(n: nat)
      requires |bytes| == PAGE_SIZE && n <= PAGE_BUFFERS
      modifies this
      ensures bytes == old(bytes)[..BUFFER_SIZE * n] + Zeros(PAGE_SIZE - BUFFER_SIZE * n)
    {
      bytes := bytes[..BUFFER_SIZE * n] + Zeros(PAGE_SIZE - BUFFER_SIZE * n);
    }

    /** Write the page back; the device ends up as if the chunks were written
        one at a time, in order. */
    method WriteBack(ids: seq<nat>, disk: Disk) returns (disk': Disk)
      requires |bytes| == PAGE_SIZE && |ids| <= PAGE_BUFFERS
      ensures disk' == WriteEach(disk, ids, bytes[..BUFFER_SIZE * |ids|])
    {
      disk' := disk;
      if |ids| == 0 {
        return;
      }
      var startBlock, conLength, startBuf := 0, 0, 0;
      var i := 0;
      while i < |ids|
        invariant 0 <= i <= |ids| && startBuf + conLength == i && (i > 0 ==> conLength > 0)
        invariant RunAt(ids, startBuf, i, startBlock)
        invariant disk' == WriteEach(disk, ids[..startBuf], bytes[..BUFFER_SIZE * startBuf])
      {
        if conLength == 0 {
          startBlock, conLength := ids[i], 1;
        } else if ids[i] != startBlock + conLength {
          disk' := FlushWrite(ids, disk, disk', startBlock, startBuf, conLength);
          startBuf := startBuf + conLength;
          startBlock, conLength := ids[i], 1;
        } else {
          conLength := conLength + 1;
        }
        i := i + 1;
      }
      disk' := FlushWrite(ids, disk, disk', startBlock, startBuf, conLength);
      assert ids[..|ids|] == ids;
    }

    /** Transfer the pending run to the device. */
    method FlushWrite(ids: seq<nat>, ghost disk0: Disk, disk: Disk, startBlock: nat, startBuf: nat, conLength: nat)
        returns (disk': Disk)
      requires |bytes| == PAGE_SIZE && |ids| <= PAGE_BUFFERS
      requires startBuf + conLength <= |ids| && RunAt(ids, startBuf, startBuf + conLength, startBlock)
      requires disk == WriteEach(disk0, ids[..startBuf], bytes[..BUFFER_SIZE * startBuf])
      ensures disk' == WriteEach(disk0, ids[..startBuf + conLength], bytes[..BUFFER_SIZE * (startBuf + conLength)])
    {
      var end := startBuf + conLength;
      ghost var run := ids[startBuf..end];
      var lo, hi := BUFFER_SIZE * startBuf, BUFFER_SIZE * end;
      ghost var upTo := bytes[..hi];
      assert ids[..end] == ids[..startBuf] + run;
      assert upTo[..lo] == bytes[..lo] && upTo[lo..] == bytes[lo..hi];
      WriteEachAppend(disk0, ids[..startBuf], run, upTo);
      WriteRun(disk, run, startBlock, bytes[lo..hi]);
      disk' := WriteBlocks(disk, startBlock, bytes[lo..hi]);
    }
  }
}
