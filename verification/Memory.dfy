/** Physical memory as page frames of bytes, with little-endian 64-bit words. */
module Memory {
  import opened Bytes
  import opened Bits

  const PAGE_SIZE: nat := 4096
  const WORD: nat := 0x1_0000_0000_0000_0000

  /** Frames by physical page number. */
  type Mem = map<nat, seq<byte>>

  ghost predicate MemOk(mem: Mem) {
    forall f :: f in mem ==> |mem[f]| == PAGE_SIZE
  }

  function ZeroFrame(): (z: seq<byte>)
    ensures |z| == PAGE_SIZE && forall i :: 0 <= i < PAGE_SIZE ==> z[i] == 0
  {
    seq(PAGE_SIZE, _ => 0)
  }

  // ---------------------------------------------------------------------
  // Little-endian words
  // ---------------------------------------------------------------------

  function Pow256(k: nat): (p: nat)
    ensures p >= 1
  {
    if k == 0 then 1 else 256 * Pow256(k - 1)
  }

  function Decode(b: seq<byte>): nat {
    if b == [] then 0 else b[0] + 256 * Decode(b[1..])
  }

  function Encode(n: nat, k: nat): (b: seq<byte>)
    ensures |b| == k
    decreases k, n
  {
    if k == 0 then [] else [n % 256] + Encode(n / 256, k - 1)
  }

  /** Storing a word and loading it again gives the word. */
  lemma {:induction false} DecodeEncode(n: nat, k: nat)
    requires n < Pow256(k)
    ensures Decode(Encode(n, k)) == n
    decreases k
  {
    if k > 0 {
      assert n / 256 < Pow256(k - 1);
      DecodeEncode(n / 256, k - 1);
      assert Encode(n, k)[1..] == Encode(n / 256, k - 1);
    }
  }

  /** Little-endian: byte i counts 256 to the i. */
  lemma {:induction false} DecodeByte(b: seq<byte>, i: nat)
    requires i < |b|
    ensures Decode(b) / Pow256(i) % 256 == b[i]
    decreases i
  {
    var rest := Decode(b[1..]);
    if i == 0 {
      assert (b[0] + 256 * rest) % 256 == b[0];
    } else {
      DecodeByte(b[1..], i - 1);
      assert (b[0] + 256 * rest) / 256 == rest;
      DivDiv(Decode(b), 256, Pow256(i - 1));
    }
  }

  lemma {:induction false} EncodeByte(n: nat, k: nat, i: nat)
    requires i < k
    ensures Encode(n, k)[i] == n / Pow256(i) % 256
    decreases k
  {
    if i > 0 {
      EncodeByte(n / 256, k - 1, i - 1);
      DivDiv(n, 256, Pow256(i - 1));
    }
  }

  lemma {:induction false} DecodeZeros(b: seq<byte>)
    requires forall i :: 0 <= i < |b| ==> b[i] == 0
    ensures Decode(b) == 0
  {
    if b != [] { DecodeZeros(b[1..]); }
  }

  lemma WordIsPow256()
    ensures Pow256(8) == WORD
  {
    assert Pow256(4) == 0x1_0000_0000;
    assert Pow256(5) == 256 * Pow256(4);
    assert Pow256(6) == 256 * Pow256(5);
    assert Pow256(7) == 256 * Pow256(6);
  }

  lemma DecodeWord(v: nat)
    requires v < WORD
    ensures Decode(Encode(v, 8)) == v
  {
    WordIsPow256();
    DecodeEncode(v, 8);
  }

  function LoadWord(frame: seq<byte>, off: nat): nat
    requires off + 8 <= |frame|
  {
    Decode(frame[off..off + 8])
  }

  function StoreWord(frame: seq<byte>, off: nat, v: nat): (frame': seq<byte>)
    requires off + 8 <= |frame|
    ensures |frame'| == |frame|
  {
    frame[..off] + Encode(v, 8) + frame[off + 8..]
  }

  /** A word stored is the word loaded, and other words are untouched. */
  lemma LoadStore(frame: seq<byte>, off: nat, v: nat, off': nat)
    requires off + 8 <= |frame| && off' + 8 <= |frame| && v < WORD
    requires off' == off || off' + 8 <= off || off + 8 <= off'
    ensures LoadWord(StoreWord(frame, off, v), off') == if off' == off then v else LoadWord(frame, off')
  {
    var frame' := StoreWord(frame, off, v);
    if off' == off {
      assert frame'[off..off + 8] == Encode(v, 8);
      DecodeWord(v);
    } else {
      assert frame'[off'..off' + 8] == frame[off'..off' + 8];
    }
  }

  lemma LoadZero(off: nat)
    requires off + 8 <= PAGE_SIZE
    ensures LoadWord(ZeroFrame(), off) == 0
  {
    DecodeZeros(ZeroFrame()[off..off + 8]);
  }
}
