/** SLIP framing of the flashing tool: the encoder of `MAIXLoader.write` and the
    stateful decoder `slip_reader` (framing of RFC 1055, section PROTOCOL, with
    a leading END byte on every packet). */
module Slip {
  import opened Bytes
  import opened Options

  const END: byte := 0xC0
  const ESC: byte := 0xDB
  const ESC_END: byte := 0xDC
  const ESC_ESC: byte := 0xDD

  // ---------------------------------------------------------------------
  // Encoder
  // ---------------------------------------------------------------------

  /** `bytes.replace` with a one-byte pattern. */
  function Replace(s: seq<byte>, pattern: byte, subst: seq<byte>): seq<byte> {
    if s == [] then []
    else (if s[0] == pattern then subst else [s[0]]) + Replace(s[1..], pattern, subst)
  }

  function Encode(packet: seq<byte>): seq<byte> {
    [END] + Replace(Replace(packet, ESC, [ESC, ESC_ESC]), END, [ESC, ESC_END]) + [END]
  }

  function EncodeAll(packets: seq<seq<byte>>): seq<byte> {
    if packets == [] then [] else Encode(packets[0]) + EncodeAll(packets[1..])
  }

  /** Escaping one byte at a time, the reference the two-pass replace must meet. */
  function EscapeByte(b: byte): seq<byte> {
    if b == END then [ESC, ESC_END] else if b == ESC then [ESC, ESC_ESC] else [b]
  }

  function Escape(s: seq<byte>): seq<byte> {
    if s == [] then [] else EscapeByte(s[0]) + Escape(s[1..])
  }

  lemma {:induction false} ReplaceAppend(s: seq<byte>, t: seq<byte>, pattern: byte, subst: seq<byte>)
    ensures Replace(s + t, pattern, subst) == Replace(s, pattern, subst) + Replace(t, pattern, subst)
  {
    if s == [] {
      assert s + t == t;
    } else {
      assert (s + t)[1..] == s[1..] + t;
      ReplaceAppend(s[1..], t, pattern, subst);
    }
  }

  /** Replacing ESC first and END second escapes every byte exactly once. */
  lemma {:induction false} TwoPassIsBytewise(s: seq<byte>)
    ensures Replace(Replace(s, ESC, [ESC, ESC_ESC]), END, [ESC, ESC_END]) == Escape(s)
  {
    if s != [] {
      var first := if s[0] == ESC then [ESC, ESC_ESC] else [s[0]];
      ReplaceAppend(first, Replace(s[1..], ESC, [ESC, ESC_ESC]), END, [ESC, ESC_END]);
      TwoPassIsBytewise(s[1..]);
      assert Replace(first, END, [ESC, ESC_END]) == EscapeByte(s[0]) by {
        assert first[1..] == if s[0] == ESC then [ESC_ESC] else [];
        assert [ESC_ESC][1..] == [];
        assert Replace([ESC_ESC], END, [ESC, ESC_END]) == [ESC_ESC];
      }
    }
  }

  /** On the wire frames begin and end with 0xC0; a 0xC0 inside is 0xDB 0xDC and a
      0xDB is 0xDB 0xDD. */
  lemma WireBytes(b: byte)
    ensures Encode([b]) == if b == 0xC0 then [0xC0, 0xDB, 0xDC, 0xC0] else if b == 0xDB then [0xC0, 0xDB, 0xDD, 0xC0] else [0xC0, b, 0xC0]
  {
    TwoPassIsBytewise([b]);
    assert [b][1..] == [];
    assert Escape([b]) == EscapeByte(b) + Escape([]);
  }

  /** The body of an encoded packet never contains END. */
  lemma {:induction false} EscapedHasNoEnd(s: seq<byte>)
    ensures END !in Escape(s)
  {
    if s != [] {
      EscapedHasNoEnd(s[1..]);
    }
  }

  // ---------------------------------------------------------------------
  // Decoder
  // ---------------------------------------------------------------------

  datatype Failure = Timeout | InvalidHead(b: byte) | InvalidEscape(b: byte)

  /** The local variables of the generator, the packets it has yielded, and the
      exception it raised, if any. */
  datatype Reader = Reader(partial: Option<seq<byte>>, inEscape: bool, yielded: seq<seq<byte>>, failure: Option<Failure>)

  const FRESH: Reader := Reader(None, false, [], None)

  function Feed(r: Reader, b: byte): Reader {
    if r.failure.Some? then r
    else if r.partial.None? then
      if b == END then r.(partial := Some([])) else r.(failure := Some(InvalidHead(b)))
    else if r.inEscape then
      if b == ESC_END then r.(inEscape := false, partial := Some(r.partial.value + [END]))
      else if b == ESC_ESC then r.(inEscape := false, partial := Some(r.partial.value + [ESC]))
      else r.(inEscape := false, failure := Some(InvalidEscape(b)))
    else if b == ESC then r.(inEscape := true)
    else if b == END then r.(yielded := r.yielded + [r.partial.value], partial := None)
    else r.(partial := Some(r.partial.value + [b]))
  }

  function FeedAll(r: Reader, s: seq<byte>): Reader
    decreases |s|
  {
    if s == [] then r else FeedAll(Feed(r, s[0]), s[1..])
  }

  lemma {:induction false} FeedAppend(r: Reader, s: seq<byte>, t: seq<byte>)
    ensures FeedAll(r, s + t) == FeedAll(FeedAll(r, s), t)
    decreases |s|
  {
    if s == [] {
      assert s + t == t;
    } else {
      assert (s + t)[1..] == s[1..] + t;
      FeedAppend(Feed(r, s[0]), s[1..], t);
    }
  }

  predicate Collecting(r: Reader) {
    r.failure.None? && r.partial.Some? && !r.inEscape
  }

  predicate Idle(r: Reader) {
    r.failure.None? && r.partial.None? && !r.inEscape
  }

  /** Inside a packet, the escaped form of s adds exactly s to it. */
  lemma {:induction false} FeedEscaped(r: Reader, s: seq<byte>)
    requires Collecting(r)
    ensures FeedAll(r, Escape(s)) == r.(partial := Some(r.partial.value + s))
    decreases |s|
  {
    if s == [] {
      assert r.partial.value + s == r.partial.value;
    } else {
      var next := r.(partial := Some(r.partial.value + [s[0]]));
      FeedAppend(r, EscapeByte(s[0]), Escape(s[1..]));
      assert FeedAll(r, EscapeByte(s[0])) == next by {
        var e := EscapeByte(s[0]);
        if |e| == 2 {
          assert e[1..] == [e[1]] && e[1..][1..] == [];
          assert FeedAll(r, e) == FeedAll(Feed(r, e[0]), [e[1]]);
          assert FeedAll(Feed(r, e[0]), [e[1]]) == FeedAll(Feed(Feed(r, e[0]), e[1]), [e[1]][1..]);
        } else {
          assert e[1..] == [];
          assert FeedAll(r, e) == FeedAll(Feed(r, e[0]), []);
        }
      }
      FeedEscaped(next, s[1..]);
      assert r.partial.value + [s[0]] + s[1..] == r.partial.value + s;
    }
  }

  lemma FeedOne(r: Reader, b: byte)
    ensures FeedAll(r, [b]) == Feed(r, b)
  {
    assert [b][1..] == [];
    assert FeedAll(Feed(r, b), []) == Feed(r, b);
  }

  lemma FeedEncoded(r: Reader, packet: seq<byte>)
    requires Idle(r)
    ensures FeedAll(r, Encode(packet)) == r.(yielded := r.yielded + [packet])
  {
    TwoPassIsBytewise(packet);
    var body := Escape(packet);
    assert Encode(packet) == [END] + (body + [END]);
    FeedAppend(r, [END], body + [END]);
    FeedOne(r, END);
    var open := Feed(r, END);
    FeedAppend(open, body, [END]);
    FeedEscaped(open, packet);
    FeedOne(FeedAll(open, body), END);
    assert [] + packet == packet;
  }

  /** Decoding what was encoded yields exactly the packets, in order. */
  lemma {:induction false} RoundTrip(r: Reader, packets: seq<seq<byte>>)
    requires Idle(r)
    ensures FeedAll(r, EncodeAll(packets)) == r.(yielded := r.yielded + packets)
    decreases |packets|
  {
    if packets == [] {
      assert r.yielded + packets == r.yielded;
    } else {
      FeedAppend(r, Encode(packets[0]), EncodeAll(packets[1..]));
      FeedEncoded(r, packets[0]);
      RoundTrip(r.(yielded := r.yielded + [packets[0]]), packets[1..]);
      assert r.yielded + [packets[0]] + packets[1..] == r.yielded + packets;
    }
  }

  // ---------------------------------------------------------------------
  // The decoder accepts nothing else
  // ---------------------------------------------------------------------

  /** A failed reader stays failed. */
  lemma {:induction false} FailureIsFinal(r: Reader, s: seq<byte>)
    requires r.failure.Some?
    ensures FeedAll(r, s) == r
    decreases |s|
  {
    if s != [] { FailureIsFinal(r, s[1..]); }
  }

  lemma LiveBefore(r: Reader, s: seq<byte>)
    ensures FeedAll(r, s).failure.None? ==> r.failure.None?
  {
    if r.failure.Some? { FailureIsFinal(r, s); }
  }

  /** Reading the escaped form of one byte inside a packet. */
  lemma OneEscaped(r: Reader, s: seq<byte>) returns (b: byte, n: nat)
    requires Collecting(r) && Idle(FeedAll(r, s)) && s != [] && s[0] != END
    ensures 1 <= n <= |s| && s[..n] == EscapeByte(b)
    ensures FeedAll(r, s) == FeedAll(r.(partial := Some(r.partial.value + [b])), s[n..])
  {
    var next := Feed(r, s[0]);
    if s[0] == ESC {
      var t := s[1..];
      assert FeedAll(r, s) == FeedAll(next, t);
      assert t == [] ==> FeedAll(next, t) == next;
      var after := Feed(next, t[0]);
      assert FeedAll(next, t) == FeedAll(after, t[1..]);
      LiveBefore(after, t[1..]);
      assert s[..2] == [ESC, t[0]];
      b, n := if s[1] == ESC_END then END else ESC, 2;
      assert t[1..] == s[2..];
    } else {
      b, n := s[0], 1;
      assert s[..1] == [s[0]];
    }
  }

  /** If the stream s, read from inside a packet, leaves the reader idle, then s
      is the escaped rest of that packet, END, and whole encoded packets. */
  lemma {:induction false} AcceptedRest(r: Reader, s: seq<byte>) returns (body: seq<byte>, more: seq<seq<byte>>)
    requires Collecting(r) && Idle(FeedAll(r, s))
    ensures s == Escape(body) + [END] + EncodeAll(more)
    ensures FeedAll(r, s).yielded == r.yielded + [r.partial.value + body] + more
    decreases |s|
  {
    if s[0] == END {
      body := [];
      more := Accepted(Feed(r, END), s[1..]);
      assert r.partial.value + body == r.partial.value;
      assert s == [END] + s[1..];
    } else {
      var b, n := OneEscaped(r, s);
      var rest;
      rest, more := AcceptedRest(r.(partial := Some(r.partial.value + [b])), s[n..]);
      body := [b] + rest;
      Longer(s, n, b, rest, EncodeAll(more));
      assert r.partial.value + [b] + rest == r.partial.value + body;
    }
  }

  /** One more escaped byte in front. */
  lemma Longer(s: seq<byte>, n: nat, b: byte, rest: seq<byte>, more: seq<byte>)
    requires n <= |s| && s[..n] == EscapeByte(b) && s[n..] == Escape(rest) + [END] + more
    ensures s == Escape([b] + rest) + [END] + more
  {
    EscapeCons(b, rest);
    assert s == s[..n] + s[n..];
    assert EscapeByte(b) + (Escape(rest) + [END] + more) == EscapeByte(b) + Escape(rest) + [END] + more;
  }

  lemma EscapeCons(b: byte, s: seq<byte>)
    ensures Escape([b] + s) == EscapeByte(b) + Escape(s)
  {
    assert ([b] + s)[1..] == s;
  }

  lemma {:induction false} Accepted(r: Reader, s: seq<byte>) returns (packets: seq<seq<byte>>)
    requires Idle(r) && Idle(FeedAll(r, s))
    ensures s == EncodeAll(packets)
    ensures FeedAll(r, s).yielded == r.yielded + packets
    decreases |s|
  {
    if s == [] {
      packets := [];
      assert r.yielded + packets == r.yielded;
    } else {
      var next := Feed(r, s[0]);
      LiveBefore(next, s[1..]);
      var body, more := AcceptedRest(next, s[1..]);
      packets := [body] + more;
      EncodeAllCons(body, more);
      assert [] + body == body;
      assert s == [END] + s[1..];
    }
  }

  lemma EncodeAllCons(body: seq<byte>, more: seq<seq<byte>>)
    ensures EncodeAll([body] + more) == [END] + (Escape(body) + [END] + EncodeAll(more))
  {
    TwoPassIsBytewise(body);
    assert ([body] + more)[1..] == more;
  }

  /** The decoder, started fresh, ends between packets having yielded exactly
      these packets if and only if the stream is their encoding. */
  lemma DecodesExactly(s: seq<byte>, packets: seq<seq<byte>>)
    ensures FeedAll(FRESH, s) == FRESH.(yielded := packets) <==> s == EncodeAll(packets)
  {
    RoundTrip(FRESH, packets);
    assert FRESH.yielded + packets == packets;
    if FeedAll(FRESH, s) == FRESH.(yielded := packets) {
      var found := Accepted(FRESH, s);
      assert FRESH.yielded + found == found;
    }
  }

  // ---------------------------------------------------------------------
  // The generator over chunks read from the port
  // ---------------------------------------------------------------------

  function Concat(chunks: seq<seq<byte>>): seq<byte> {
    if chunks == [] then [] else chunks[0] + Concat(chunks[1..])
  }

  lemma {:induction false} ConcatSnoc(chunks: seq<seq<byte>>, c: seq<byte>)
    ensures Concat(chunks + [c]) == Concat(chunks) + c
    decreases |chunks|
  {
    if chunks == [] {
      assert ([] + [c])[1..] == [];
    } else {
      assert (chunks + [c])[1..] == chunks[1..] + [c];
      ConcatSnoc(chunks[1..], c);
    }
  }

  /** `slip_reader` on the chunks the port delivers: the reader's variables and
      yielded packets depend only on the bytes, not on how they are split; an
      empty read is a timeout. */
  method SlipReader(chunks: seq<seq<byte>>) returns (r: Reader)
    ensures (forall i :: 0 <= i < |chunks| ==> chunks[i] != []) ==> r == FeedAll(FRESH, Concat(chunks))
    ensures forall packets :: (forall i :: 0 <= i < |chunks| ==> chunks[i] != []) && Concat(chunks) == EncodeAll(packets)
              ==> r.yielded == packets && r.failure.None?
  {
    var partial: Option<seq<byte>> := None;
    var inEscape := false;
    var yielded: seq<seq<byte>> := [];
    var failure: Option<Failure> := None;
    var n := 0;
    while n < |chunks| && failure.None?
      invariant n <= |chunks|
      invariant (forall i :: 0 <= i < n ==> chunks[i] != []) ==>
                  Reader(partial, inEscape, yielded, failure) == FeedAll(FRESH, Concat(chunks[..n]))
      decreases |chunks| - n
    {
      var readBytes := chunks[n];
      ghost var start := Reader(partial, inEscape, yielded, failure);
      assert chunks[..n + 1] == chunks[..n] + [readBytes];
      ConcatSnoc(chunks[..n], readBytes);
      FeedAppend(FRESH, Concat(chunks[..n]), readBytes);
      if readBytes == [] {
        failure := Some(Timeout);
      }
      var i := 0;
      while i < |readBytes| && failure.None?
        invariant i <= |readBytes|
        invariant readBytes == [] ==> failure.Some?
        invariant readBytes != [] ==>
                    FeedAll(Reader(partial, inEscape, yielded, failure), readBytes[i..]) == FeedAll(start, readBytes)
      {
        var b := readBytes[i];
        assert readBytes[i..][0] == b && readBytes[i..][1..] == readBytes[i + 1..];
        if partial.None? {
          if b == END {
            partial := Some([]);
          } else {
            failure := Some(InvalidHead(b));
          }
        } else if inEscape {
          inEscape := false;
          if b == ESC_END {
            partial := Some(partial.value + [END]);
          } else if b == ESC_ESC {
            partial := Some(partial.value + [ESC]);
          } else {
            failure := Some(InvalidEscape(b));
          }
        } else if b == ESC {
          inEscape := true;
        } else if b == END {
          yielded := yielded + [partial.value];
          partial := None;
        } else {
          partial := Some(partial.value + [b]);
        }
        i := i + 1;
      }
      if failure.Some? && readBytes != [] {
        FailureIsFinal(Reader(partial, inEscape, yielded, failure), readBytes[i..]);
      }
      n := n + 1;
    }
    r := Reader(partial, inEscape, yielded, failure);
    assert chunks == chunks[..n] + chunks[n..] && (n == |chunks| ==> chunks[..n] == chunks);
    if failure.Some? {
      ConcatSplit(chunks, n);
      FeedAppend(FRESH, Concat(chunks[..n]), Concat(chunks[n..]));
      FailureIsFinal(r, Concat(chunks[n..]));
    }
    forall packets | (forall i :: 0 <= i < |chunks| ==> chunks[i] != []) && Concat(chunks) == EncodeAll(packets)
      ensures r.yielded == packets && r.failure.None?
    {
      DecodesExactly(Concat(chunks), packets);
    }
  }

  lemma {:induction false} ConcatSplit(chunks: seq<seq<byte>>, n: nat)
    requires n <= |chunks|
    ensures Concat(chunks) == Concat(chunks[..n]) + Concat(chunks[n..])
    decreases n
  {
    if n == 0 {
      assert chunks[..0] == [] && chunks[0..] == chunks;
    } else {
      ConcatSplit(chunks[1..], n - 1);
      assert chunks[..n][1..] == chunks[1..][..n - 1] && chunks[1..][n - 1..] == chunks[n..];
    }
  }
}
