// Length-prefixed framing as a function of the whole byte stream: the reference the
// buffered readers are measured against. Rfc4571 is section 2 of RFC 4571.
module Framing {
  import opened Bytes

  datatype Framing = Rfc4571 | Rpc
  {
    function HeaderLen(): nat { if Rpc? then 4 else 2 }

    // One more than the largest length the header can carry.
    function LenLimit(): nat { if Rpc? then 0x1_0000_0000 else 0x1_0000 }

    function Header(len: nat): (h: bytes)
      ensures |h| == HeaderLen()
    {
      if Rpc? then Le32(len) else Be16(len)
    }

    function Declared(s: bytes): (len: nat)
      requires |s| >= HeaderLen()
      ensures len < LenLimit()
    {
      if Rpc? then Get4LEBytes(s, 0) else Get2Bytes(s, 0)
    }

    function FrameLen(s: bytes): nat
      requires |s| >= HeaderLen()
    {
      HeaderLen() + Declared(s)
    }

    predicate HasFrame(s: bytes) {
      |s| >= HeaderLen() && |s| >= FrameLen(s)
    }

    function Payload(s: bytes): bytes
      requires HasFrame(s)
    {
      s[HeaderLen()..FrameLen(s)]
    }

    // One message on the wire. The header keeps the length modulo its width.
    function Encode(m: bytes): bytes {
      Header(|m|) + m
    }
  }

  datatype Parsed = Parsed(frames: seq<bytes>, rest: bytes)

  // Every complete frame of the stream, empty ones included, and the unfinished suffix.
  function Parse(f: Framing, s: bytes): Parsed
    decreases |s|
  {
    if f.HasFrame(s) then
      var p := Parse(f, s[f.FrameLen(s)..]);
      Parsed([f.Payload(s)] + p.frames, p.rest)
    else Parsed([], s)
  }

  function NonEmpty(frames: seq<bytes>): seq<bytes> {
    if frames == [] then []
    else (if frames[0] == [] then [] else [frames[0]]) + NonEmpty(frames[1..])
  }

  // What a listener is handed for a stream: null frames are swallowed.
  function Packets(f: Framing, s: bytes): seq<bytes> {
    NonEmpty(Parse(f, s).frames)
  }

  function EncodeAll(f: Framing, ms: seq<bytes>): bytes {
    if ms == [] then [] else f.Encode(ms[0]) + EncodeAll(f, ms[1..])
  }

  lemma {:induction false} NonEmptyAppend(a: seq<bytes>, b: seq<bytes>)
    ensures NonEmpty(a + b) == NonEmpty(a) + NonEmpty(b)
  {
    if a == [] {
      assert a + b == b;
    } else {
      assert (a + b)[1..] == a[1..] + b;
      NonEmptyAppend(a[1..], b);
    }
  }

  lemma HeadStable(f: Framing, a: bytes, b: bytes)
    requires |a| >= f.HeaderLen()
    ensures f.Declared(a + b) == f.Declared(a)
  {
  }

  lemma FirstFrameStable(f: Framing, a: bytes, b: bytes)
    requires f.HasFrame(a)
    ensures f.HasFrame(a + b) && f.FrameLen(a + b) == f.FrameLen(a) == f.HeaderLen() + |f.Payload(a)|
    ensures f.Payload(a + b) == f.Payload(a)
    ensures (a + b)[f.FrameLen(a)..] == a[f.FrameLen(a)..] + b
  {
  }

  // Parsing is incremental: bytes that arrive later only meet the unfinished suffix.
  lemma {:induction false} ParseAppend(f: Framing, a: bytes, b: bytes)
    ensures Parse(f, a + b).frames == Parse(f, a).frames + Parse(f, Parse(f, a).rest + b).frames
    ensures Parse(f, a + b).rest == Parse(f, Parse(f, a).rest + b).rest
    decreases |a|
  {
    if f.HasFrame(a) {
      FirstFrameStable(f, a, b);
      ParseAppend(f, a[f.FrameLen(a)..], b);
    }
  }

  lemma {:induction false} PacketsAppend(f: Framing, a: bytes, b: bytes)
    ensures Packets(f, a + b) == Packets(f, a) + Packets(f, Parse(f, a).rest + b)
  {
    ParseAppend(f, a, b);
    NonEmptyAppend(Parse(f, a).frames, Parse(f, Parse(f, a).rest + b).frames);
  }

  // What is on the wire for a short message.
  lemma ShortHeaders(m: bytes)
    requires |m| < 256
    ensures Rfc4571.Encode(m) == [0, |m|] + m
    ensures Rpc.Encode(m) == [|m|, 0, 0, 0] + m
  {
  }

  predicate Sendable(f: Framing, ms: seq<bytes>) {
    forall i :: 0 <= i < |ms| ==> |ms[i]| < f.LenLimit()
  }

  // `s` begins with a frame carrying `m`, followed by `t`.
  predicate StartsWith(f: Framing, s: bytes, m: bytes, t: bytes) {
    f.HasFrame(s) && f.Payload(s) == m && s[f.FrameLen(s)..] == t
  }

  lemma EncodedLength(f: Framing, m: bytes, t: bytes)
    ensures |f.Encode(m) + t| >= f.HeaderLen()
    ensures f.Declared(f.Encode(m) + t) == |m| % f.LenLimit()
  {
    GetAfterSet(|m|);
    HeadStable(f, f.Header(|m|), m + t);
    assert f.Encode(m) + t == f.Header(|m|) + (m + t);
  }

  lemma EncodeHead(f: Framing, m: bytes, t: bytes)
    requires |m| < f.LenLimit()
    ensures StartsWith(f, f.Encode(m) + t, m, t)
  {
    hide Le32, Be16, Get4LEBytes, Get2Bytes;
    EncodedLength(f, m, t);
    assert f.Encode(m)[f.HeaderLen()..] == m;
  }

  lemma HeadFrameEncodes(f: Framing, s: bytes)
    requires f.HasFrame(s)
    ensures s == f.Encode(f.Payload(s)) + s[f.FrameLen(s)..]
  {
    SetAfterGet(s);
    var n := f.HeaderLen();
    assert f.Header(f.Declared(s)) == s[..n];
    assert s == s[..n] + f.Payload(s) + s[f.FrameLen(s)..];
  }

  lemma {:induction false} FramesBounded(f: Framing, s: bytes)
    ensures Sendable(f, Parse(f, s).frames)
    ensures !f.HasFrame(Parse(f, s).rest)
    decreases |s|
  {
    if f.HasFrame(s) {
      FramesBounded(f, s[f.FrameLen(s)..]);
    }
  }

  // Encoding after parsing gives back the stream, byte for byte: nothing is lost or reordered.
  lemma {:induction false} EncodeAfterParse(f: Framing, s: bytes)
    ensures EncodeAll(f, Parse(f, s).frames) + Parse(f, s).rest == s
    decreases |s|
  {
    if f.HasFrame(s) {
      var n := f.FrameLen(s);
      var p := Parse(f, s[n..]);
      EncodeAfterParse(f, s[n..]);
      HeadFrameEncodes(f, s);
      EncodeAllCons(f, f.Payload(s), p.frames, p.rest);
    } else {
      assert [] + s == s;
    }
  }

  lemma EncodeAllCons(f: Framing, m: bytes, ms: seq<bytes>, t: bytes)
    ensures EncodeAll(f, [m] + ms) + t == f.Encode(m) + (EncodeAll(f, ms) + t)
  {
  }

  // Parsing after encoding gives back the messages, null ones included, up to any unfinished tail.
  lemma {:induction false} ParseAfterEncode(f: Framing, ms: seq<bytes>, tail: bytes)
    requires Sendable(f, ms) && !f.HasFrame(tail)
    ensures Parse(f, EncodeAll(f, ms) + tail) == Parsed(ms, tail)
  {
    if ms == [] {
      assert EncodeAll(f, ms) + tail == tail;
    } else {
      var t := EncodeAll(f, ms[1..]) + tail;
      assert ms == [ms[0]] + ms[1..];
      EncodeAllCons(f, ms[0], ms[1..], tail);
      EncodeHead(f, ms[0], t);
      ParseAfterEncode(f, ms[1..], tail);
    }
  }

  lemma {:induction false} NonEmptyKeepsAll(ms: seq<bytes>)
    ensures NonEmpty(ms) == ms <==> forall i :: 0 <= i < |ms| ==> ms[i] != []
    ensures |NonEmpty(ms)| <= |ms|
    ensures forall p :: p in NonEmpty(ms) ==> p in ms
  {
    if ms != [] {
      NonEmptyKeepsAll(ms[1..]);
      var r := NonEmpty(ms[1..]);
      if ms[0] != [] {
        assert NonEmpty(ms)[1..] == r;
        assert NonEmpty(ms) == ms ==> r == ms[1..];
        assert ms == [ms[0]] + ms[1..];
        assert forall i :: 0 <= i < |ms| - 1 ==> ms[1..][i] == ms[i + 1];
      } else {
        assert |NonEmpty(ms)| < |ms|;
      }
    }
  }

  // Send is inverted by the reader exactly for messages that are not empty and whose length the
  // header can hold; the source narrows a longer length without checking it.
  lemma SendRoundTrip(f: Framing, m: bytes)
    ensures Packets(f, f.Encode(m)) == [m] && Parse(f, f.Encode(m)).rest == []
            <==> 0 < |m| < f.LenLimit()
  {
    var s := f.Encode(m);
    if |m| < f.LenLimit() {
      assert EncodeAll(f, [m]) + [] == s;
      ParseAfterEncode(f, [m], []);
      assert NonEmpty([m]) == if m == [] then [] else [m];
    } else {
      FramesBounded(f, s);
      NonEmptyKeepsAll(Parse(f, s).frames);
      assert forall p :: p in Packets(f, s) ==> |p| < f.LenLimit();
      assert m in [m];
    }
  }
}
