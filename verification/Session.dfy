// A framed connection seen from outside: what one read, and a whole run of reads, must do.
module Session {
  import opened Bytes
  import opened Framing
  import opened Sequences

  // The application. Given every packet it was handed so far, does it close the connection now?
  type Listener = seq<bytes> -> bool

  predicate Stopped(closes: Listener, handed: seq<bytes>) {
    handed != [] && closes(handed)
  }

  // Hand packets over one at a time until the listener closes.
  function Deliver(closes: Listener, handed: seq<bytes>, todo: seq<bytes>): seq<bytes>
    decreases |todo|
  {
    if todo == [] || Stopped(closes, handed) then handed
    else Deliver(closes, handed + [todo[0]], todo[1..])
  }

  datatype Config = Config(framing: Framing, bufferSize: nat, closes: Listener)

  datatype Session = Session(received: bytes, handed: seq<bytes>, closed: bool, errored: bool)

  const FRESH := Session([], [], false, false)

  // One read, defined on all the bytes received since the connection opened.
  function OnBytes(c: Config, s: Session, chunk: bytes): Session {
    if s.closed then s else
    var received := s.received + chunk;
    var handed := Deliver(c.closes, [], Packets(c.framing, received));
    var errored := !Stopped(c.closes, handed) && |Parse(c.framing, received).rest| == c.bufferSize;
    Session(received, handed, Stopped(c.closes, handed) || errored, errored)
  }

  function Run(c: Config, s: Session, chunks: seq<bytes>): Session
    decreases |chunks|
  {
    if chunks == [] then s else Run(c, OnBytes(c, s, chunks[0]), chunks[1..])
  }

  // Each read is at most as long as the room beside the unfinished frame. The socket is offered
  // no more than that while the connection is open; what follows a close is never read.
  predicate Fits(c: Config, s: Session, chunks: seq<bytes>)
    decreases |chunks|
  {
    chunks != [] && !s.closed ==>
      && |Parse(c.framing, s.received).rest| + |chunks[0]| <= c.bufferSize
      && Fits(c, OnBytes(c, s, chunks[0]), chunks[1..])
  }

  // A reader that sees the stream whole, without any buffer: it takes frames until one declares
  // more than the buffer could hold, and `over` says that such a frame has filled a whole buffer.
  datatype Verdict = Verdict(frames: seq<bytes>, over: bool)

  function Ideal(f: Framing, size: nat, s: bytes): Verdict
    decreases |s|
  {
    if |s| < f.HeaderLen() then Verdict([], false)
    else if f.FrameLen(s) > size then Verdict([], |s| >= size)
    else if |s| < f.FrameLen(s) then Verdict([], false)
    else
      var v := Ideal(f, size, s[f.FrameLen(s)..]);
      Verdict([f.Payload(s)] + v.frames, v.over)
  }

  function Outcome(c: Config, s: bytes): (seq<bytes>, bool) {
    var v := Ideal(c.framing, c.bufferSize, s);
    var handed := Deliver(c.closes, [], NonEmpty(v.frames));
    (handed, v.over && !Stopped(c.closes, handed))
  }

  lemma {:induction false} DeliverAppend(closes: Listener, handed: seq<bytes>, a: seq<bytes>, b: seq<bytes>)
    ensures Deliver(closes, handed, a + b) == Deliver(closes, Deliver(closes, handed, a), b)
    decreases |a|
  {
    if a == [] {
      assert a + b == b;
    } else if !Stopped(closes, handed) {
      assert (a + b)[1..] == a[1..] + b;
      DeliverAppend(closes, handed + [a[0]], a[1..], b);
    }
  }

  // The listener sees the packets in order, and the first one that makes it close is the last.
  lemma {:induction false} DeliverIsPrefix(closes: Listener, handed: seq<bytes>, todo: seq<bytes>)
    returns (n: nat)
    requires !Stopped(closes, handed)
    ensures n <= |todo| && Deliver(closes, handed, todo) == handed + todo[..n]
    ensures forall k :: 0 <= k < n ==> !Stopped(closes, handed + todo[..k])
    ensures n < |todo| ==> Stopped(closes, handed + todo[..n])
    decreases |todo|
  {
    if todo == [] {
      n := 0;
      assert handed + [] == handed;
    } else {
      var next := handed + [todo[0]];
      assert handed + todo[..0] == handed;
      assert forall k {:trigger todo[1..][..k]} :: 0 <= k <= |todo| - 1 ==>
               next + todo[1..][..k] == handed + todo[..k + 1];
      if Stopped(closes, next) {
        n := 1;
        assert handed + todo[..1] == next;
      } else {
        var m := DeliverIsPrefix(closes, next, todo[1..]);
        n := m + 1;
        forall k | 0 <= k < n ensures !Stopped(closes, handed + todo[..k]) {
          if k > 0 {
            assert next + todo[1..][..k - 1] == handed + todo[..k];
          }
        }
      }
    }
  }

  predicate AllFit(f: Framing, size: nat, frames: seq<bytes>) {
    forall i :: 0 <= i < |frames| ==> f.HeaderLen() + |frames[i]| <= size
  }

  lemma IdealHead(f: Framing, size: nat, s: bytes)
    requires f.HasFrame(s) && f.FrameLen(s) <= size
    ensures Ideal(f, size, s).frames == [f.Payload(s)] + Ideal(f, size, s[f.FrameLen(s)..]).frames
    ensures Ideal(f, size, s).over == Ideal(f, size, s[f.FrameLen(s)..]).over
  {
  }

  lemma IdealStops(f: Framing, size: nat, s: bytes)
    requires |s| < f.HeaderLen() || f.FrameLen(s) > size || |s| < f.FrameLen(s)
    ensures Ideal(f, size, s) == Verdict([], |s| >= f.HeaderLen() && f.FrameLen(s) > size && |s| >= size)
    ensures EncodeAll(f, []) + s == s
  {
  }

  // The verdict without the recursion: the frames fit and come first in the stream, and behind them is
  // an oversized frame that has filled a buffer, or a frame whose end has not arrived.
  lemma {:induction false} IdealSplits(f: Framing, size: nat, s: bytes) returns (rest: bytes)
    requires f.HeaderLen() <= size
    ensures var v := Ideal(f, size, s);
            && AllFit(f, size, v.frames) && s == EncodeAll(f, v.frames) + rest
            && (v.over <==> |rest| >= size && f.FrameLen(rest) > size)
            && (!v.over ==> |rest| < f.HeaderLen() || |rest| < f.FrameLen(rest))
    decreases |s|
  {
    hide Ideal;
    if |s| < f.HeaderLen() || f.FrameLen(s) > size || |s| < f.FrameLen(s) {
      rest := s;
      IdealStops(f, size, s);
    } else {
      var t := s[f.FrameLen(s)..];
      rest := IdealSplits(f, size, t);
      IdealHead(f, size, s);
      HeadFrameEncodes(f, s);
      EncodeAllCons(f, f.Payload(s), Ideal(f, size, t).frames, rest);
    }
  }

  // As long as every complete frame fits and the unfinished one has room, the two readers agree.
  lemma {:induction false} IdealAppend(f: Framing, size: nat, a: bytes, b: bytes)
    requires AllFit(f, size, Parse(f, a).frames)
    ensures Ideal(f, size, a + b).frames
            == Parse(f, a).frames + Ideal(f, size, Parse(f, a).rest + b).frames
    ensures Ideal(f, size, a + b).over == Ideal(f, size, Parse(f, a).rest + b).over
    decreases |a|
  {
    if f.HasFrame(a) {
      FirstFrameStable(f, a, b);
      var t := a[f.FrameLen(a)..];
      var p, q := f.Payload(a), Parse(f, t);
      assert Parse(f, a).frames[0] == p && Parse(f, a).frames[1..] == q.frames;
      IdealAppend(f, size, t, b);
      IdealHead(f, size, a + b);
      ConsAppend(p, q.frames, Ideal(f, size, q.rest + b).frames);
    }
  }

  // A stream no longer than the buffer holds only frames that fit, unless it is one oversized head.
  lemma {:induction false} ShortStream(f: Framing, size: nat, s: bytes)
    requires f.HeaderLen() <= size && |s| <= size
    ensures Ideal(f, size, s).frames == Parse(f, s).frames
    ensures Ideal(f, size, s).over == (|Parse(f, s).rest| == size)
    ensures AllFit(f, size, Parse(f, s).frames)
    ensures |Parse(f, s).rest| <= |s|
    decreases |s|
  {
    if f.HasFrame(s) {
      ShortStream(f, size, s[f.FrameLen(s)..]);
    }
  }

  // An oversized head stays at the head whatever arrives behind it.
  lemma OversizedHead(f: Framing, size: nat, s: bytes, b: bytes)
    requires f.HeaderLen() <= size <= |s|
    requires Ideal(f, size, s) == Verdict([], true)
    ensures Ideal(f, size, s + b) == Verdict([], true)
  {
  }

  lemma OverHead(f: Framing, size: nat, s: bytes)
    requires f.HeaderLen() <= size && |s| == size && !f.HasFrame(s)
    ensures Ideal(f, size, s) == Verdict([], true)
  {
  }

  // An open connection whose received bytes hold only frames that fit.
  ghost predicate Sound(c: Config, s: Session) {
    && s.handed == Deliver(c.closes, [], Packets(c.framing, s.received))
    && !s.closed && !s.errored && !Stopped(c.closes, s.handed)
    && |Parse(c.framing, s.received).rest| < c.bufferSize
    && AllFit(c.framing, c.bufferSize, Parse(c.framing, s.received).frames)
  }

  // After one read: either still sound, or the outcome is settled for every continuation.
  lemma OneRead(c: Config, s: Session, chunk: bytes, later: bytes)
    requires c.framing.HeaderLen() <= c.bufferSize && Sound(c, s)
    requires |Parse(c.framing, s.received).rest| + |chunk| <= c.bufferSize
    ensures var t := OnBytes(c, s, chunk);
            if t.closed then Outcome(c, s.received + chunk + later) == (t.handed, t.errored)
            else Sound(c, t)
  {
    var f, size := c.framing, c.bufferSize;
    var r := Parse(f, s.received).rest;
    var all := s.received + chunk;
    var t := OnBytes(c, s, chunk);
    ParseAppend(f, s.received, chunk);
    ShortStream(f, size, r + chunk);
    FramesBounded(f, all);
    var frames := Parse(f, all).frames;
    IdealAppend(f, size, all, later);
    var rest := Parse(f, all).rest;
    var tail := Ideal(f, size, rest + later);
    NonEmptyAppend(frames, tail.frames);
    DeliverAppend(c.closes, [], NonEmpty(frames), NonEmpty(tail.frames));
    if |rest| == size {
      OverHead(f, size, rest);
      OversizedHead(f, size, rest, later);
      assert frames + [] == frames;
    }
  }

  // MAIN: cut a stream into reads any way that fits, and the packets handed over and the overflow
  // close depend on the stream alone. The buffered reader refines the reader that sees it whole.
  lemma {:induction false} RunIsIdeal(c: Config, s: Session, chunks: seq<bytes>)
    requires c.framing.HeaderLen() <= c.bufferSize && Sound(c, s) && Fits(c, s, chunks)
    ensures var t := Run(c, s, chunks);
            (t.handed, t.errored) == Outcome(c, s.received + Flat(chunks))
    decreases |chunks|
  {
    if chunks == [] {
      SoundOutcome(c, s);
      assert s.received + Flat(chunks) == s.received;
    } else {
      var later := Flat(chunks[1..]);
      FlatCons(chunks[0], chunks[1..]);
      assert [chunks[0]] + chunks[1..] == chunks;
      assert s.received + Flat(chunks) == s.received + chunks[0] + later;
      var t := OnBytes(c, s, chunks[0]);
      OneRead(c, s, chunks[0], later);
      assert t.closed || t.received == s.received + chunks[0];
      if t.closed {
        RunClosed(c, t, chunks[1..]);
      } else {
        RunIsIdeal(c, t, chunks[1..]);
      }
    }
  }

  lemma SoundOutcome(c: Config, s: Session)
    requires c.framing.HeaderLen() <= c.bufferSize && Sound(c, s)
    ensures Outcome(c, s.received) == (s.handed, false)
  {
    var f, size := c.framing, c.bufferSize;
    IdealAppend(f, size, s.received, []);
    assert s.received + [] == s.received;
    var r := Parse(f, s.received).rest;
    assert r + [] == r;
    ShortStream(f, size, r);
    FramesBounded(f, s.received);
    assert Parse(f, r) == Parsed([], r);
    var frames := Parse(f, s.received).frames;
    assert frames + [] == frames;
  }

  lemma {:induction false} RunClosed(c: Config, s: Session, chunks: seq<bytes>)
    requires s.closed
    ensures Run(c, s, chunks) == s
    decreases |chunks|
  {
    if chunks != [] {
      RunClosed(c, s, chunks[1..]);
    }
  }

  lemma {:induction false} IdealOfEncoded(f: Framing, size: nat, ms: seq<bytes>)
    requires Sendable(f, ms)
    requires AllFit(f, size, ms)
    ensures Ideal(f, size, EncodeAll(f, ms)) == Verdict(ms, false)
  {
    if ms != [] {
      assert ms == [ms[0]] + ms[1..];
      EncodeHead(f, ms[0], EncodeAll(f, ms[1..]));
      IdealOfEncoded(f, size, ms[1..]);
    }
  }

  // Round trip over a connection: what Send wrote, fed in any chunks, arrives as it was sent, null
  // messages swallowed, up to the packet on which the listener closes; and it never overflows.
  lemma {:induction false} SendThenRun(c: Config, ms: seq<bytes>, chunks: seq<bytes>)
    requires c.framing.HeaderLen() <= c.bufferSize && Sendable(c.framing, ms)
    requires AllFit(c.framing, c.bufferSize, ms)
    requires Flat(chunks) == EncodeAll(c.framing, ms) && Fits(c, FRESH, chunks)
    ensures !Run(c, FRESH, chunks).errored
    ensures Run(c, FRESH, chunks).handed == Deliver(c.closes, [], NonEmpty(ms))
    ensures (forall h :: !c.closes(h)) && (forall i :: 0 <= i < |ms| ==> ms[i] != [])
            ==> Run(c, FRESH, chunks).handed == ms
  {
    RunIsIdeal(c, FRESH, chunks);
    assert FRESH.received + Flat(chunks) == Flat(chunks);
    IdealOfEncoded(c.framing, c.bufferSize, ms);
    NonEmptyKeepsAll(ms);
    var n := DeliverIsPrefix(c.closes, [], NonEmpty(ms));
  }
}
