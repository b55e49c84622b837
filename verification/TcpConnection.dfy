// The buffered reader and the writer of a framed TCP connection. X2TcpConnection and
// X2RpcConnection run the same code and differ in the header only, which is `config.framing`.
module TcpConnection {
  import opened Bytes
  import opened Framing
  import opened Sequences
  import opened Session

  // What the socket did with one uv_try_write, then with one uv_write.
  datatype WriteResult = AllSent | Queued | Failed(tried: nat) | Refused

  // The socket, with a record of what it was asked and answered.
  datatype Call = TryWrite(data: bytes, written: int) | UvWrite(data: bytes, failed: bool)

  class Socket {
    ghost var calls: seq<Call>

    // A count of bytes taken, or a negative error.
    method TryWrite(data: bytes) returns (written: int)
      modifies this
      ensures written <= |data| && calls == old(calls) + [Call.TryWrite(data, written)]
    {
      written :| written <= |data|;
      calls := calls + [Call.TryWrite(data, written)];
    }

    method UvWrite(data: bytes) returns (failed: bool)
      modifies this
      ensures calls == old(calls) + [Call.UvWrite(data, failed)]
    {
      failed := *;
      calls := calls + [Call.UvWrite(data, failed)];
    }
  }

  // What one Write of `all` asks of the socket, and what the answers come to: everything is tried; what
  // is left is queued, and the write fails only if that is refused.
  ghost predicate Answered(asked: seq<Call>, all: bytes, r: WriteResult) {
    match r
    case Refused => asked == []
    case AllSent => asked == [TryWrite(all, |all|)]
    case Queued =>
      && |asked| == 2 && asked[0].TryWrite? && asked[0].data == all && asked[0].written < |all|
      && asked[1] == UvWrite(all[Taken(asked[0].written)..], false)
    case Failed(n) =>
      && |asked| == 2 && asked[0].TryWrite? && asked[0].data == all && asked[0].written < |all|
      && n == Taken(asked[0].written) && asked[1] == UvWrite(all[n..], true)
  }

  function Taken(written: int): nat { if written < 0 then 0 else written }

  // One call of Send and what became of it.
  datatype Sending = Sending(message: bytes, result: WriteResult)
  {
    predicate Accepted() { result.AllSent? || result.Queued? }

    // The socket took a part of the frame, and the rest never follows.
    predicate Torn() { result.Failed? && result.tried > 0 }

    predicate Possible(f: Framing) { result.Failed? ==> result.tried < |f.Encode(message)| }

    function Wire(f: Framing): bytes
      requires Possible(f)
    {
      match result
      case Refused => []
      case Failed(n) => f.Encode(message)[..n]
      case _ => f.Encode(message)
    }
  }

  predicate AllPossible(f: Framing, log: seq<Sending>) {
    forall i :: 0 <= i < |log| ==> log[i].Possible(f)
  }

  predicate NoneTorn(log: seq<Sending>) {
    forall i :: 0 <= i < |log| ==> !log[i].Torn()
  }

  // Everything the socket took in a run of calls.
  function WireOf(f: Framing, log: seq<Sending>): bytes
    requires AllPossible(f, log)
  {
    if log == [] then [] else WireOf(f, log[..|log| - 1]) + log[|log| - 1].Wire(f)
  }

  // The messages of the calls that succeeded.
  function AcceptedOf(log: seq<Sending>): seq<bytes> {
    if log == [] then []
    else
      var rest := AcceptedOf(log[..|log| - 1]);
      if log[|log| - 1].Accepted() then rest + [log[|log| - 1].message] else rest
  }

  class Connection {
    const config: Config
    const socket: Socket
    var buffer: array<byte>
    var bufferDataLen: nat
    var frameStart: nat
    var closed: bool
    ghost var received: bytes        // everything read so far
    var handed: seq<bytes>           // every packet handed to the listener so far
    ghost var errored: bool          // ErrorReceiving has run
    ghost var wire: bytes            // everything libuv took for sending
    ghost var log: seq<Sending>      // every call of Send so far

    ghost predicate Valid()
      reads this, buffer
    {
      && AllPossible(config.framing, log) && wire == WireOf(config.framing, log)
      && buffer.Length == config.bufferSize
      && frameStart <= bufferDataLen <= config.bufferSize
      && handed == Deliver(config.closes, [], Packets(config.framing, received))
      && closed == (Stopped(config.closes, handed) || errored)
      && (!closed ==>
            && buffer[frameStart..bufferDataLen] == Parse(config.framing, received).rest
            && (config.bufferSize > 0 ==> bufferDataLen < config.bufferSize))
    }

    ghost function State(): Session
      reads this
    {
      Session(received, handed, closed, errored)
    }

    constructor (config: Config, socket: Socket)
      ensures Valid() && fresh(buffer)
      ensures this.config == config && this.socket == socket && State() == FRESH && wire == [] && log == []
    {
      this.config, this.socket := config, socket;
      buffer := new byte[config.bufferSize];
      bufferDataLen, frameStart, closed := 0, 0, false;
      received, handed, errored, wire, log := [], [], false, [], [];
    }

    // OnUvReadAlloc, the socket storing `chunk` in the space it was offered, and OnUvRead.
    method Read(chunk: bytes)
      requires Valid()
      requires !closed ==> 0 < |chunk| <= config.bufferSize - bufferDataLen
      modifies this, buffer
      ensures Valid() && buffer == old(buffer) && wire == old(wire) && log == old(log)
      ensures State() == OnBytes(config, old(State()), chunk)
    {
      hide WireOf, AllPossible, Get2Bytes, Get4LEBytes, Deliver, Packets, Parse;
      if closed {
        return;
      }
      var end := bufferDataLen + |chunk|;
      ghost var pending := buffer[frameStart..bufferDataLen];
      Store(chunk);
      PacketsAppend(config.framing, received, chunk);
      ParseAppend(config.framing, received, chunk);
      DeliverAppend(config.closes, [], Packets(config.framing, received), Packets(config.framing, pending + chunk));
      received := received + chunk;
      bufferDataLen := end;
      OnTcpConnectionRead();
    }

    // The socket stores what it read behind the data.
    method Store(chunk: bytes)
      requires frameStart <= bufferDataLen && bufferDataLen + |chunk| <= buffer.Length
      modifies buffer
      ensures buffer[frameStart..bufferDataLen + |chunk|] == old(buffer[frameStart..bufferDataLen]) + chunk
    {
      forall k | 0 <= k < |chunk| {
        buffer[bufferDataLen + k] := chunk[k];
      }
    }

    ghost function Data(): bytes
      requires frameStart <= bufferDataLen <= buffer.Length
      reads this, buffer
    {
      buffer[frameStart..bufferDataLen]
    }

    // While frames are being taken: the data left in the buffer still has to be handed over.
    ghost predicate Taking()
      reads this, buffer
    {
      && buffer.Length == config.bufferSize
      && frameStart <= bufferDataLen <= config.bufferSize
      && !errored && closed == Stopped(config.closes, handed)
      && Deliver(config.closes, [], Packets(config.framing, received))
         == Deliver(config.closes, handed, Packets(config.framing, Data()))
      && Parse(config.framing, received).rest == Parse(config.framing, Data()).rest
    }

    // UserOnTcpConnectionRead: take frames while they are complete, make room otherwise.
    method OnTcpConnectionRead()
      requires Taking() && !closed && frameStart < bufferDataLen
      requires AllPossible(config.framing, log) && wire == WireOf(config.framing, log)
      modifies this, buffer
      ensures Valid() && buffer == old(buffer) && wire == old(wire) && log == old(log) && received == old(received)
      ensures errored == (!Stopped(config.closes, handed)
                          && |Parse(config.framing, received).rest| == config.bufferSize)
    {
      while true
        invariant buffer == old(buffer) && wire == old(wire) && log == old(log) && received == old(received)
        invariant Taking() && frameStart < bufferDataLen
        decreases bufferDataLen - frameStart
      {
        if closed {
          return;
        }
        var dataLen := bufferDataLen - frameStart;
        var packetLen := 0;
        if dataLen >= config.framing.HeaderLen() {
          packetLen := config.framing.Declared(buffer[frameStart..bufferDataLen]);
        }
        if dataLen >= config.framing.HeaderLen() && dataLen >= config.framing.HeaderLen() + packetLen {
          TakeFrame(packetLen);
          if bufferDataLen > frameStart {
            continue;
          }
          break;
        }
        assert Parse(config.framing, Data()) == Parsed([], Data());
        if bufferDataLen == config.bufferSize {
          if frameStart != 0 {
            Compact();
          } else {
            closed, errored := true, true;    // ErrorReceiving
            return;
          }
        }
        break;
      }
    }

    // One complete frame: hand its packet over, then step behind it or empty the full buffer.
    method TakeFrame(packetLen: nat)
      requires Taking() && !closed
      requires config.framing.HasFrame(Data()) && packetLen == config.framing.Declared(Data())
      modifies `handed, `closed, `frameStart, `bufferDataLen
      ensures Taking()
      ensures bufferDataLen - frameStart < old(bufferDataLen - frameStart)
      ensures bufferDataLen == frameStart ==> bufferDataLen < config.bufferSize
    {
      hide Get2Bytes, Get4LEBytes, Deliver, Packets, Parse;
      var f := config.framing;
      ghost var data := Data();
      var begin := frameStart + f.HeaderLen();
      var packet := buffer[begin..begin + packetLen];
      Slice(buffer[..], frameStart, bufferDataLen, f.HeaderLen(), f.FrameLen(data));
      assert packet == f.Payload(data);
      Slice(buffer[..], frameStart, bufferDataLen, f.FrameLen(data), |data|);
      HandOver(config.closes, f, handed, data);
      if packetLen != 0 {
        handed := handed + [packet];
        closed := config.closes(handed);
      }
      if begin + packetLen == config.bufferSize {
        frameStart, bufferDataLen := 0, 0;
      } else {
        frameStart := begin + packetLen;
      }
      assert Data() == data[f.FrameLen(data)..];
    }

    // memmove of the unfinished frame to the start of a full buffer.
    method Compact()
      requires buffer.Length == config.bufferSize == bufferDataLen && 0 < frameStart < bufferDataLen
      modifies buffer, `frameStart, `bufferDataLen
      ensures frameStart == 0 < bufferDataLen < config.bufferSize
      ensures buffer[..bufferDataLen] == old(buffer[frameStart..bufferDataLen])
    {
      var n := config.bufferSize - frameStart;
      forall k | 0 <= k < n {
        buffer[k] := buffer[frameStart + k];
      }
      bufferDataLen := n;
      frameStart := 0;
    }

    // Send: the header, then the message, to the socket.
    method Send(data: bytes) returns (r: WriteResult)
      requires Valid()
      modifies `wire, `log, socket
      ensures Valid() && log == old(log) + [Sending(data, r)] && old(socket.calls) <= socket.calls
      ensures Answered(socket.calls[|old(socket.calls)|..], config.framing.Encode(data), r)
      ensures r == Refused <==> closed
      ensures r.Failed? ==> r.tried < |config.framing.Encode(data)|
      ensures wire == old(wire) + match r {
        case Refused => []
        case Failed(n) => config.framing.Encode(data)[..n]
        case _ => config.framing.Encode(data)
      }
    {
      hide Parse, Packets, Deliver, WireOf, AllPossible, Answered;
      var header := MakeHeader(|data|);
      r := Write(header, data);
      HeadersEncode(config.framing, data);
      WireSnoc(config.framing, log, Sending(data, r));
      log := log + [Sending(data, r)];
    }

    method MakeHeader(len: nat) returns (header: bytes)
      ensures header == config.framing.Header(len)
    {
      var bytes := new byte[config.framing.HeaderLen()];
      if config.framing.Rpc? {
        Set4LEBytes(bytes, 0, len);
      } else {
        Set2Bytes(bytes, 0, len);
      }
      header := bytes[..];
    }

    // Write: try at once, then queue what is left, cut from one buffer or from both.
    method Write(data1: bytes, data2: bytes) returns (r: WriteResult)
      modifies `wire, socket
      ensures old(socket.calls) <= socket.calls
      ensures Answered(socket.calls[|old(socket.calls)|..], data1 + data2, r)
      ensures r == Refused <==> closed || data1 + data2 == []
      ensures r.Failed? ==> r.tried < |data1 + data2|
      ensures wire == old(wire) + match r {
        case Refused => []
        case Failed(n) => (data1 + data2)[..n]
        case _ => data1 + data2
      }
    {
      hide Answered;
      if closed || (|data1| == 0 && |data2| == 0) {
        NotAsked(socket.calls, data1 + data2);
        return Refused;
      }
      ghost var all, before := data1 + data2, socket.calls;
      var totalLen := |data1| + |data2|;
      var written := socket.TryWrite(data1 + data2);
      ghost var first := TryWrite(all, written);
      if written == totalLen {
        OneCall(before, first);
        AnsweredAtOnce(all);
        wire := wire + all;
        return AllSent;
      } else if written < 0 {
        written := 0;
      }
      var err := QueueRest(data1, data2, written);
      TwoCalls(before, first, UvWrite(all[written..], err));
      AnsweredInTwo(all, first.written, err);
      if err {
        wire := wire + all[..written];
        return Failed(written);
      }
      assert all[..written] + all[written..] == all;
      wire := wire + all;
      return Queued;
    }

    // Store what was not taken, cut from one buffer or from both, and queue it.
    method QueueRest(data1: bytes, data2: bytes, written: nat) returns (err: bool)
      requires written <= |data1 + data2|
      modifies socket
      ensures socket.calls == old(socket.calls) + [UvWrite((data1 + data2)[written..], err)]
    {
      var store :=
        if written < |data1| then data1[written..] + data2
        else data2[written - |data1|..];
      Splice(data1, data2, written, store);
      err := socket.UvWrite(store);
    }

    // What was sent so far, read by a connection of the same framing in any chunks, arrives as it was
    // sent as long as no frame is torn.
    lemma SentIsReceived(c: Config, chunks: seq<bytes>)
      requires Valid() && NoneTorn(log) && c.framing == config.framing
      requires c.framing.HeaderLen() <= c.bufferSize && Sendable(c.framing, AcceptedOf(log))
      requires AllFit(c.framing, c.bufferSize, AcceptedOf(log))
      requires Flat(chunks) == wire && Fits(c, FRESH, chunks)
      ensures !Run(c, FRESH, chunks).errored
      ensures Run(c, FRESH, chunks).handed == Deliver(c.closes, [], NonEmpty(AcceptedOf(log)))
    {
      WholeWire(config.framing, log);
      SendThenRun(c, AcceptedOf(log), chunks);
    }
  }

  lemma HeadersEncode(f: Framing, data: bytes)
    ensures f.Header(|data|) + data == f.Encode(data) && f.Encode(data) != []
  {
  }

  // ---- Runs of Send.

  lemma WireSnoc(f: Framing, log: seq<Sending>, s: Sending)
    requires AllPossible(f, log) && s.Possible(f)
    ensures AllPossible(f, log + [s]) && WireOf(f, log + [s]) == WireOf(f, log) + s.Wire(f)
  {
    assert (log + [s])[..|log|] == log;
  }

  lemma {:induction false} EncodeAllAppend(f: Framing, a: seq<bytes>, b: seq<bytes>)
    ensures EncodeAll(f, a + b) == EncodeAll(f, a) + EncodeAll(f, b)
  {
    if a == [] {
      assert a + b == b;
    } else {
      assert a + b == [a[0]] + (a[1..] + b);
      EncodeAllAppend(f, a[1..], b);
      EncodeAllCons(f, a[0], a[1..], EncodeAll(f, b));
      assert [a[0]] + a[1..] == a;
      assert EncodeAll(f, a + b) == f.Encode(a[0]) + EncodeAll(f, a[1..] + b);
    }
  }

  lemma EncodeOne(f: Framing, m: bytes)
    ensures EncodeAll(f, [m]) == f.Encode(m) && |f.Encode(m)| > 0
  {
    assert f.Encode(m) + [] == f.Encode(m);
  }

  // The wire is never shorter than what was accepted, and longer once a frame is torn.
  lemma {:induction false} WholeWire(f: Framing, log: seq<Sending>)
    requires AllPossible(f, log)
    ensures NoneTorn(log) ==> WireOf(f, log) == EncodeAll(f, AcceptedOf(log))
    ensures |WireOf(f, log)| >= |EncodeAll(f, AcceptedOf(log))|
    ensures !NoneTorn(log) ==> |WireOf(f, log)| > |EncodeAll(f, AcceptedOf(log))|
  {
    if log != [] {
      var rest, s := log[..|log| - 1], log[|log| - 1];
      assert log == rest + [s];
      WholeWire(f, rest);
      EncodeAllAppend(f, AcceptedOf(rest), [s.message]);
      EncodeOne(f, s.message);
    }
  }

  // MAIN: a reader of the wire finds exactly the messages whose Send succeeded, and nothing else, iff
  // no call left a torn frame behind and every length fits the header. The source keeps the connection
  // open after a torn frame.
  lemma ReadIffNoneTorn(f: Framing, log: seq<Sending>)
    requires AllPossible(f, log)
    ensures Parse(f, WireOf(f, log)) == Parsed(AcceptedOf(log), [])
            <==> NoneTorn(log) && Sendable(f, AcceptedOf(log))
  {
    hide WireOf, AcceptedOf, NoneTorn, Parse;
    WholeWire(f, log);
    FramesBounded(f, WireOf(f, log));
    if NoneTorn(log) && Sendable(f, AcceptedOf(log)) {
      NoFrameInNothing(f);
      ParseAfterEncode(f, AcceptedOf(log), []);
      assert EncodeAll(f, AcceptedOf(log)) + [] == WireOf(f, log);
    } else {
      EncodeAfterParse(f, WireOf(f, log));
      assert EncodeAll(f, AcceptedOf(log)) + [] == EncodeAll(f, AcceptedOf(log));
    }
  }

  lemma NoFrameInNothing(f: Framing)
    ensures !f.HasFrame([])
  {
  }

  // What comes behind a frame torn after its header is taken for the rest of its message: the reader
  // gets a packet nobody sent, made of the torn message and whatever bytes follow, headers included.
  lemma TornFrameSwallows(f: Framing, m: bytes, k: nat, later: bytes)
    requires k < |m| < f.LenLimit() && |m| - k <= |later|
    ensures var torn, mixed, rest := f.Encode(m)[..f.HeaderLen() + k], m[..k] + later[..|m| - k], later[|m| - k..];
            StartsWith(f, torn + later, mixed, rest) && Parse(f, torn + later).frames == [mixed] + Parse(f, rest).frames
  {
    hide Parse, StartsWith, Framing.Encode;
    var mixed, rest := m[..k] + later[..|m| - k], later[|m| - k..];
    TornIsMixed(f, m, k, later);
    EncodeHead(f, mixed, rest);
    ParseHead(f, f.Encode(mixed) + rest, mixed, rest);
  }

  lemma TornIsMixed(f: Framing, m: bytes, k: nat, later: bytes)
    requires k < |m| && |m| - k <= |later|
    ensures |f.Encode(m)| == f.HeaderLen() + |m|
    ensures f.Encode(m)[..f.HeaderLen() + k] + later
            == f.Encode(m[..k] + later[..|m| - k]) + later[|m| - k..]
  {
    hide Le32, Be16, Framing.Header;
    CutAndJoin(f.Header(|m|), m, k, later);
    assert |m[..k] + later[..|m| - k]| == |m|;
  }

  lemma CutAndJoin(h: bytes, m: bytes, k: nat, later: bytes)
    requires k <= |m| <= k + |later|
    ensures (h + m)[..|h| + k] + later == h + (m[..k] + later[..|m| - k]) + later[|m| - k..]
  {
    assert (h + m)[..|h| + k] == h + m[..k];
    assert later == later[..|m| - k] + later[|m| - k..];
  }

  lemma ParseHead(f: Framing, s: bytes, m: bytes, t: bytes)
    requires StartsWith(f, s, m, t)
    ensures Parse(f, s).frames == [m] + Parse(f, t).frames
  {
  }

  lemma Slice(s: bytes, lo: nat, hi: nat, i: nat, j: nat)
    requires lo <= hi <= |s| && i <= j <= hi - lo
    ensures s[lo..hi][i..j] == s[lo + i..lo + j]
  {
    assert forall k :: 0 <= k < j - i ==> s[lo..hi][i..j][k] == s[lo + i..lo + j][k];
  }

  // What is left of both buffers behind what was taken.
  lemma Splice(data1: bytes, data2: bytes, written: nat, store: bytes)
    requires written <= |data1 + data2|
    requires store == if written < |data1| then data1[written..] + data2 else data2[written - |data1|..]
    ensures store == (data1 + data2)[written..]
  {
  }

  lemma NotAsked(before: seq<Call>, all: bytes)
    ensures Answered(before[|before|..], all, Refused)
  {
  }

  lemma AnsweredAtOnce(all: bytes)
    ensures Answered([TryWrite(all, |all|)], all, AllSent)
  {
  }

  lemma AnsweredInTwo(all: bytes, written: int, err: bool)
    requires written < |all|
    ensures var n := Taken(written);
            Answered([TryWrite(all, written), UvWrite(all[n..], err)], all, if err then Failed(n) else Queued)
  {
  }

  lemma OneCall(before: seq<Call>, a: Call)
    ensures (before + [a])[|before|..] == [a]
  {
  }

  lemma TwoCalls(before: seq<Call>, a: Call, b: Call)
    ensures (before + [a] + [b])[|before|..] == [a, b]
    ensures before <= before + [a] + [b]
  {
  }

  // Taking the first frame off the data hands over its packet, if any, and leaves the rest.
  lemma HeadPacket(f: Framing, data: bytes)
    requires f.HasFrame(data)
    ensures var later := Packets(f, data[f.FrameLen(data)..]);
            Packets(f, data) == if f.Payload(data) == [] then later else [f.Payload(data)] + later
    ensures Parse(f, data).rest == Parse(f, data[f.FrameLen(data)..]).rest
  {
  }

  lemma HandOver(closes: Listener, f: Framing, handed: seq<bytes>, data: bytes)
    requires !Stopped(closes, handed) && f.HasFrame(data)
    ensures var after, p := data[f.FrameLen(data)..], f.Payload(data);
            && Deliver(closes, handed, Packets(f, data))
               == Deliver(closes, if p == [] then handed else handed + [p], Packets(f, after))
            && Parse(f, data).rest == Parse(f, after).rest
  {
    HeadPacket(f, data);
    DeliverOne(closes, handed, f.Payload(data), Packets(f, data[f.FrameLen(data)..]));
  }

  lemma DeliverOne(closes: Listener, handed: seq<bytes>, p: bytes, later: seq<bytes>)
    requires !Stopped(closes, handed)
    ensures Deliver(closes, handed, [p] + later) == Deliver(closes, handed + [p], later)
  {
  }
}
