// X2NetPeer: one end of a media stream. Its tick retries publishing, closes the peer once, feeds the
// protocol handler, and sends subscribed media at a limited rate.
module Peer {
  import opened VideoSwitch
  import opened Pacing

  // XGetUtcTimestamp: may move on between two readings, never back.
  class Clock {
    var now: int

    method Read() returns (t: int)
      modifies this
      ensures t == now >= old(now)
    {
      t :| t >= now;
      now := t;
    }
  }

  class NetConnection {
    var forceClosed: bool
    var hasListener: bool
  }

  type Packet = int

  datatype Media = Audio(id: int) | Video(id: int, frame: Frame)

  // What decides which media reach the handler, in order.
  datatype Event = Taken(m: Media) | Told(c: Control)

  // What of it the video switch sees.
  function Switching(h: seq<Event>): seq<VideoSwitch.Event> {
    if h == [] then []
    else
      var rest := Switching(h[..|h| - 1]);
      match h[|h| - 1]
      case Taken(Audio(_)) => rest
      case Taken(Video(_, frame)) => rest + [VideoSwitch.Video(frame)]
      case Told(c) => rest + [Asked(c)]
  }

  function StatusAfter(h: seq<Event>): Status {
    StatusIn(INITIAL, Switching(h))
  }

  lemma StatusStep(h: seq<Event>, e: Event)
    ensures StatusAfter(h + [e])
            == match e
               case Taken(Audio(_)) => StatusAfter(h)
               case Taken(Video(_, frame)) => StatusAfter(h).After(frame)
               case Told(c) => StatusAfter(h).Do(c)
  {
    assert (h + [e])[..|h|] == h;
    match e
    case Taken(Audio(_)) =>
    case Taken(Video(_, frame)) => StatusSnoc(INITIAL, Switching(h), VideoSwitch.Video(frame));
    case Told(c) => StatusSnoc(INITIAL, Switching(h), Asked(c));
  }

  predicate Sends(s: Status, m: Media) {
    m.Audio? || s.Accepts(m.frame)
  }

  // The media handed to MuxData: all audio, and the video the status of that moment lets through.
  function Muxed(h: seq<Event>): seq<Media> {
    if h == [] then []
    else
      var rest := h[..|h| - 1];
      match h[|h| - 1]
      case Taken(m) => if Sends(StatusAfter(rest), m) then Muxed(rest) + [m] else Muxed(rest)
      case _ => Muxed(rest)
  }

  function FramesOf(ms: seq<Media>): seq<Frame> {
    if ms == [] then []
    else
      var rest := FramesOf(ms[..|ms| - 1]);
      if ms[|ms| - 1].Video? then rest + [ms[|ms| - 1].frame] else rest
  }

  function TakenOf(h: seq<Event>): seq<Media> {
    if h == [] then []
    else
      var rest := TakenOf(h[..|h| - 1]);
      if h[|h| - 1].Taken? then rest + [h[|h| - 1].m] else rest
  }

  function AudioOf(ms: seq<Media>): seq<Media> {
    if ms == [] then []
    else
      var rest := AudioOf(ms[..|ms| - 1]);
      if ms[|ms| - 1].Audio? then rest + [ms[|ms| - 1]] else rest
  }

  const SEND_GAP: nat := 10
  const SEND_BURST: nat := 5
  const TRY_GAP: nat := 100

  ghost predicate InOrder(handled: bool, history: seq<Event>, status: Status, muxed: seq<Media>,
                          subData: seq<Media>, arrived: seq<Media>)
  {
    && status == StatusAfter(history)
    && muxed == (if handled then Muxed(history) else [])
    && arrived == TakenOf(history) + subData
  }

  ghost predicate RateKept(bursts: seq<Burst>, nextSend: int, taken: nat) {
    && Spaced(SEND_GAP, SEND_BURST, bursts)
    && (forall i :: 0 <= i < |bursts| ==> bursts[i].now + SEND_GAP <= nextSend)
    && Total(bursts) == taken
  }

  ghost predicate RetryKept(tries: seq<Burst>, nextTry: int, refused: bool, puber: bool, selfClosed: bool) {
    && (nextTry != 0 <==> refused)
    && Spaced(TRY_GAP, 1, tries)
    && (nextTry != 0 ==> forall i :: 0 <= i < |tries| ==> tries[i].now + TRY_GAP <= nextTry)
    && (!selfClosed ==> (puber <==> tries != []))
    && (!selfClosed && nextTry != 0 ==> puber)
  }

  class NetPeer {
    const vid: VideoRecvStatus
    const clock: Clock
    const given: NetConnection   // the connection it was created for
    const handled: bool          // a protocol handler exists for that kind of connection

    var conn: NetConnection?     // x2net_connection_
    var proto: bool              // x2proto_handler_, x2media_puber_, x2media_suber_ are not null
    var puber: bool
    var suber: bool
    var byOther: bool
    var fromNetwork: bool
    var fromProto: bool
    var selfClosed: bool
    var setParams: bool
    var nextTry: int
    var nextSend: int
    var netData: seq<Packet>     // list_recv_x2net_data_
    var fed: seq<Packet>         // what RecvDataFromNetwork was given
    var subData: seq<Media>      // list_recv_sub_data_
    var muxed: seq<Media>        // what MuxData was given

    ghost var closedCalls: nat   // calls of OnX2NetPeerClosed
    ghost var arrived: seq<Media>
    ghost var history: seq<Event>
    ghost var bursts: seq<Burst> // media taken per sending tick
    ghost var tries: seq<Burst>  // TryPublish calls
    ghost var refused: bool      // what the dispatcher answered to the last of them

    // Ownership: everything is held until the close, nothing after it, and the close is told once.
    ghost predicate Owned()
      reads this, given
    {
      && closedCalls == (if selfClosed then 1 else 0)
      && conn == (if selfClosed then null else given)
      && proto == (handled && !selfClosed)
      && (selfClosed ==> !puber && !suber)
      && (setParams ==> handled)
      && given.forceClosed == selfClosed && given.hasListener == !selfClosed
    }

    ghost predicate Ordered()
      reads vid, `history, `muxed, `subData, `arrived
    {
      InOrder(handled, history, vid.State(), muxed, subData, arrived)
    }

    ghost predicate Paced()
      reads `bursts, `nextSend, `history
    {
      RateKept(bursts, nextSend, |TakenOf(history)|)
    }

    ghost predicate Retrying()
      reads `tries, `nextTry, `refused, `puber, `selfClosed
    {
      RetryKept(tries, nextTry, refused, puber, selfClosed)
    }

    // Neither the next burst nor the next try is ever further away than its gap.
    ghost predicate Soon()
      reads `nextSend, `nextTry, clock
    {
      nextSend <= clock.now + 10 && nextTry <= clock.now + 100
    }

    ghost predicate Valid()
      reads this, given, vid, clock
    {
      clock.now > 0 && Owned() && Ordered() && Paced() && Retrying() && Soon()
    }

    constructor (given: NetConnection, clock: Clock, handled: bool, streamId: bool)
      requires clock.now > 0 && !given.forceClosed
      modifies given
      ensures Valid() && fresh(vid) && !selfClosed && arrived == [] && bursts == [] && tries == []
      ensures this.given == given && this.clock == clock && this.handled == handled
      ensures setParams == (handled && streamId) && !byOther && !fromNetwork && !fromProto && !refused
      ensures !puber && !suber && nextSend == 0 && netData == [] && fed == [] && history == []
    {
      vid := new VideoRecvStatus();
      this.given, this.clock, this.handled := given, clock, handled;
      conn, proto, puber, suber := given, handled, false, false;
      byOther, fromNetwork, fromProto, selfClosed := false, false, false, false;
      setParams := handled && streamId;
      nextTry, nextSend, netData, fed, subData, muxed := 0, 0, [], [], [], [];
      closedCalls, arrived, history, bursts, tries, refused := 0, [], [], [], [], false;
      new;
      given.hasListener := true;
    }

    // ---- Notifications from the connection, the handler and the dispatcher.

    method OnX2NetConnectionClosed()
      requires Valid()
      modifies `fromNetwork
      ensures Valid() && fromNetwork
    {
      fromNetwork := true;
    }

    method OnX2MediaPuberClosed()
      requires Valid()
      modifies `byOther
      ensures Valid() && byOther
    {
      byOther := true;
    }

    method OnX2ProtoHandlerClose()
      requires Valid()
      modifies `fromProto
      ensures Valid() && fromProto
    {
      fromProto := true;
    }

    method OnX2NetConnectionPacketReceived(p: Packet)
      requires Valid()
      modifies `netData
      ensures Valid() && netData == old(netData) + [p]
    {
      netData := netData + [p];
    }

    method OnX2MediaSuberGotData(m: Media)
      requires Valid()
      modifies `subData, `arrived
      ensures Valid() && subData == old(subData) + [m] && arrived == old(arrived) + [m]
    {
      subData := subData + [m];
      arrived := arrived + [m];
    }

    method SetRecvVideoScaleRD(scale: int)
      requires Valid()
      modifies vid, `history
      ensures Valid() && history == old(history) + [Told(Ask(scale))]
    {
      Note(Told(Ask(scale)));
      vid.SetRecvVideoScaleRD(scale);
    }

    method SetRecvStatus(audio: bool, video: bool)
      requires Valid()
      modifies vid, `history
      ensures Valid() && history == old(history) + [Told(Recv(audio, video))]
    {
      Note(Told(Recv(audio, video)));
      vid.SetRecvStatus(audio, video);
    }

    ghost method Note(e: Event)
      requires !e.Taken?
      modifies `history
      ensures history == old(history) + [e]
      ensures StatusAfter(history) == StatusAfter(old(history)).Do(e.c)
      ensures Muxed(history) == Muxed(old(history)) && TakenOf(history) == TakenOf(old(history))
    {
      StatusStep(history, e);
      history := history + [e];
      assert history[..|history| - 1] == old(history);
    }

    // The dispatcher: the name is free, or somebody holds it.
    method AskDispatcher() returns (accepted: bool)
      modifies `tries, `refused
      ensures tries == old(tries) + [Burst(clock.now, 1)] && refused == !accepted
    {
      accepted := *;
      tries := tries + [Burst(clock.now, 1)];
      refused := !accepted;
    }

    // TryPublish: a refusal, and nothing else, sets the time of the next try.
    method TryPublish()
      requires clock.now > 0 && Spaced(TRY_GAP, 1, tries)
      requires forall i :: 0 <= i < |tries| ==> tries[i].now + TRY_GAP <= clock.now
      modifies clock, `nextTry, `tries, `refused
      ensures clock.now >= old(clock.now)
      ensures tries == old(tries) + [Burst(old(clock.now), 1)] && Spaced(TRY_GAP, 1, tries)
      ensures nextTry == if refused then clock.now + 100 else 0
      ensures refused ==> forall i :: 0 <= i < |tries| ==> tries[i].now + TRY_GAP <= nextTry
    {
      nextTry := 0;
      var accepted := AskDispatcher();
      if !accepted {
        var t := clock.Read();
        nextTry := t + TRY_GAP;
      }
    }

    // The puber is created, and tried, by the first request only.
    method OnX2ProtoHandlerPublish()
      requires Valid() && !selfClosed
      modifies clock, `puber, `nextTry, `tries, `refused
      ensures Valid() && puber && old(tries) <= tries && clock.now >= old(clock.now)
      ensures if old(puber) then nextTry == old(nextTry) && tries == old(tries) && refused == old(refused)
              else |tries| == |old(tries)| + 1 && nextTry == if refused then clock.now + 100 else 0
    {
      if !puber {
        puber := true;
        TryPublish();
      }
    }

    method OnX2ProtoHandlerPlay(scale: int)
      requires Valid() && !selfClosed
      modifies vid, `suber, `history
      ensures Valid() && suber && history == old(history) + [Told(Play(scale))]
      ensures TakenOf(history) == TakenOf(old(history))
    {
      Note(Told(Play(scale)));
      if 0 < scale < 5 {
        vid.req := scale;
        vid.need := true;
      }
      suber := true;
    }

    // Whatever the handler calls back while it works on input.
    method HandlerCallbacks()
      requires Valid() && !selfClosed && proto
      modifies clock, vid, `puber, `suber, `nextTry, `tries, `refused, `history, `fromProto
      ensures Valid() && Later(old(clock.now), old(history), old(tries), old(bursts))
      ensures old(fromProto) ==> fromProto
      ensures old(puber) ==> puber && nextTry == old(nextTry) && tries == old(tries) && refused == old(refused)
    {
      var n: nat :| n >= 0;
      for i := 0 to n
        invariant Valid() && proto && Later(old(clock.now), old(history), old(tries), old(bursts))
        invariant old(fromProto) ==> fromProto
        invariant old(puber) ==> puber && nextTry == old(nextTry) && tries == old(tries) && refused == old(refused)
      {
        var scale: int := *;
        if {
          case true => OnX2ProtoHandlerPublish();
          case true => OnX2ProtoHandlerPlay(scale);
          case true => OnX2ProtoHandlerClose();
        }
      }
    }

    // The logs only grow, and the media taken stay the same.
    ghost predicate Later(now: int, h: seq<Event>, t: seq<Burst>, b: seq<Burst>)
      reads clock, `history, `tries, `bursts
    {
      now <= clock.now && h <= history && TakenOf(history) == TakenOf(h) && t <= tries && b == bursts
    }

    // ---- The tick.

    method RetryPublish()
      requires Valid() && !selfClosed
      modifies clock, `nextTry, `tries, `refused
      ensures Valid() && old(tries) <= tries && clock.now >= old(clock.now)
      ensures old(nextTry) == 0 || old(nextTry) > clock.now ==>
                tries == old(tries) && nextTry == old(nextTry) && refused == old(refused)
      ensures old(nextTry) != 0 && old(nextTry) <= old(clock.now) ==> |tries| == |old(tries)| + 1
      ensures tries != old(tries) ==> nextTry == if refused then clock.now + 100 else 0
    {
      if nextTry != 0 {
        var t := clock.Read();
        if nextTry <= t {
          TryPublish();
        }
      }
    }

    // Everything owned is let go, in this order, and the listener is told.
    method CloseSelf()
      requires Owned() && Retrying() && !selfClosed
      modifies `conn, `puber, `suber, `proto, `byOther, `fromNetwork, `fromProto, `selfClosed, `closedCalls, given
      ensures Owned() && Retrying() && selfClosed && closedCalls == 1
      ensures byOther && !fromNetwork && !fromProto
    {
      byOther, fromNetwork, fromProto := true, false, false;
      if conn != null {
        conn.hasListener := false;
        conn.forceClosed := true;
        conn := null;
      }
      puber, suber, proto := false, false, false;    // unpublished, unsubscribed, closed, deleted
      if !selfClosed {
        selfClosed := true;
        closedCalls := closedCalls + 1;
      }
    }

    // The handler, if there is one, gets every waiting packet in order.
    method DrainNetwork()
      requires Valid() && !selfClosed
      modifies clock, vid, `netData, `fed, `puber, `suber, `nextTry, `tries, `refused, `history, `fromProto
      ensures Valid() && netData == [] && Later(old(clock.now), old(history), old(tries), old(bursts))
      ensures fed == old(fed) + if proto then old(netData) else []
    {
      hide InOrder, RateKept, RetryKept;
      while |netData| > 0
        invariant Valid() && Later(old(clock.now), old(history), old(tries), old(bursts))
        invariant if proto then fed + netData == old(fed + netData) else fed == old(fed)
        decreases |netData|
      {
        var p := netData[0];
        assert fed + netData == fed + [p] + netData[1..];
        netData := netData[1..];
        if proto {
          fed := fed + [p];
          HandlerCallbacks();
        }
      }
    }

    // Take the front of the list; give it to MuxData if it may be sent.
    method SendOne()
      requires Ordered() && |subData| > 0 && proto == handled
      modifies vid, `subData, `muxed, `history
      ensures Ordered() && subData == old(subData)[1..]
      ensures history == old(history) + [Taken(old(subData)[0])]
      ensures TakenOf(history) == TakenOf(old(history)) + [old(subData)[0]]
    {
      var m := subData[0];
      subData := subData[1..];
      var canSend := true;
      if m.Video? {
        canSend := vid.VideoCanSend(m.frame.scale, m.frame.key);
      }
      if canSend && proto {
        muxed := muxed + [m];
      }
      StatusStep(history, Taken(m));
      history := history + [Taken(m)];
      assert history[..|history| - 1] == old(history);
    }

    method SendBurst() returns (sent: nat)
      requires Ordered() && proto == handled
      modifies vid, `subData, `muxed, `history
      ensures Ordered() && old(history) <= history
      ensures sent == (if |old(subData)| < SEND_BURST then |old(subData)| else SEND_BURST)
      ensures subData == old(subData)[sent..]
      ensures |TakenOf(history)| == |TakenOf(old(history))| + sent
    {
      sent := 0;
      var left := SEND_BURST;
      while |subData| > 0
        invariant 0 < left && left + sent == SEND_BURST
        invariant Ordered() && old(history) <= history
        invariant sent <= |old(subData)| && subData == old(subData)[sent..]
        invariant |TakenOf(history)| == |TakenOf(old(history))| + sent
        decreases left
      {
        SendOne();
        sent := sent + 1;
        left := left - 1;
        if left <= 0 {
          break;
        }
      }
    }

    // At most SEND_BURST media, and then nothing for SEND_GAP.
    method SendPaced() returns (sent: nat)
      requires Ordered() && Paced() && proto == handled
      modifies clock, vid, `nextSend, `subData, `muxed, `history, `bursts
      ensures Ordered() && Paced()
      ensures old(clock.now) <= clock.now && old(history) <= history && old(bursts) <= bursts
      ensures sent <= |old(subData)| && subData == old(subData)[sent..]
      ensures old(nextSend) > clock.now ==> sent == 0 && nextSend == old(nextSend)
      ensures old(nextSend) <= old(clock.now) ==>
                sent == (if |old(subData)| < 5 then |old(subData)| else 5) && nextSend == clock.now + 10
      ensures nextSend == old(nextSend) || nextSend == clock.now + 10
    {
      sent := 0;
      var t := clock.Read();
      if nextSend <= t {
        var u := clock.Read();
        nextSend := u + SEND_GAP;
        sent := SendBurst();
        bursts := bursts + [Burst(t, sent)];
        assert bursts[..|bursts| - 1] == old(bursts);
      }
    }

    ghost predicate TryIsDue()
      reads `nextTry, clock
    {
      0 != nextTry <= clock.now
    }

    // What a tick does before it looks at the close flags.
    method SetParamsAndRetry()
      requires Valid() && !selfClosed
      modifies clock, vid, `setParams, `puber, `suber, `nextTry, `tries, `refused, `history, `fromProto
      ensures Valid() && !setParams && Later(old(clock.now), old(history), old(tries), old(bursts))
      ensures old(fromProto) ==> fromProto
      ensures fromProto ==> old(fromProto) || old(setParams)
      ensures old(TryIsDue()) ==> |tries| == |old(tries)| + 1
    {
      assert nextTry != 0 ==> puber;
      hide InOrder, RateKept, RetryKept;
      if setParams {
        setParams := false;
        HandlerCallbacks();
      }
      RetryPublish();
    }

    // Of the media that waited before, as many went out as the rate allows: a burst when the gap was
    // over from the start, nothing when it still is not, some of them when it ended in between.
    ghost predicate Sent(waiting: seq<Media>, gap: int, from: int)
      reads `subData, clock
    {
      && |subData| <= |waiting| && subData == waiting[|waiting| - |subData|..]
      && (gap <= from ==> |waiting| - |subData| == if |waiting| < 5 then |waiting| else 5)
      && (gap > clock.now ==> subData == waiting)
    }

    // What a tick does while the peer stays open.
    method Stream()
      requires Valid() && !selfClosed
      modifies clock, vid, `netData, `fed, `puber, `suber, `nextTry, `tries, `refused, `fromProto
      modifies `nextSend, `subData, `muxed, `history, `bursts
      ensures Valid() && clock.now >= old(clock.now)
      ensures old(history) <= history && old(tries) <= tries && old(bursts) <= bursts
      ensures netData == [] && fed == old(fed) + if proto then old(netData) else []
      ensures Sent(old(subData), old(nextSend), old(clock.now))
    {
      hide InOrder, RateKept, RetryKept, TakenOf, Sent;
      DrainNetwork();
      SendRest();
    }

    method SendRest()
      requires Valid() && proto == handled
      modifies clock, vid, `nextSend, `subData, `muxed, `history, `bursts
      ensures Valid() && old(clock.now) <= clock.now && old(history) <= history && old(bursts) <= bursts
      ensures forall from :: from <= old(clock.now) ==> Sent(old(subData), old(nextSend), from)
    {
      hide InOrder, RateKept, RetryKept, TakenOf;
      ghost var waiting := subData;
      var sent := SendPaced();
      assert |waiting| - |subData| == sent;
    }

    method OnX2RtcTick()
      requires Valid()
      modifies this, given, vid, clock
      ensures Valid() && arrived == old(arrived) && clock.now >= old(clock.now)
      ensures old(history) <= history && old(tries) <= tries && old(bursts) <= bursts
      ensures old(selfClosed) ==> selfClosed && muxed == old(muxed) && tries == old(tries) && bursts == old(bursts)
      ensures old(byOther || fromNetwork || fromProto) ==> selfClosed
      ensures selfClosed ==> old(selfClosed || byOther || fromNetwork || fromProto || setParams)
      ensures !old(selfClosed) && old(TryIsDue()) ==> |tries| > |old(tries)|
      ensures !selfClosed ==> netData == [] && fed == old(fed) + if handled then old(netData) else []
      ensures !selfClosed ==> Sent(old(subData), old(nextSend), old(clock.now))
    {
      hide InOrder, RateKept, RetryKept;
      if selfClosed {
        return;
      }
      SetParamsAndRetry();
      if byOther || fromNetwork || fromProto {
        CloseSelf();
      } else {
        Stream();
      }
    }

    // ---- What Valid means for a whole run, since every method keeps it.

    // No more than 5 * (d / 10 + 1) media are taken in any window of d milliseconds.
    lemma RateIsBounded(from: int, upto: int)
      requires Valid() && from <= upto
      ensures InWindow(bursts, from, upto) <= 5 * ((upto - from) / 10 + 1)
      ensures InWindow(tries, from, upto) <= (upto - from) / 100 + 1
    {
      RateBound(10, 5, bursts, from, upto, (upto - from) / 10 + 1);
      RateBound(100, 1, tries, from, upto, (upto - from) / 100 + 1);
    }

    // The handler gets media in the order they arrived, no audio is dropped, and what is still
    // waiting is the rest of what arrived.
    lemma OrderIsKept()
      requires Valid() && handled
      ensures arrived == TakenOf(history) + subData
      ensures muxed == Muxed(history) && AudioOf(muxed) == AudioOf(TakenOf(history))
      ensures Subsequence(muxed, TakenOf(history))
    {
      AudioIsKept(history);
      MuxedInOrder(history);
    }

    // The video handed to MuxData changes its scale on key frames only, whatever was on screen before
    // and whatever frames come next, exactly when every request was harmless when it came.
    lemma VideoIsSmooth(shown: int)
      requires Valid() && handled
      ensures var h := Switching(history);
              && FramesOf(muxed) == SentIn(INITIAL, h)
              && (PoliteRun(shown, INITIAL, h) ==> Smooth(shown, FramesOf(muxed)))
              && (PoliteRun(shown, INITIAL, h)
                  <==> forall i, frames :: 0 <= i <= |h| ==> Smooth(shown, SentThen(INITIAL, h, i, frames)))
    {
      MuxedIsSent(history);
      SmoothIffPolite(shown, INITIAL, Switching(history));
      if PoliteRun(shown, INITIAL, Switching(history)) {
        PoliteRunIsSmooth(shown, INITIAL, Switching(history));
      }
    }

    // Which video of a run MuxData gets, told by the run's frames and requests alone.
    lemma VideoIsSeen()
      requires Valid() && handled
      ensures FramesOf(muxed) == Seen(Switching(history))
    {
      MuxedIsSent(history);
      SentIsSeen(Switching(history));
    }

    // Video is never off: whatever was asked, the next key frame of the requested scale is sent.
    lemma VideoStaysOn(id: int)
      requires Valid()
      ensures Sends(vid.State(), Media.Video(id, Frame(vid.req, true)))
    {
      TurningVideoOff(INITIAL, Switching(history));
    }
  }

  // The video given to MuxData is what the switch lets through of its share of the history.
  lemma {:induction false} MuxedIsSent(h: seq<Event>)
    ensures FramesOf(Muxed(h)) == SentIn(INITIAL, Switching(h))
  {
    if h != [] {
      var rest, e := h[..|h| - 1], h[|h| - 1];
      MuxedIsSent(rest);
      match e
      case Taken(m) =>
        assert (Muxed(rest) + [m])[..|Muxed(rest)|] == Muxed(rest);
        if m.Video? {
          StatusSnoc(INITIAL, Switching(rest), VideoSwitch.Video(m.frame));
        }
      case Told(c) => StatusSnoc(INITIAL, Switching(rest), Asked(c));
    }
  }

  predicate Subsequence(a: seq<Media>, b: seq<Media>) {
    a == [] || (b != [] &&
      if a[|a| - 1] == b[|b| - 1] then Subsequence(a[..|a| - 1], b[..|b| - 1])
      else Subsequence(a, b[..|b| - 1]))
  }

  lemma {:induction false} AudioIsKept(h: seq<Event>)
    ensures AudioOf(Muxed(h)) == AudioOf(TakenOf(h))
  {
    if h != [] {
      var rest := h[..|h| - 1];
      AudioIsKept(rest);
      match h[|h| - 1]
      case Taken(m) =>
        assert (Muxed(rest) + [m])[..|Muxed(rest)|] == Muxed(rest);
        assert (TakenOf(rest) + [m])[..|TakenOf(rest)|] == TakenOf(rest);
      case _ =>
    }
  }

  lemma {:induction false} MuxedInOrder(h: seq<Event>)
    ensures Subsequence(Muxed(h), TakenOf(h))
  {
    if h != [] {
      var rest := h[..|h| - 1];
      MuxedInOrder(rest);
      match h[|h| - 1]
      case Taken(m) =>
        var a, b := Muxed(rest), TakenOf(rest);
        assert (a + [m])[..|a|] == a && (b + [m])[..|b|] == b;
        if !Sends(StatusAfter(rest), m) {
          SubsequenceWider(a, b, m);
        }
      case _ =>
    }
  }

  lemma {:induction false} SubsequenceWider(a: seq<Media>, b: seq<Media>, m: Media)
    requires Subsequence(a, b)
    ensures Subsequence(a, b + [m])
    decreases |b|, 1
  {
    assert (b + [m])[..|b|] == b;
    if a != [] && a[|a| - 1] == m {
      ShorterSubsequence(a, b);
    }
  }

  lemma {:induction false} ShorterSubsequence(a: seq<Media>, b: seq<Media>)
    requires a != [] && Subsequence(a, b)
    ensures Subsequence(a[..|a| - 1], b)
    decreases |b|, 0
  {
    var front := b[..|b| - 1];
    assert front + [b[|b| - 1]] == b;
    if a[|a| - 1] == b[|b| - 1] {
      SubsequenceWider(a[..|a| - 1], front, b[|b| - 1]);
    } else {
      ShorterSubsequence(a, front);
      SubsequenceWider(a[..|a| - 1], front, b[|b| - 1]);
    }
  }
}
