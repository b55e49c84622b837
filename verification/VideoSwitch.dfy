// Which video frames a subscriber is sent while it moves between simulcast scales.
module VideoSwitch {
  import opened Sequences

  datatype Frame = Frame(scale: int, key: bool)

  // What a subscriber can change: SetRecvVideoScaleRD, the scale of a play request, SetRecvStatus.
  datatype Control = Ask(scale: int) | Play(scale: int) | Recv(audio: bool, video: bool)

  datatype Status = Status(
    recvAudio: bool,     // b_remote_recv_audio_
    recvVideo: bool,     // b_remote_recv_video_
    need: bool,          // b_need_switch_stream_
    curSub: bool,        // b_cur_sub_stream_
    mainKey: bool,       // b_tmp_need_main_keyframe_
    subKey: bool,        // b_tmp_need_sub_keyframe_
    last: int,           // n_last_scale_rd_ok_
    req: int)            // n_req_scale_rd_
  {
    // Frames of the requested scale are held back until a key frame of that scale.
    predicate Waiting() {
      need || if req == last then mainKey else subKey
    }

    predicate Accepts(f: Frame) {
      recvVideo && if f.scale == req then f.key || !Waiting() else f.scale == last && need
    }

    function After(f: Frame): Status {
      if !recvVideo || f.scale != req then this
      else
        var t := this.(curSub := req != last);
        if need && !f.key then t
        else if req == last then t.(need := false, mainKey := mainKey && !f.key)
        else if subKey && f.key then t.(need := false, subKey := false, mainKey := false, last := req)
        else t.(need := false)
    }

    function Request(scale: int): Status {
      if req == scale then this else this.(req := scale, need := true)
    }

    function SetRecv(audio: bool, video: bool): Status {
      var t := this.(recvAudio := audio);
      if !recvVideo && video then t.(mainKey := true, subKey := true) else t
    }

    function Do(c: Control): Status {
      match c
      case Ask(scale) => Request(scale)
      case Play(scale) => if 0 < scale < 5 then this.(req := scale, need := true) else this
      case Recv(audio, video) => SetRecv(audio, video)
    }
  }

  const INITIAL := Status(true, true, false, false, true, true, 1, 1)

  class VideoRecvStatus {
    var recvAudio: bool
    var recvVideo: bool
    var need: bool
    var curSub: bool
    var mainKey: bool
    var subKey: bool
    var last: int
    var req: int

    ghost function State(): Status
      reads this
    {
      Status(recvAudio, recvVideo, need, curSub, mainKey, subKey, last, req)
    }

    constructor ()
      ensures State() == INITIAL
    {
      recvAudio, recvVideo, need, curSub, mainKey, subKey := true, true, false, false, true, true;
      last, req := 1, 1;
    }

    method SetRecvVideoScaleRD(scale: int)
      modifies this
      ensures State() == old(State()).Request(scale)
    {
      if req != scale {
        req := scale;
        need := true;
      }
    }

    method SetRecvStatus(audio: bool, video: bool)
      modifies this
      ensures State() == old(State()).SetRecv(audio, video)
    {
      if recvAudio != audio {
        recvAudio := audio;
      }
      if recvVideo != video {
        if video {
          mainKey := true;
          subKey := true;
        }
      }
    }

    method VideoCanSend(scale: int, key: bool) returns (ok: bool)
      modifies this
      ensures ok == old(State()).Accepts(Frame(scale, key))
      ensures State() == old(State()).After(Frame(scale, key))
    {
      if !recvVideo {
        return false;
      }
      if scale == last {
        if req == last {
          curSub := false;
        }
        if req == last {
          if need && !key {
            return false;
          } else {
            need := false;
          }
          if mainKey {
            if !key {
              return false;
            }
            mainKey := false;
            last := scale;
          }
          return true;
        } else {
          if need {
            return true;
          }
        }
      } else {
        if scale != req {
          return false;
        }
        if req != last {
          curSub := true;
        }
        if req != last {
          if need && !key {
            return false;
          } else {
            need := false;
          }
          if subKey {
            if !key {
              return false;
            }
            subKey := false;
            last := scale;
            mainKey := false;
          }
          return true;
        } else {
          assert false;    // the source's branch for a pending switch back is never reached
        }
      }
      return false;
    }
  }

  // The frames let through in a run without new requests.
  function Accepted(s: Status, frames: seq<Frame>): seq<Frame>
    decreases |frames|
  {
    if frames == [] then []
    else (if s.Accepts(frames[0]) then [frames[0]] else []) + Accepted(s.After(frames[0]), frames[1..])
  }

  function OfScale(frames: seq<Frame>, scale: int): seq<Frame> {
    if frames == [] then []
    else (if frames[0].scale == scale then [frames[0]] else []) + OfScale(frames[1..], scale)
  }

  // Where the first key frame of a scale is, or the length if there is none.
  function FirstKey(frames: seq<Frame>, scale: int): (i: nat)
    ensures i <= |frames|
    ensures i < |frames| ==> frames[i] == Frame(scale, true)
    ensures forall k :: 0 <= k < i ==> frames[k] != Frame(scale, true)
  {
    if frames == [] || frames[0] == Frame(scale, true) then 0 else 1 + FirstKey(frames[1..], scale)
  }

  lemma {:induction false} OpenGate(s: Status, frames: seq<Frame>)
    requires s.recvVideo && !s.Waiting()
    ensures Accepted(s, frames) == OfScale(frames, s.req)
    decreases |frames|
  {
    if frames != [] {
      OpenGate(s.After(frames[0]), frames[1..]);
    }
  }

  lemma NotYet(s: Status, f: Frame)
    requires s.recvVideo && s.Waiting() && f != Frame(s.req, true)
    ensures var t := s.After(f);
            t.recvVideo && t.Waiting() && t.need == s.need && t.last == s.last && t.req == s.req
    ensures s.Accepts(f) == (s.need && s.req != s.last && f.scale == s.last)
  {
  }

  // Exactly the old scale up to i, if a switch is pending, and exactly the requested scale from i on.
  function Split(s: Status, frames: seq<Frame>, i: nat): seq<Frame>
    requires i <= |frames|
  {
    (if s.need && s.req != s.last then OfScale(frames[..i], s.last) else []) + OfScale(frames[i..], s.req)
  }

  // MAIN: any status, any frames. Before the switch point, the first key frame of the requested
  // scale if one is awaited, exactly the old scale's frames pass, and only if a switch is pending;
  // from it on, exactly the requested scale's. The run never goes back and nothing else is dropped.
  lemma SwitchIsSeamless(s: Status, frames: seq<Frame>)
    requires s.recvVideo
    ensures Accepted(s, frames) == Split(s, frames, if s.Waiting() then FirstKey(frames, s.req) else 0)
  {
    if s.Waiting() {
      BeforeSwitch(s, frames);
    } else {
      OpenGate(s, frames);
      assert frames[0..] == frames && frames[..0] == [];
    }
  }

  lemma KeyArrives(s: Status, f: Frame)
    requires s.recvVideo && f == Frame(s.req, true)
    ensures var t := s.After(f);
            s.Accepts(f) && t.recvVideo && !t.Waiting() && t.req == s.req
  {
  }

  lemma {:induction false} BeforeSwitch(s: Status, frames: seq<Frame>)
    requires s.recvVideo && s.Waiting()
    ensures Accepted(s, frames) == Split(s, frames, FirstKey(frames, s.req))
    decreases |frames|
  {
    hide Accepted, OfScale, Split, Status.Accepts, Status.After, Status.Waiting;
    if frames == [] {
      NoFrames(s, frames);
    } else if frames[0] == Frame(s.req, true) {
      SwitchNow(s, frames);
    } else {
      NotYet(s, frames[0]);
      BeforeSwitch(s.After(frames[0]), frames[1..]);
      SwitchLater(s, frames, FirstKey(frames, s.req));
    }
  }

  lemma NoFrames(s: Status, frames: seq<Frame>)
    requires frames == []
    ensures Accepted(s, frames) == Split(s, frames, 0)
  {
  }

  lemma SwitchNow(s: Status, frames: seq<Frame>)
    requires s.recvVideo && s.Waiting() && frames != [] && frames[0] == Frame(s.req, true)
    ensures Accepted(s, frames) == Split(s, frames, 0)
  {
    hide Accepted, OfScale, Status.Accepts, Status.After, Status.Waiting;
    AcceptedStep(s, frames);
    KeyArrives(s, frames[0]);
    OpenGate(s.After(frames[0]), frames[1..]);
    OfScaleStep(frames, s.req);
    assert frames[0..] == frames && frames[..0] == [];
    OfScaleNone(s.last);
  }

  lemma SwitchLater(s: Status, frames: seq<Frame>, i: nat)
    requires s.recvVideo && s.Waiting() && 0 < i <= |frames| && frames[0] != Frame(s.req, true)
    requires Accepted(s.After(frames[0]), frames[1..]) == Split(s.After(frames[0]), frames[1..], i - 1)
    ensures Accepted(s, frames) == Split(s, frames, i)
  {
    hide Accepted, OfScale, Status.Accepts, Status.After, Status.Waiting;
    var f, later := frames[0], frames[1..];
    AcceptedStep(s, frames);
    NotYet(s, f);
    assert later[i - 1..] == frames[i..];
    assert frames[..i][1..] == later[..i - 1];
    OfScaleStep(frames[..i], s.last);
    ConsAppend(f, OfScale(later[..i - 1], s.last), OfScale(frames[i..], s.req));
  }

  lemma OfScaleNone(scale: int)
    ensures OfScale([], scale) == []
  {
  }

  lemma AcceptedStep(s: Status, frames: seq<Frame>)
    requires frames != []
    ensures var rest := Accepted(s.After(frames[0]), frames[1..]);
            Accepted(s, frames) == if s.Accepts(frames[0]) then [frames[0]] + rest else rest
  {
  }

  lemma OfScaleStep(frames: seq<Frame>, scale: int)
    requires frames != []
    ensures OfScale(frames, scale)
            == if frames[0].scale == scale then [frames[0]] + OfScale(frames[1..], scale)
               else OfScale(frames[1..], scale)
  {
  }

  // ---- What a decoder needs: the scale may change on key frames only.

  // What is on the screen after `sent`, if it was `shown` before.
  function Shown(shown: int, sent: seq<Frame>): int {
    if sent == [] then shown else sent[|sent| - 1].scale
  }

  predicate Smooth(shown: int, sent: seq<Frame>) {
    forall i :: 0 <= i < |sent| ==> sent[i].key || sent[i].scale == Shown(shown, sent[..i])
  }

  lemma SmoothAppend(shown: int, a: seq<Frame>, b: seq<Frame>)
    ensures Smooth(shown, a + b) <==> Smooth(shown, a) && Smooth(Shown(shown, a), b)
    ensures Shown(shown, a + b) == Shown(Shown(shown, a), b)
  {
    var ab := a + b;
    assert forall i :: 0 <= i < |a| ==> ab[..i] == a[..i] && ab[i] == a[i];
    assert forall i :: 0 <= i < |b| ==> Shown(shown, ab[..|a| + i]) == Shown(Shown(shown, a), b[..i]);
    if Smooth(shown, ab) {
      forall i | 0 <= i < |b| ensures b[i].key || b[i].scale == Shown(Shown(shown, a), b[..i]) {
        assert ab[|a| + i] == b[i];
      }
    }
  }

  predicate Safe(shown: int, s: Status) {
    s.recvVideo ==> (s.need && s.req != s.last ==> s.last == shown) && (!s.Waiting() ==> s.req == shown)
  }

  lemma {:induction false} SafeIsSmooth(shown: int, s: Status, frames: seq<Frame>)
    requires Safe(shown, s)
    ensures Smooth(shown, Accepted(s, frames))
    decreases |frames|
  {
    if frames != [] {
      var f := frames[0];
      var rest := Accepted(s.After(f), frames[1..]);
      if s.Accepts(f) {
        SafeIsSmooth(f.scale, s.After(f), frames[1..]);
        SmoothAppend(shown, [f], rest);
      } else {
        SafeIsSmooth(shown, s.After(f), frames[1..]);
        assert [] + rest == rest;
      }
    }
  }

  lemma OneAccepted(s: Status, f: Frame)
    requires s.Accepts(f)
    ensures Accepted(s, [f]) == [f]
  {
  }

  // No frame sequence can break the decoder exactly when the status is safe for what it shows.
  lemma SmoothIffSafe(shown: int, s: Status)
    ensures (forall frames :: Smooth(shown, Accepted(s, frames))) <==> Safe(shown, s)
  {
    if Safe(shown, s) {
      forall frames ensures Smooth(shown, Accepted(s, frames)) {
        SafeIsSmooth(shown, s, frames);
      }
    } else {
      var f := Frame(if !s.Waiting() && s.req != shown then s.req else s.last, false);
      OneAccepted(s, f);
      assert !Smooth(shown, Accepted(s, [f]));
    }
  }

  // When a control leaves the stream decodable. SetRecvVideoScaleRD ignores a scale that is already
  // requested; a play request makes the switch pending again.
  predicate Harmless(shown: int, s: Status, c: Control) {
    match c
    case Ask(scale) => !s.recvVideo || scale == s.req || scale == s.last || s.last == shown
    case Play(scale) => !(0 < scale < 5) || !s.recvVideo || scale == s.last || s.last == shown
    case Recv(_, _) => true
  }

  // A control keeps every continuation decodable exactly when it is harmless: it changes nothing, it
  // names the scale recorded in n_last_scale_rd_ok_, or that scale is the one on screen.
  lemma RequestSafety(shown: int, s: Status, c: Control)
    requires Safe(shown, s)
    ensures (forall frames :: Smooth(shown, Accepted(s.Do(c), frames))) <==> Harmless(shown, s, c)
  {
    SmoothIffSafe(shown, s.Do(c));
  }

  // ---- Whole runs of frames and controls.

  datatype Event = Video(f: Frame) | Asked(c: Control)

  function Next(s: Status, e: Event): Status {
    match e
    case Video(f) => s.After(f)
    case Asked(c) => s.Do(c)
  }

  function StatusIn(s: Status, h: seq<Event>): Status {
    if h == [] then s else Next(StatusIn(s, h[..|h| - 1]), h[|h| - 1])
  }

  function SentIn(s: Status, h: seq<Event>): seq<Frame> {
    if h == [] then []
    else
      var rest, e := h[..|h| - 1], h[|h| - 1];
      if e.Video? && StatusIn(s, rest).Accepts(e.f) then SentIn(s, rest) + [e.f] else SentIn(s, rest)
  }

  // ---- The same run told from its events alone, for a peer from its start.

  // The scale last asked for.
  function Requested(h: seq<Event>): int {
    if h == [] then 1
    else
      match h[|h| - 1]
      case Asked(Ask(scale)) => scale
      case Asked(Play(scale)) => if scale in {1, 2, 3, 4} then scale else Requested(h[..|h| - 1])
      case _ => Requested(h[..|h| - 1])
  }

  // A key frame of the requested scale has just arrived.
  predicate KeyOfRequested(h: seq<Event>) {
    h != [] && h[|h| - 1] == Video(Frame(Requested(h[..|h| - 1]), true))
  }

  // 1 until the first key frame of a requested scale other than 1, and that scale for ever after.
  function Recorded(h: seq<Event>): int {
    if h == [] then 1
    else
      var rest := h[..|h| - 1];
      if Recorded(rest) == 1 && KeyOfRequested(h) then Requested(rest) else Recorded(rest)
  }

  // A switch was asked for, and no key frame of the requested scale has arrived since.
  predicate Pending(h: seq<Event>) {
    h != [] && !KeyOfRequested(h) && (
      var rest := h[..|h| - 1];
      match h[|h| - 1]
      case Asked(Ask(scale)) => Pending(rest) || scale != Requested(rest)
      case Asked(Play(scale)) => Pending(rest) || scale in {1, 2, 3, 4}
      case _ => Pending(rest))
  }

  // No key frame of a requested scale has arrived at all.
  predicate Unkeyed(h: seq<Event>) {
    h == [] || (!KeyOfRequested(h) && Unkeyed(h[..|h| - 1]))
  }

  // The last frame of the requested scale found another scale recorded.
  predicate OnSub(h: seq<Event>) {
    h != [] && (
      var rest, e := h[..|h| - 1], h[|h| - 1];
      if e.Video? && e.f.scale == Requested(rest) then Requested(rest) != Recorded(rest) else OnSub(rest))
  }

  predicate AudioAsked(h: seq<Event>) {
    h == [] || (
      match h[|h| - 1]
      case Asked(Recv(audio, _)) => audio
      case _ => AudioAsked(h[..|h| - 1]))
  }

  // The status as the events tell it, and how its parts hang together.
  ghost predicate Told(h: seq<Event>, s: Status) {
    && s == Status(AudioAsked(h), true, Pending(h), OnSub(h), Unkeyed(h), Recorded(h) == 1, Recorded(h), Requested(h))
    && (Recorded(h) == 1 && Requested(h) != 1 ==> Pending(h))
    && (Recorded(h) != 1 ==> !Unkeyed(h))
  }

  // MAIN: what every field of the status is after any run.
  lemma {:induction false} StatusIsHistory(h: seq<Event>)
    ensures Told(h, StatusIn(INITIAL, h))
  {
    if h != [] {
      var rest, e := h[..|h| - 1], h[|h| - 1];
      StatusIsHistory(rest);
      match e
      case Video(f) => FrameIsHistory(rest, f);
      case Asked(c) => ControlIsHistory(rest, c);
      assert h == rest + [e];
    }
  }

  lemma FrameIsHistory(rest: seq<Event>, f: Frame)
    requires Told(rest, StatusIn(INITIAL, rest))
    ensures Told(rest + [Video(f)], StatusIn(INITIAL, rest).After(f))
  {
    assert (rest + [Video(f)])[..|rest|] == rest;
  }

  lemma ControlIsHistory(rest: seq<Event>, c: Control)
    requires Told(rest, StatusIn(INITIAL, rest))
    ensures Told(rest + [Asked(c)], StatusIn(INITIAL, rest).Do(c))
  {
    assert (rest + [Asked(c)])[..|rest|] == rest;
  }

  // Which frame passes next: of the requested scale a key frame, and any once a key frame has opened
  // the switch; of the recorded scale any while a switch to another is pending.
  predicate Passes(h: seq<Event>, f: Frame) {
    if f.scale == Requested(h) then f.key || !(Pending(h) || Unkeyed(h)) else f.scale == Recorded(h) && Pending(h)
  }

  function Seen(h: seq<Event>): seq<Frame> {
    if h == [] then []
    else
      var rest, e := h[..|h| - 1], h[|h| - 1];
      if e.Video? && Passes(rest, e.f) then Seen(rest) + [e.f] else Seen(rest)
  }

  // MAIN: over any run from the start, the frames let through are told by the events alone.
  lemma {:induction false} SentIsSeen(h: seq<Event>)
    ensures SentIn(INITIAL, h) == Seen(h)
    ensures forall f :: StatusIn(INITIAL, h).Accepts(f) <==> Passes(h, f)
  {
    StatusIsHistory(h);
    if h != [] {
      SentIsSeen(h[..|h| - 1]);
    }
  }

  // Every control of the run is harmless when it comes.
  predicate PoliteRun(shown: int, s: Status, h: seq<Event>) {
    h == [] || (
      var rest, e := h[..|h| - 1], h[|h| - 1];
      && PoliteRun(shown, s, rest)
      && (e.Asked? ==> Harmless(Shown(shown, SentIn(s, rest)), StatusIn(s, rest), e.c)))
  }

  lemma {:induction false} PoliteRunIsSmooth(shown: int, s: Status, h: seq<Event>)
    requires Safe(shown, s) && PoliteRun(shown, s, h)
    ensures Smooth(shown, SentIn(s, h)) && Safe(Shown(shown, SentIn(s, h)), StatusIn(s, h))
  {
    hide Safe, Harmless, Next, Status.Accepts, Smooth;
    if h == [] {
      NothingSmooth(shown);
    } else {
      var rest, e := h[..|h| - 1], h[|h| - 1];
      PoliteRunIsSmooth(shown, s, rest);
      var sent, t := SentIn(s, rest), StatusIn(s, rest);
      PoliteStep(Shown(shown, sent), t, e);
      if e.Video? && t.Accepts(e.f) {
        SmoothAppend(shown, sent, [e.f]);
      }
    }
  }

  lemma NothingSmooth(shown: int)
    ensures Smooth(shown, [])
  {
  }

  // A frame, or a harmless control, keeps a safe status safe for what is then shown.
  lemma PoliteStep(shown: int, s: Status, e: Event)
    requires Safe(shown, s) && (e.Asked? ==> Harmless(shown, s, e.c))
    ensures e.Video? && s.Accepts(e.f) ==> Smooth(shown, [e.f])
    ensures Safe(if e.Video? && s.Accepts(e.f) then e.f.scale else shown, Next(s, e))
  {
  }

  // What the subscriber sees of h if only frames follow its first i events.
  function SentThen(s: Status, h: seq<Event>, i: nat, frames: seq<Frame>): seq<Frame>
    requires i <= |h|
  {
    SentIn(s, h[..i]) + Accepted(StatusIn(s, h[..i]), frames)
  }

  // MAIN: over any run of frames, scale requests, play requests and status changes, the scale changes
  // on key frames only, then and whatever frames follow any moment of it, exactly when every control
  // of the run was harmless when it came.
  lemma {:induction false} SmoothIffPolite(shown: int, s: Status, h: seq<Event>)
    requires Safe(shown, s)
    ensures PoliteRun(shown, s, h)
            <==> forall i, frames :: 0 <= i <= |h| ==> Smooth(shown, SentThen(s, h, i, frames))
  {
    if PoliteRun(shown, s, h) {
      forall i, frames | 0 <= i <= |h| ensures Smooth(shown, SentThen(s, h, i, frames)) {
        PrefixIsPolite(shown, s, h, i);
        PoliteRunIsSmooth(shown, s, h[..i]);
        SafeIsSmooth(Shown(shown, SentIn(s, h[..i])), StatusIn(s, h[..i]), frames);
        SmoothAppend(shown, SentIn(s, h[..i]), Accepted(StatusIn(s, h[..i]), frames));
      }
    } else {
      var i, frames := Spoiled(shown, s, h);
      assert !Smooth(shown, SentThen(s, h, i, frames));
    }
  }

  lemma {:induction false} PrefixIsPolite(shown: int, s: Status, h: seq<Event>, i: nat)
    requires i <= |h| && PoliteRun(shown, s, h)
    ensures PoliteRun(shown, s, h[..i])
  {
    if i < |h| {
      PrefixIsPolite(shown, s, h[..|h| - 1], i);
      assert h[..|h| - 1][..i] == h[..i];
    } else {
      assert h[..i] == h;
    }
  }

  // Frames that spoil a run which is not polite, right behind its first harmful control.
  lemma {:induction false} Spoiled(shown: int, s: Status, h: seq<Event>) returns (i: nat, frames: seq<Frame>)
    requires Safe(shown, s) && !PoliteRun(shown, s, h)
    ensures i <= |h| && !Smooth(shown, SentThen(s, h, i, frames))
  {
    var rest, e := h[..|h| - 1], h[|h| - 1];
    if PoliteRun(shown, s, rest) {
      PoliteRunIsSmooth(shown, s, rest);
      var sent, t := SentIn(s, rest), StatusIn(s, rest);
      RequestSafety(Shown(shown, sent), t, e.c);
      i := |h|;
      frames :| !Smooth(Shown(shown, sent), Accepted(t.Do(e.c), frames));
      SmoothAppend(shown, sent, Accepted(t.Do(e.c), frames));
      assert h[..i] == h;
    } else {
      i, frames := Spoiled(shown, s, rest);
      assert rest[..i] == h[..i];
    }
  }

  lemma NoEvents(s: Status, none: seq<Event>)
    requires none == []
    ensures StatusIn(s, none) == s && SentIn(s, none) == []
  {
  }

  lemma StatusSnoc(s: Status, h: seq<Event>, e: Event)
    ensures StatusIn(s, h + [e]) == Next(StatusIn(s, h), e)
    ensures SentIn(s, h + [e])
            == if e.Video? && StatusIn(s, h).Accepts(e.f) then SentIn(s, h) + [e.f] else SentIn(s, h)
  {
    assert (h + [e])[..|h|] == h;
  }

  predicate Spoils(third: Control) {
    match third
    case Ask(scale) => scale != 1 && scale != 2
    case Play(scale) => scale in {1, 3, 4}
    case Recv(_, _) => false
  }

  const BACK_TO_ONE: seq<Event> := [Asked(Play(2)), Video(Frame(2, true)), Asked(Play(1)), Video(Frame(1, true))]

  // A fresh peer that plays scale 2 and goes back to 1 shows 1, but its status still records 2.
  lemma BackToOne()
    ensures SentIn(INITIAL, BACK_TO_ONE) == [Frame(2, true), Frame(1, true)]
    ensures StatusIn(INITIAL, BACK_TO_ONE) == Status(true, true, false, true, false, false, 2, 1)
  {
    hide StatusIn, SentIn;
    var none: seq<Event> := [];
    NoEvents(INITIAL, none);
    var h1 := none + [Asked(Play(2))];
    var h2 := h1 + [Video(Frame(2, true))];
    var h3 := h2 + [Asked(Play(1))];
    StatusSnoc(INITIAL, none, Asked(Play(2)));
    StatusSnoc(INITIAL, h1, Video(Frame(2, true)));
    StatusSnoc(INITIAL, h2, Asked(Play(1)));
    StatusSnoc(INITIAL, h3, Video(Frame(1, true)));
    assert BACK_TO_ONE == h3 + [Video(Frame(1, true))];
  }

  // Which third request then lets a delta frame of scale 2 into the middle of scale 1: even playing
  // scale 1 again does.
  lemma ThirdSwitchGlitch(third: Control, shown: int)
    ensures !Smooth(shown, SentIn(INITIAL, BACK_TO_ONE + [Asked(third), Video(Frame(2, false))])) <==> Spoils(third)
  {
    hide StatusIn, SentIn;
    var k2, k1, d2 := Frame(2, true), Frame(1, true), Frame(2, false);
    BackToOne();
    StatusSnoc(INITIAL, BACK_TO_ONE, Asked(third));
    StatusSnoc(INITIAL, BACK_TO_ONE + [Asked(third)], Video(d2));
    assert BACK_TO_ONE + [Asked(third)] + [Video(d2)] == BACK_TO_ONE + [Asked(third), Video(d2)];
    assert [k2, k1][..1] == [k2];
    SmoothAppend(shown, [k2, k1], [d2]);
  }

  // No run of controls and frames changes the flag VideoCanSend tests: a video that was on cannot be
  // turned off by SetRecvStatus, nor can one that was off be turned on. A peer starts with it on.
  lemma {:induction false} TurningVideoOff(s: Status, h: seq<Event>)
    ensures StatusIn(s, h).recvVideo == s.recvVideo && INITIAL.recvVideo
    ensures (forall f :: !StatusIn(s, h).Accepts(f)) <==> !s.recvVideo
  {
    hide Status.Accepts, Next;
    var t := StatusIn(s, h);
    if h != [] {
      TurningVideoOff(s, h[..|h| - 1]);
      FlagKept(StatusIn(s, h[..|h| - 1]), h[|h| - 1]);
    }
    AcceptsSome(t);
  }

  lemma FlagKept(s: Status, e: Event)
    ensures Next(s, e).recvVideo == s.recvVideo
  {
  }

  lemma AcceptsSome(t: Status)
    ensures (exists f :: t.Accepts(f)) <==> t.recvVideo
  {
    assert t.recvVideo ==> t.Accepts(Frame(t.req, true));
  }
}
