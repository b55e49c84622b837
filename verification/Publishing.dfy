// Publishing across peers: who is registered in X2MediaDispatch, who waits for its next try, who was
// told to make room. Peers act one at a time, on the main thread; each function is one such action.
module Publishing {

  type PeerId = nat
  type Key = string      // application and stream

  // A peer that has never published has no puber; its first publish request creates one, which lives
  // until the peer closes. After that the peer has no handler left to ask for anything.
  datatype Phase = Idle | Publishing | Closed

  // One X2NetPeer as far as publishing goes. `told` is b_notify_close_by_other_, `waiting` a
  // non-zero n_next_try_publish_time_.
  datatype Peer = Peer(key: Key, phase: Phase, waiting: bool, told: bool)

  // `touched`: the dispatcher has called through a pointer to a puber that was deleted.
  datatype Hub = Hub(peers: map<PeerId, Peer>, registry: map<Key, PeerId>, touched: bool)
  {
    function With(p: PeerId, peer: Peer): Hub { this.(peers := peers[p := peer]) }

    predicate HasPuber(p: PeerId) { p in peers && peers[p].phase.Publishing? }

    // The key is filed under a puber that is gone.
    predicate Dead(key: Key) { key in registry && !HasPuber(registry[key]) }

    // X2MediaDispatch::TryPublish: a holder of the key is told to close, otherwise p takes it.
    function TryPublish(p: PeerId): Hub
      requires p in peers
    {
      var key := peers[p].key;
      if key in registry then
        var told := if HasPuber(registry[key]) then With(registry[key], peers[registry[key]].(told := true))
                    else this.(touched := true);
        told.With(p, told.peers[p].(waiting := true))
      else With(p, peers[p].(waiting := false)).(registry := registry[key := p])
    }

    // OnX2ProtoHandlerPublish: the name is stored on every call, the puber is created by the first.
    function Publish(p: PeerId, key: Key): Hub
      requires p in peers
    {
      match peers[p].phase
      case Idle => With(p, peers[p].(key := key, phase := Publishing)).TryPublish(p)
      case Publishing => With(p, peers[p].(key := key))
      case Closed => this
    }

    // OnX2ProtoHandlerPlay stores the name as well.
    function Play(p: PeerId, key: Key): Hub
      requires p in peers
    {
      if peers[p].phase.Closed? then this else With(p, peers[p].(key := key))
    }

    // The retry of a tick.
    function Retry(p: PeerId): Hub
      requires p in peers
    {
      if peers[p].waiting && HasPuber(p) then TryPublish(p) else this
    }

    // X2MediaDispatch::UnPublish: the entry goes, and the puber it points to is called.
    function UnPublish(key: Key): Hub {
      this.(registry := registry - {key}, touched := touched || Dead(key))
    }

    // The close of a tick: UnPublish by name, then the puber is deleted.
    function Close(p: PeerId): Hub
      requires p in peers
    {
      (if HasPuber(p) then UnPublish(peers[p].key) else this).With(p, peers[p].(phase := Closed))
    }

    // Every registration belongs to a puber that exists.
    ghost predicate NoneDangling() {
      forall k :: k in registry ==> HasPuber(registry[k])
    }

    // ... and is filed under the name its peer will unpublish.
    ghost predicate Named() {
      forall k :: k in registry ==> HasPuber(registry[k]) && peers[registry[k]].key == k
    }

    // A puber that neither waits nor was told to close can be found by subscribers.
    ghost predicate Published() {
      forall p :: p in peers && HasPuber(p) && !peers[p].waiting && !peers[p].told ==>
        peers[p].key in registry && registry[peers[p].key] == p
    }

    predicate Registered(p: PeerId, key: Key) { key in registry && registry[key] == p }
  }

  datatype Action = Publish(p: PeerId, key: Key) | Play(p: PeerId, key: Key) | Retry(p: PeerId) | Close(p: PeerId)

  function Act(h: Hub, a: Action): (t: Hub)
    requires a.p in h.peers
    ensures t.peers.Keys == h.peers.Keys
  {
    match a
    case Publish(p, key) => h.Publish(p, key)
    case Play(p, key) => h.Play(p, key)
    case Retry(p) => h.Retry(p)
    case Close(p) => h.Close(p)
  }

  // A peer keeps its name while it is registered.
  predicate KeepsName(h: Hub, a: Action)
    requires a.p in h.peers
  {
    match a
    case Publish(p, key) => h.Registered(p, h.peers[p].key) ==> key == h.peers[p].key
    case Play(p, key) => h.Registered(p, h.peers[p].key) ==> key == h.peers[p].key
    case _ => true
  }

  // A peer that is publishing, neither waiting nor told to make room, keeps its name.
  predicate KeepsLive(h: Hub, a: Action)
    requires a.p in h.peers
  {
    var p := h.peers[a.p];
    (a.Publish? || a.Play?) && p.phase.Publishing? && !p.waiting && !p.told ==> a.key == p.key
  }

  // Nobody closes under a name that a third peer holds undisturbed.
  predicate ClosesOwn(h: Hub, a: Action)
    requires a.p in h.peers
  {
    a.Close? && h.HasPuber(a.p) && h.peers[a.p].key in h.registry ==>
      var q := h.registry[h.peers[a.p].key];
      q == a.p || (q in h.peers && (h.peers[q].waiting || h.peers[q].told))
  }

  // What a try under `key` by p leaves of h: a free name is p's, and p waits no more; the holder of any
  // other is told to make room if its puber lives, and p waits. Nobody else is touched.
  ghost predicate Tried(h: Hub, p: PeerId, key: Key, t: Hub) {
    && t.peers.Keys == h.peers.Keys && p in t.peers
    && t.peers[p].key == key && t.peers[p].phase.Publishing?
    && (key !in h.registry ==>
          t.Registered(p, key) && !t.peers[p].waiting && t.touched == h.touched)
    && (key in h.registry ==>
          && t.registry == h.registry && t.peers[p].waiting
          && (h.HasPuber(h.registry[key]) ==> t.peers[h.registry[key]].told && t.touched == h.touched)
          && (!h.HasPuber(h.registry[key]) && h.registry[key] != p ==> t.touched))
    && (p in h.peers && !h.Registered(p, key) ==> t.peers[p].told == h.peers[p].told)
    && (forall q :: q in h.peers && q != p && !h.Registered(q, key) ==> t.peers[q] == h.peers[q])
    && (forall q :: q in h.peers && q != p && h.Registered(q, key) && h.HasPuber(q) ==>
          t.peers[q] == Peer(h.peers[q].key, Publishing, h.peers[q].waiting, true))
    && (forall k :: k != key ==> (k in t.registry <==> k in h.registry))
    && (forall k :: k != key && k in h.registry ==> t.registry[k] == h.registry[k])
  }

  // A first publish and a due retry each make one try, and no other action does: a later publish and a
  // play only store the name, and a peer that does not wait or has closed does nothing.
  lemma TryOutcome(h: Hub, a: Action)
    requires a.p in h.peers
    ensures var p, peer, t := a.p, h.peers[a.p], Act(h, a);
            match a
            case Publish(_, key) =>
              && (peer.phase.Idle? ==> Tried(h, p, key, t))
              && (peer.phase.Publishing? ==> OnlyRenamed(h, p, key, t))
              && (peer.phase.Closed? ==> t == h)
            case Play(_, key) => if peer.phase.Closed? then t == h else OnlyRenamed(h, p, key, t)
            case Retry(_) => if peer.phase.Publishing? && peer.waiting then Tried(h, p, peer.key, t) else t == h
            case Close(_) => Left(h, p, t)
  {
    match a
    case Publish(p, key) =>
      if h.peers[p].phase.Idle? {
        TryTries(h, h.With(p, h.peers[p].(key := key, phase := Publishing)), p);
      }
    case Play(p, key) =>
    case Retry(p) =>
      if h.peers[p].waiting && h.HasPuber(p) {
        TryTries(h, h, p);
      }
    case Close(p) =>
  }

  lemma TryTries(h: Hub, made: Hub, p: PeerId)
    requires p in h.peers && made.HasPuber(p)
    requires made == h || (h.peers[p].phase.Idle? && made.peers[p].told == h.peers[p].told
                           && made == h.With(p, made.peers[p]))
    ensures Tried(h, p, made.peers[p].key, made.TryPublish(p))
  {
    var key, t := made.peers[p].key, made.TryPublish(p);
    if key in h.registry {
      var q := h.registry[key];
      assert made.HasPuber(q) <==> h.HasPuber(q) || q == p;
      assert forall x :: x in h.peers && x != p && x != q ==> t.peers[x] == h.peers[x];
    } else {
      assert forall x :: x in h.peers && x != p ==> t.peers[x] == h.peers[x];
    }
  }

  ghost predicate OnlyRenamed(h: Hub, p: PeerId, key: Key, t: Hub) {
    && p in h.peers && t.registry == h.registry && t.touched == h.touched && t.peers.Keys == h.peers.Keys
    && t.peers[p] == Peer(key, h.peers[p].phase, h.peers[p].waiting, h.peers[p].told)
    && forall q :: q in h.peers && q != p ==> t.peers[q] == h.peers[q]
  }

  // A closed peer has no puber, and a publisher's name is free, whoever held it.
  ghost predicate Left(h: Hub, p: PeerId, t: Hub) {
    && p in h.peers && t.peers.Keys == h.peers.Keys && t.peers[p].phase.Closed?
    && (forall q :: q in h.peers && q != p ==> t.peers[q] == h.peers[q])
    && (forall k :: k in t.registry <==> k in h.registry && !(h.HasPuber(p) && k == h.peers[p].key))
    && (forall k :: k in t.registry ==> t.registry[k] == h.registry[k])
  }

  // The point of a retry: once the holder of a name has closed, the next retry of a waiting peer gets
  // the name, and it is found by subscribers from then on.
  lemma NameIsHandedOver(h: Hub, p: PeerId, q: PeerId)
    requires p in h.peers && q in h.peers && p != q && h.Named()
    requires h.HasPuber(p) && h.peers[p].waiting && h.Registered(q, h.peers[p].key)
    ensures var t := Acts(h, [Retry(p), Close(q), Retry(p)]);
            p in t.peers && t.Registered(p, h.peers[p].key) && t.HasPuber(p) && !t.peers[p].waiting
    ensures var t := Act(h, Retry(p));
            t.peers[q].told && t.Registered(q, h.peers[p].key) && t.peers[p].waiting
  {
    hide Acts;
    TryOutcome(h, Retry(p));
    var h1 := Act(h, Retry(p));
    TryOutcome(h1, Close(q));
    var h2 := Act(h1, Close(q));
    TryOutcome(h2, Retry(p));
    ThreeActs(h, Retry(p), Close(q), Retry(p), []);
    assert [Retry(p), Close(q), Retry(p)] + [] == [Retry(p), Close(q), Retry(p)];
    NoActs(Act(h2, Retry(p)));
  }

  lemma NoActs(h: Hub)
    ensures Acts(h, []) == h
  {
  }

  // The names in the dispatcher stay right exactly when registered peers keep theirs.
  lemma NamedStep(h: Hub, a: Action)
    requires a.p in h.peers && h.Named()
    ensures Act(h, a).Named() <==> KeepsName(h, a)
  {
    match a
    case Publish(p, key) =>
      if h.peers[p].phase.Idle? {
        TryKeepsNamed(h.With(p, h.peers[p].(key := key, phase := Publishing)), p);
      } else {
        RenamedNamed(h, a);
      }
    case Play(p, key) => RenamedNamed(h, a);
    case Retry(p) =>
      if h.peers[p].waiting && h.HasPuber(p) {
        TryKeepsNamed(h, p);
      }
    case Close(p) =>
  }

  lemma TryKeepsNamed(h: Hub, p: PeerId)
    requires h.HasPuber(p) && h.Named()
    ensures h.TryPublish(p).Named()
  {
  }

  lemma RenamedNamed(h: Hub, a: Action)
    requires a.p in h.peers && h.Named() && (a.Play? || (a.Publish? && !h.peers[a.p].phase.Idle?))
    ensures Act(h, a).Named() <==> KeepsName(h, a)
  {
  }

  // A closing peer is filed under its present name only.
  ghost predicate Tidy(h: Hub, a: Action)
    requires a.p in h.peers
  {
    a.Close? && h.HasPuber(a.p) ==> forall k :: h.Registered(a.p, k) ==> k == h.peers[a.p].key
  }

  // No registration dangles after an action exactly when it is tidy. The source unpublishes by name,
  // so an entry under an older name outlives its puber.
  lemma CloseLeavesNothing(h: Hub, a: Action)
    requires a.p in h.peers && h.NoneDangling()
    ensures Act(h, a).NoneDangling() <==> Tidy(h, a)
  {
    var t := Act(h, a);
    if a.Close? && h.HasPuber(a.p) {
      if Tidy(h, a) {
        forall k | k in t.registry ensures t.HasPuber(t.registry[k]) {
          assert h.registry[k] == a.p ==> h.Registered(a.p, k);
        }
      } else {
        var k :| h.Registered(a.p, k) && k != h.peers[a.p].key;
        assert k in t.registry && t.registry[k] == a.p;
      }
    }
  }

  // The name an action makes the dispatcher look up, if it does.
  predicate LooksUp(h: Hub, a: Action, key: Key)
    requires a.p in h.peers
  {
    match a
    case Publish(p, k) => h.peers[p].phase.Idle? && k == key
    case Play(_, _) => false
    case Retry(p) => h.peers[p].waiting && h.HasPuber(p) && h.peers[p].key == key
    case Close(p) => h.HasPuber(p) && h.peers[p].key == key
  }

  // Registrations belong to peers that have published.
  ghost predicate Known(h: Hub) {
    forall k :: k in h.registry ==> h.registry[k] in h.peers && !h.peers[h.registry[k]].phase.Idle?
  }

  // A deleted puber is touched exactly by a first publish, a due retry, or a close under a dead name.
  lemma TouchStep(h: Hub, a: Action)
    requires a.p in h.peers && Known(h)
    ensures Act(h, a).touched <==> h.touched || exists k :: h.Dead(k) && LooksUp(h, a, k)
    ensures Known(Act(h, a))
  {
    var key := if a.Publish? then a.key else h.peers[a.p].key;
    assert forall k :: LooksUp(h, a, k) ==> k == key;
    StaysKnown(h, a);
    match a
    case Publish(p, _) =>
      if h.peers[p].phase.Idle? {
        TryTouches(h.With(p, h.peers[p].(key := key, phase := Publishing)), p);
        assert h.Dead(key) <==> h.With(p, h.peers[p].(key := key, phase := Publishing)).Dead(key);
        assert LooksUp(h, a, key);
      }
    case Play(_, _) =>
    case Retry(p) =>
      if h.peers[p].waiting && h.HasPuber(p) {
        TryTouches(h, p);
        assert LooksUp(h, a, key);
      }
    case Close(p) =>
      assert h.HasPuber(p) ==> LooksUp(h, a, key);
  }

  lemma TryTouches(h: Hub, p: PeerId)
    requires p in h.peers
    ensures h.TryPublish(p).touched <==> h.touched || h.Dead(h.peers[p].key)
  {
  }

  lemma StaysKnown(h: Hub, a: Action)
    requires a.p in h.peers && Known(h)
    ensures Known(Act(h, a))
  {
    match a
    case Publish(p, key) =>
      if h.peers[p].phase.Idle? {
        TryStaysKnown(h.With(p, h.peers[p].(key := key, phase := Publishing)), p);
      }
    case Play(p, key) =>
    case Retry(p) =>
      if h.peers[p].waiting && h.HasPuber(p) {
        TryStaysKnown(h, p);
      }
    case Close(p) =>
  }

  lemma TryStaysKnown(h: Hub, p: PeerId)
    requires h.HasPuber(p) && Known(h)
    ensures Known(h.TryPublish(p))
  {
  }

  // Publications stay findable exactly when no close removes a third peer's entry and no publishing
  // peer changes its name.
  lemma PublishedStep(h: Hub, a: Action)
    requires a.p in h.peers && h.Named() && h.Published()
    ensures Act(h, a).Published() <==> ClosesOwn(h, a) && KeepsLive(h, a)
  {
    match a
    case Publish(p, key) => RenamedStep(h, a);
    case Play(p, key) => RenamedStep(h, a);
    case Retry(p) =>
      if h.peers[p].waiting && h.HasPuber(p) {
        TryPublished(h, p, h);
      }
    case Close(p) => CloseStep(h, p);
  }

  lemma RenamedStep(h: Hub, a: Action)
    requires a.p in h.peers && h.Named() && h.Published() && (a.Publish? || a.Play?)
    ensures Act(h, a).Published() <==> KeepsLive(h, a)
  {
    if a.Publish? && h.peers[a.p].phase.Idle? {
      TryPublished(h, a.p, h.With(a.p, h.peers[a.p].(key := a.key, phase := Publishing)));
    } else if !h.peers[a.p].phase.Closed? {
      RenamedPublished(h, a.p, a.key);
    }
  }

  // A first publish or a retry, from `h` with its puber made.
  lemma TryPublished(h: Hub, p: PeerId, made: Hub)
    requires h.Named() && h.Published() && p in h.peers
    requires made.HasPuber(p) && made == h.With(p, made.peers[p]) && (made == h || h.peers[p].phase.Idle?)
    ensures made.TryPublish(p).Published()
  {
    var t := made.TryPublish(p);
    forall q | q in t.peers && t.HasPuber(q) && !t.peers[q].waiting && !t.peers[q].told
      ensures t.Registered(q, t.peers[q].key)
    {
      if q != p {
        assert t.peers[q] == h.peers[q];
      }
    }
  }

  lemma RenamedPublished(h: Hub, p: PeerId, key: Key)
    requires h.Named() && h.Published() && p in h.peers
    ensures var peer := h.peers[p];
            h.With(p, peer.(key := key)).Published()
            <==> peer.phase.Publishing? && !peer.waiting && !peer.told ==> key == peer.key
  {
    var peer, t := h.peers[p], h.With(p, h.peers[p].(key := key));
    if peer.phase.Publishing? && !peer.waiting && !peer.told && key != peer.key {
      assert h.registry[peer.key] == p && t.HasPuber(p);
      assert !t.Registered(p, key);
    } else {
      forall q | q in t.peers && t.HasPuber(q) && !t.peers[q].waiting && !t.peers[q].told
        ensures t.Registered(q, t.peers[q].key)
      {
        assert q != p ==> t.peers[q] == h.peers[q] && h.HasPuber(q);
      }
    }
  }

  lemma CloseStep(h: Hub, p: PeerId)
    requires p in h.peers && h.Named() && h.Published()
    ensures h.Close(p).Published() <==> ClosesOwn(h, Close(p))
  {
    var t := h.Close(p);
    if !ClosesOwn(h, Close(p)) {
      var q := h.registry[h.peers[p].key];
      assert t.peers[q] == h.peers[q] && h.peers[q].key !in t.registry;
    }
  }

  function Acts(h: Hub, actions: seq<Action>): Hub
    requires forall i :: 0 <= i < |actions| ==> actions[i].p in h.peers
    decreases |actions|
  {
    if actions == [] then h else Acts(Act(h, actions[0]), actions[1..])
  }

  predicate GoodRun(h: Hub, actions: seq<Action>)
    requires forall i :: 0 <= i < |actions| ==> actions[i].p in h.peers
    decreases |actions|
  {
    actions == [] || (
      var a := actions[0];
      && KeepsName(h, a) && ClosesOwn(h, a)
      && GoodRun(Act(h, a), actions[1..]))
  }

  ghost predicate Sound(h: Hub) {
    h.Named() && h.Published()
  }

  ghost predicate Clean(h: Hub) {
    h.NoneDangling() && !h.touched
  }

  // The hub is `ok` before and after each of the actions.
  ghost predicate Stays(ok: Hub -> bool, h: Hub, actions: seq<Action>)
    requires forall i :: 0 <= i < |actions| ==> actions[i].p in h.peers
  {
    forall i :: 0 <= i <= |actions| ==> ok(Acts(h, actions[..i]))
  }

  lemma StaysNow(ok: Hub -> bool, h: Hub, actions: seq<Action>)
    requires forall i :: 0 <= i < |actions| ==> actions[i].p in h.peers
    ensures Stays(ok, h, actions) ==> ok(h)
    ensures actions == [] && ok(h) ==> Stays(ok, h, actions)
  {
    assert Acts(h, actions[..0]) == h;
  }

  lemma StaysFirst(ok: Hub -> bool, h: Hub, actions: seq<Action>)
    requires forall i :: 0 <= i < |actions| ==> actions[i].p in h.peers
    requires actions != []
    ensures Stays(ok, h, actions) <==> ok(h) && Stays(ok, Act(h, actions[0]), actions[1..])
  {
    hide Act;
    var t, rest := Act(h, actions[0]), actions[1..];
    forall i: nat | i <= |rest| ensures Acts(t, rest[..i]) == Acts(h, actions[..i + 1]) {
      assert actions[..i + 1][1..] == rest[..i];
    }
    if ok(h) && Stays(ok, t, rest) {
      forall i | 0 <= i <= |actions| ensures ok(Acts(h, actions[..i])) {
        assert i > 0 ==> ok(Acts(t, rest[..i - 1]));
      }
    }
    if Stays(ok, h, actions) {
      assert ok(Acts(h, actions[..0]));
      forall i | 0 <= i <= |rest| ensures ok(Acts(t, rest[..i])) {
        assert ok(Acts(h, actions[..i + 1]));
      }
    }
  }

  // MAIN: over a whole run, registrations stay filed under their peers' names and publications can be
  // found, at every moment, exactly when each action keeps registered names and closes its own.
  lemma {:induction false} GoodRunsStayGood(h: Hub, actions: seq<Action>)
    requires forall i :: 0 <= i < |actions| ==> actions[i].p in h.peers
    requires h.Named() && h.Published()
    ensures GoodRun(h, actions) <==> Stays(Sound, h, actions)
    ensures GoodRun(h, actions) ==>
              Acts(h, actions).Named() && Acts(h, actions).NoneDangling() && Acts(h, actions).Published()
    decreases |actions|
  {
    StaysNow(Sound, h, actions);
    if actions != [] {
      var t := Act(h, actions[0]);
      NamedStep(h, actions[0]);
      PublishedStep(h, actions[0]);
      StaysFirst(Sound, h, actions);
      StaysNow(Sound, t, actions[1..]);
      if Sound(t) {
        GoodRunsStayGood(t, actions[1..]);
      }
    }
  }

  ghost predicate TidyRun(h: Hub, actions: seq<Action>)
    requires forall i :: 0 <= i < |actions| ==> actions[i].p in h.peers
    decreases |actions|
  {
    actions == [] || (Tidy(h, actions[0]) && TidyRun(Act(h, actions[0]), actions[1..]))
  }

  // MAIN: over a whole run nothing dangles and no deleted puber is touched, at every moment, exactly
  // when every peer that closes is filed under its present name only.
  lemma {:induction false} TidyRunsStayClean(h: Hub, actions: seq<Action>)
    requires forall i :: 0 <= i < |actions| ==> actions[i].p in h.peers
    requires Known(h) && Clean(h)
    ensures TidyRun(h, actions) <==> Stays(Clean, h, actions)
    decreases |actions|
  {
    StaysNow(Clean, h, actions);
    if actions != [] {
      var t := Act(h, actions[0]);
      CloseLeavesNothing(h, actions[0]);
      TouchStep(h, actions[0]);
      StaysFirst(Clean, h, actions);
      StaysNow(Clean, t, actions[1..]);
      if Clean(t) {
        TidyRunsStayClean(t, actions[1..]);
      }
    }
  }

  // Whatever comes next, no deleted puber is touched.
  ghost predicate Untouchable(h: Hub) {
    !h.touched && forall a: Action :: a.p in h.peers ==> !Act(h, a).touched
  }

  // As long as some peer may still publish, a dangling registration can be touched.
  lemma CleanIffUntouchable(h: Hub, q: PeerId)
    requires Known(h) && q in h.peers && h.peers[q].phase.Idle?
    ensures Clean(h) <==> Untouchable(h)
  {
    if Clean(h) {
      forall a: Action | a.p in h.peers ensures !Act(h, a).touched {
        TouchStep(h, a);
      }
    } else if !h.touched {
      var k :| k in h.registry && !h.HasPuber(h.registry[k]);
      assert h.Dead(k);
      assert LooksUp(h, Publish(q, k), k);
      TouchStep(h, Publish(q, k));
    }
  }

  // MAIN: with a peer that has not published yet, a run keeps out of reach of deleted pubers, whatever
  // action follows any moment of it, exactly when it is tidy.
  lemma {:induction false} TidyIffUntouchable(h: Hub, actions: seq<Action>, q: PeerId)
    requires forall i :: 0 <= i < |actions| ==> actions[i].p in h.peers && actions[i].p != q
    requires Known(h) && Clean(h) && q in h.peers && h.peers[q].phase.Idle?
    ensures TidyRun(h, actions) <==> Stays(Untouchable, h, actions)
    decreases |actions|
  {
    CleanIffUntouchable(h, q);
    StaysNow(Untouchable, h, actions);
    if actions != [] {
      var t := Act(h, actions[0]);
      CloseLeavesNothing(h, actions[0]);
      TouchStep(h, actions[0]);
      StaysIdle(h, actions[0], q);
      StaysFirst(Untouchable, h, actions);
      StaysNow(Untouchable, t, actions[1..]);
      CleanIffUntouchable(t, q);
      if Clean(t) {
        TidyIffUntouchable(t, actions[1..], q);
      }
    }
  }

  lemma StaysIdle(h: Hub, a: Action, q: PeerId)
    requires a.p in h.peers && a.p != q && q in h.peers && h.peers[q].phase.Idle?
    ensures q in Act(h, a).peers && Act(h, a).peers[q].phase.Idle?
  {
  }

  const NOBODY: map<Key, PeerId> := map[]

  function Start(key: Key): Hub {
    var idle := Peer(key, Idle, false, false);
    Hub(map[1 := idle, 2 := idle, 3 := idle], NOBODY, false)
  }

  // Peer 1 publishes, changes its name and closes: its old entry stays behind, and the next peer that
  // publishes under that name has the dispatcher call the deleted puber.
  lemma RenamedPeerDangles(key: Key, other: Key)
    requires key != other
    ensures var run := [Publish(1, key), Publish(1, other), Close(1)];
            && Acts(Start(key), run).Registered(1, key) && !Acts(Start(key), run).NoneDangling()
            && !Acts(Start(key), run).touched && Acts(Start(key), run + [Publish(2, key)]).touched
  {
    var h0 := Start(key);
    var h1 := h0.Publish(1, key);
    var h2 := h1.Publish(1, other);
    var h3 := h2.Close(1);
    assert h1 == Hub(h0.peers[1 := Peer(key, Publishing, false, false)], map[key := 1], false);
    assert h2 == Hub(h0.peers[1 := Peer(other, Publishing, false, false)], map[key := 1], false);
    assert h3 == Hub(h0.peers[1 := Peer(other, Closed, false, false)], map[key := 1], false);
    assert h3.Dead(key) && !h3.NoneDangling();
    ThreeActs(h0, Publish(1, key), Publish(1, other), Close(1), []);
    ThreeActs(h0, Publish(1, key), Publish(1, other), Close(1), [Publish(2, key)]);
    var run := [Publish(1, key), Publish(1, other), Close(1)];
    assert run + [] == run;
    assert Acts(h3, [Publish(2, key)]) == h3.Publish(2, key);
  }

  lemma ThreeActs(h: Hub, a: Action, b: Action, c: Action, more: seq<Action>)
    requires a.p in h.peers && b.p in h.peers && c.p in h.peers
    requires forall i :: 0 <= i < |more| ==> more[i].p in h.peers
    ensures Acts(h, [a, b, c] + more) == Acts(Act(Act(Act(h, a), b), c), more)
  {
    hide Act, Acts;
    var g := Act(h, a);
    OneAct(h, a, [b, c] + more);
    OneAct(g, b, [c] + more);
    OneAct(Act(g, b), c, more);
    assert [a] + ([b, c] + more) == [a, b, c] + more && [b] + ([c] + more) == [b, c] + more;
  }

  lemma OneAct(h: Hub, a: Action, more: seq<Action>)
    requires a.p in h.peers && forall i :: 0 <= i < |more| ==> more[i].p in h.peers
    ensures Acts(h, [a] + more) == Acts(Act(h, a), more)
  {
    assert ([a] + more)[1..] == more;
  }

  // Peer 1 publishes, 2 wants the same name and waits, 1 makes room, 3 takes the name, and then 2
  // gives up: 3 keeps sending but is no longer to be found, and nobody tells it.
  lemma WaitingPeerEvicts(key: Key)
    ensures var h := Acts(Start(key), [Publish(1, key), Publish(2, key), Close(1)] + [Publish(3, key), Close(2)]);
            3 in h.peers && h.peers[3] == Peer(key, Publishing, false, false) && key !in h.registry
  {
    var h0 := Start(key);
    var h3 := h0.Publish(1, key).Publish(2, key).Close(1);
    assert h3.peers[2] == Peer(key, Publishing, true, false) && key !in h3.registry;
    var h4 := h3.Publish(3, key);
    ThreeActs(h0, Publish(1, key), Publish(2, key), Close(1), [Publish(3, key), Close(2)]);
    assert [Publish(3, key), Close(2)][1..] == [Close(2)];
    assert Acts(h4, [Close(2)]) == h4.Close(2);
  }
}
