// When a connection object may go: the process that owns it defers the deletion until its socket is
// closed and its peer has let go. Every method is one atomic step of one thread; a run is any
// sequence of them, so what holds of all runs holds in every interleaving.
module Lifetime {
  import opened Sequences

  type Id = nat

  // How far the socket's own close has come. The network thread works through the stages one by
  // one while other threads go on.
  datatype Stage = Open | Closing | Marked | Detached | Listed

  datatype Conn = Conn(
    tcp: bool,             // TCP, or SRT
    forceClosed: bool,     // the peer let go of it
    sockClosed: bool,      // b_sock_closed_
    handler: bool,         // x2tcp_data_handler_ is not null
    handlerClosed: bool,   // the connection itself closed its handler
    stage: Stage)
  {
    predicate CanDelete() { forceClosed && sockClosed }

    ghost predicate Valid() {
      && (stage.Open? ==> !sockClosed && handler == tcp)
      && (!stage.Open? ==> !handlerClosed)
      && (stage.Closing? ==> sockClosed == !tcp)    // TCP reports to its peer before it sets the flag
      && (handlerClosed ==> tcp && forceClosed)
      && (stage.Marked? || stage.Detached? || stage.Listed? ==> sockClosed)
      && (stage.Detached? || stage.Listed? ==> !handler)
    }

    // Closed from this side before the socket reported anything.
    predicate Stuck() { handlerClosed && stage.Open? }
  }

  const ACCEPTED_TCP := Conn(true, false, false, true, false, Open)
  const ACCEPTED_SRT := Conn(false, false, false, false, false, Open)

  // The part of a delete list that may go, and the part that has to wait, both in order.
  function Select(conns: map<Id, Conn>, ids: seq<Id>, ready: bool): seq<Id> {
    if ids == [] then []
    else
      var rest := Select(conns, ids[..|ids| - 1], ready);
      var id := ids[|ids| - 1];
      if (id in conns && conns[id].CanDelete()) == ready then rest + [id] else rest
  }

  lemma {:induction false} SelectMembers(conns: map<Id, Conn>, ids: seq<Id>, ready: bool)
    ensures forall id :: id in Select(conns, ids, ready)
              <==> id in ids && (id in conns && conns[id].CanDelete()) == ready
    ensures Distinct(ids) ==> Distinct(Select(conns, ids, ready))
  {
    if ids != [] {
      SelectMembers(conns, ids[..|ids| - 1], ready);
      assert ids == ids[..|ids| - 1] + [ids[|ids| - 1]];
    }
  }

  // A peer holds a connection exactly as long as it has not forced it to close.
  ghost predicate HeldIffNotForced(conns: map<Id, Conn>, held: set<Id>, nextId: Id) {
    && (forall id :: id in conns ==> id < nextId && conns[id].Valid())
    && (forall id :: id in held <==> id in conns && !conns[id].forceClosed)
  }

  // The delete list holds what the socket side is done with, and what left it is gone for good.
  ghost predicate ListedOnce(conns: map<Id, Conn>, deleteList: seq<Id>, nextId: Id, deleted: seq<Id>, entered: seq<Id>)
  {
    && (forall id :: id in deleteList <==> id in conns && conns[id].stage.Listed?)
    && (forall id :: id in deleted ==> id !in conns && id < nextId)
    && (forall id :: id in entered <==> id in deleteList || id in deleted)
    && Distinct(deleteList) && Distinct(deleted) && Distinct(entered)
  }

  lemma SweepKeepsListed(conns: map<Id, Conn>, deleteList: seq<Id>, nextId: Id, deleted: seq<Id>, entered: seq<Id>)
    requires ListedOnce(conns, deleteList, nextId, deleted, entered)
    requires forall id :: id in conns ==> id < nextId
    ensures var gone := Select(conns, deleteList, true);
            ListedOnce(conns - Ids(gone), Select(conns, deleteList, false), nextId, deleted + gone, entered)
  {
    SelectMembers(conns, deleteList, true);
    SelectMembers(conns, deleteList, false);
    var gone := Select(conns, deleteList, true);
    DistinctConcat(deleted, gone);
  }

  lemma SelectNext(conns: map<Id, Conn>, all: seq<Id>, k: nat)
    requires k < |all| && Distinct(all)
    ensures all[k] !in all[..k]
    ensures forall ready :: Select(conns, all[..k + 1], ready) ==
              if (all[k] in conns && conns[all[k]].CanDelete()) == ready
              then Select(conns, all[..k], ready) + [all[k]] else Select(conns, all[..k], ready)
  {
    assert all[..k + 1][..k] == all[..k];
  }

  lemma NothingLeft(kept: seq<Id>, all: seq<Id>, k: nat)
    requires k <= |all| && |kept + all[k..]| <= |kept|
    ensures all[..k] == all && kept + all[k..] == kept
  {
  }

  // The list with its i-th element erased.
  function Without(ids: seq<Id>, i: nat, ghost before: seq<Id>, ghost after: seq<Id>): (r: seq<Id>)
    requires i == |before| && after != [] && ids == before + after
    ensures r == before + after[1..]
  {
    ids[..i] + ids[i + 1..]
  }

  function Ids(ids: seq<Id>): set<Id> {
    set id | id in ids
  }

  lemma SelectNone(conns: map<Id, Conn>)
    ensures forall ready :: Select(conns, [], ready) == []
    ensures conns - Ids([]) == conns
  {
  }

  // The sweep at its k-th element, with `kept` and `gone` decided so far.
  lemma SweepTurn(conns: map<Id, Conn>, all: seq<Id>, k: nat, kept: seq<Id>, gone: seq<Id>)
    requires k < |all| && Distinct(all) && forall id :: id in all ==> id in conns
    requires kept == Select(conns, all[..k], false) && gone == Select(conns, all[..k], true)
    ensures (kept + all[k..])[|kept|] == all[k] && all[k] in conns - Ids(gone)
    ensures conns - Ids(gone) - {all[k]} == conns - Ids(gone + [all[k]])
    ensures if conns[all[k]].CanDelete()
            then Select(conns, all[..k + 1], true) == gone + [all[k]] && Select(conns, all[..k + 1], false) == kept
            else Select(conns, all[..k + 1], true) == gone && Select(conns, all[..k + 1], false) == kept + [all[k]]
  {
    assert all[k] in all;
    SelectNext(conns, all, k);
    SelectMembers(conns, all[..k], true);
  }

  lemma Assoc(a: seq<Id>, b: seq<Id>, x: Id)
    ensures a + b + [x] == a + (b + [x])
  {
  }

  lemma Shift(kept: seq<Id>, all: seq<Id>, k: nat)
    requires k < |all|
    ensures kept + all[k..] == kept + [all[k]] + all[k + 1..]
  {
  }

  function AfterStep(c: Conn): Conn {
    match c.stage
    case Open => c.(stage := Closing, sockClosed := !c.tcp)
    case Closing => c.(stage := Marked, sockClosed := true)
    case Marked => c.(stage := Detached, handler := false)
    case Detached => c.(stage := Listed)
    case Listed => c
  }

  // A pass of a TCP connection that is forced to close closes the handler, which reports nothing
  // then. A handler that reported first is closed already.
  function AfterPass(c: Conn): Conn {
    if c.forceClosed && c.stage.Open? then c.(handlerClosed := true) else c
  }

  // ---- The process as a value: what each step does, and which runs there are.

  datatype Step = Accepted(tcp: bool) | LetGo(id: Id) | OwnPass(id: Id) | SocketStep(id: Id) | Swept

  datatype World = World(conns: map<Id, Conn>, held: set<Id>, deleteList: seq<Id>, nextId: Id,
                         deleted: seq<Id>, entered: seq<Id>)
  {
    ghost predicate Valid() {
      && HeldIffNotForced(conns, held, nextId)
      && ListedOnce(conns, deleteList, nextId, deleted, entered)
    }

    predicate Enabled(s: Step) {
      match s
      case LetGo(id) => id in held && id in conns
      case OwnPass(id) => id in conns && conns[id].tcp
      case SocketStep(id) => id in conns && !conns[id].handlerClosed && !conns[id].stage.Listed?
      case _ => true
    }

    function Do(s: Step): World
      requires Enabled(s)
    {
      match s
      case Accepted(tcp) =>
        this.(conns := conns[nextId := if tcp then ACCEPTED_TCP else ACCEPTED_SRT],
              held := held + {nextId}, nextId := nextId + 1)
      case LetGo(id) => this.(conns := conns[id := conns[id].(forceClosed := true)], held := held - {id})
      case OwnPass(id) => this.(conns := conns[id := AfterPass(conns[id])])
      case SocketStep(id) =>
        var t := this.(conns := conns[id := AfterStep(conns[id])]);
        if conns[id].stage.Detached? then t.(deleteList := deleteList + [id], entered := entered + [id]) else t
      case Swept =>
        var gone := Select(conns, deleteList, true);
        this.(conns := conns - Ids(gone), deleteList := Select(conns, deleteList, false), deleted := deleted + gone)
    }

    predicate IsStuck(id: Id) { id in conns && conns[id].Stuck() }
  }

  lemma StepKeepsValid(w: World, s: Step)
    requires w.Valid() && w.Enabled(s)
    ensures w.Do(s).Valid()
  {
    match s
    case SocketStep(id) => SocketStepKeepsValid(w, id);
    case Swept =>
      SweepKeepsListed(w.conns, w.deleteList, w.nextId, w.deleted, w.entered);
      SelectMembers(w.conns, w.deleteList, true);
    case _ =>
  }

  lemma SocketStepKeepsValid(w: World, id: Id)
    requires w.Valid() && w.Enabled(SocketStep(id))
    ensures w.Do(SocketStep(id)).Valid()
  {
    hide HeldIffNotForced, ListedOnce;
    ConnKeepsHeld(w, id);
    if w.conns[id].stage.Detached? {
      ListLast(w, id);
    } else {
      NotYetListed(w, id);
    }
  }

  lemma ConnKeepsHeld(w: World, id: Id)
    requires HeldIffNotForced(w.conns, w.held, w.nextId) && id in w.conns
    requires !w.conns[id].handlerClosed
    ensures HeldIffNotForced(w.conns[id := AfterStep(w.conns[id])], w.held, w.nextId)
  {
    assert w.conns[id].Valid();
  }

  lemma NotYetListed(w: World, id: Id)
    requires ListedOnce(w.conns, w.deleteList, w.nextId, w.deleted, w.entered) && id in w.conns
    requires !w.conns[id].stage.Detached? && !w.conns[id].stage.Listed?
    ensures ListedOnce(w.conns[id := AfterStep(w.conns[id])], w.deleteList, w.nextId, w.deleted, w.entered)
  {
  }

  lemma ListLast(w: World, id: Id)
    requires ListedOnce(w.conns, w.deleteList, w.nextId, w.deleted, w.entered) && id in w.conns
    requires w.conns[id].stage.Detached?
    ensures ListedOnce(w.conns[id := AfterStep(w.conns[id])], w.deleteList + [id], w.nextId, w.deleted,
                       w.entered + [id])
  {
  }

  // Nothing a peer still points to is deleted, nor anything with a live handler, nor anything stuck.
  lemma SweepIsSafe(w: World, id: Id)
    requires w.Valid() && id in w.conns && id !in w.Do(Swept).conns
    ensures id in w.deleteList && id !in w.held && !w.conns[id].handler && !w.conns[id].Stuck()
  {
    SelectMembers(w.conns, w.deleteList, true);
  }

  lemma StuckStays(w: World, s: Step, id: Id)
    requires w.Valid() && w.Enabled(s) && w.IsStuck(id)
    ensures w.Do(s).IsStuck(id)
  {
    if s.Swept? && id !in w.Do(Swept).conns {
      SweepIsSafe(w, id);
    }
  }

  lemma StepKeeps(w: World, s: Step)
    requires w.Valid() && w.Enabled(s)
    ensures w.Do(s).Valid() && w.deleted <= w.Do(s).deleted && w.entered <= w.Do(s).entered
    ensures forall id :: w.IsStuck(id) ==> w.Do(s).IsStuck(id)
  {
    StepKeepsValid(w, s);
    forall id | w.IsStuck(id) ensures w.Do(s).IsStuck(id) {
      StuckStays(w, s, id);
    }
  }

  // A run is legal when each of its steps is possible where it comes.
  predicate Legal(w: World, run: seq<Step>)
    decreases |run|, 0
  {
    run == [] || (
      var rest := run[..|run| - 1];
      Legal(w, rest) && After(w, rest).Enabled(run[|run| - 1]))
  }

  function After(w: World, run: seq<Step>): World
    requires Legal(w, run)
    decreases |run|, 1
  {
    if run == [] then w else After(w, run[..|run| - 1]).Do(run[|run| - 1])
  }

  lemma RunSnoc(w: World, run: seq<Step>, s: Step)
    requires Legal(w, run) && After(w, run).Enabled(s)
    ensures Legal(w, run + [s]) && After(w, run + [s]) == After(w, run).Do(s)
  {
    assert (run + [s])[..|run|] == run;
  }

  lemma {:induction false} RunKeeps(w: World, run: seq<Step>, id: Id)
    requires w.Valid() && Legal(w, run)
    ensures After(w, run).Valid() && (w.IsStuck(id) ==> After(w, run).IsStuck(id))
  {
    if run != [] {
      var rest, s := run[..|run| - 1], run[|run| - 1];
      RunKeeps(w, rest, id);
      StepKeepsValid(After(w, rest), s);
      if w.IsStuck(id) {
        StuckStays(After(w, rest), s, id);
      }
    }
  }

  predicate Deletes(w: World, run: seq<Step>, id: Id) {
    Legal(w, run) && id in After(w, run).deleted
  }

  function StepsToGo(stage: Stage): nat {
    match stage
    case Open => 4
    case Closing => 3
    case Marked => 2
    case Detached => 1
    case Listed => 0
  }

  function StepsLeft(w: World, id: Id): nat
    requires id in w.conns
  {
    StepsToGo(w.conns[id].stage) + if id in w.held then 5 else 0
  }

  // The next step towards the deletion of a connection that is not stuck.
  lemma NextTowards(w: World, id: Id) returns (s: Step)
    requires w.Valid() && id in w.conns && !w.conns[id].Stuck()
    ensures w.Enabled(s)
    ensures if s.Swept? then id in w.Do(s).deleted
            else id in w.Do(s).conns && !w.Do(s).conns[id].Stuck() && StepsLeft(w.Do(s), id) < StepsLeft(w, id)
  {
    assert w.conns[id].Valid();
    if id in w.held {
      s := LetGo(id);
    } else if w.conns[id].stage.Listed? {
      s := Swept;
      SelectMembers(w.conns, w.deleteList, true);
    } else {
      s := SocketStep(id);
    }
  }

  // A connection that is not stuck can still be deleted: its peer lets go, its socket closes, and the
  // sweep comes by.
  lemma {:induction false} FindDeletion(w: World, run: seq<Step>, id: Id) returns (more: seq<Step>)
    requires w.Valid() && Legal(w, run)
    requires id in After(w, run).conns && !After(w, run).conns[id].Stuck()
    ensures Deletes(w, run + more, id)
    decreases StepsLeft(After(w, run), id)
  {
    hide After, Legal, World.Valid, World.Do, World.Enabled, StepsLeft;
    RunKeeps(w, run, id);
    var s := NextTowards(After(w, run), id);
    RunSnoc(w, run, s);
    if s.Swept? {
      more := [s];
    } else {
      var rest := FindDeletion(w, run + [s], id);
      more := [s] + rest;
      assert run + more == run + [s] + rest;
    }
  }

  // MAIN: from any state, some run deletes a connection exactly when it is not stuck.
  lemma DeletableIffNotStuck(w: World, id: Id)
    requires w.Valid() && id in w.conns
    ensures (exists run :: Deletes(w, run, id)) <==> !w.IsStuck(id)
  {
    if w.IsStuck(id) {
      forall run | Legal(w, run) ensures id !in After(w, run).deleted {
        RunKeeps(w, run, id);
      }
    } else {
      var run := FindDeletion(w, [], id);
      assert [] + run == run;
    }
  }

  // The connection's own pass came after its peer let go, and before its socket reported anything.
  predicate OwnPassFirst(run: seq<Step>, id: Id) {
    exists j :: 0 <= j < |run| && run[j] == OwnPass(id) && LetGo(id) in run[..j] && SocketStep(id) !in run[..j]
  }

  lemma OwnPassFirstSnoc(run: seq<Step>, s: Step, id: Id)
    ensures OwnPassFirst(run + [s], id)
            <==> OwnPassFirst(run, id) || (s == OwnPass(id) && LetGo(id) in run && SocketStep(id) !in run)
  {
    var all := run + [s];
    assert all[..|run|] == run && all[|run|] == s;
    assert forall j :: 0 <= j < |run| ==> all[..j] == run[..j] && all[j] == run[j];
  }

  // What a run since its acceptance has made of a connection.
  lemma {:induction false} Tracks(w: World, run: seq<Step>, id: Id)
    requires w.Valid() && Legal(w, run) && id in w.conns && w.conns[id] in {ACCEPTED_TCP, ACCEPTED_SRT}
    ensures var t := After(w, run);
            && t.Valid() && (id in t.conns || id in t.deleted)
            && (id in t.conns ==>
                  && t.conns[id].tcp == w.conns[id].tcp
                  && (t.conns[id].forceClosed <==> LetGo(id) in run)
                  && (t.conns[id].stage.Open? <==> SocketStep(id) !in run))
            && (t.IsStuck(id) <==> OwnPassFirst(run, id))
  {
    if run != [] {
      var rest, s := run[..|run| - 1], run[|run| - 1];
      assert run == rest + [s];
      Tracks(w, rest, id);
      OwnPassFirstSnoc(rest, s, id);
      StepTracks(After(w, rest), s, id);
    }
  }

  lemma StepTracks(w: World, s: Step, id: Id)
    requires w.Valid() && w.Enabled(s) && (id in w.conns || id in w.deleted)
    ensures var t := w.Do(s);
            && t.Valid() && (id in t.conns || id in t.deleted) && (id in t.conns ==> id in w.conns)
            && (id in t.conns ==> ConnTracks(w.conns[id], s, id, t.conns[id]))
            && (t.IsStuck(id)
                <==> w.IsStuck(id) || (s == OwnPass(id) && w.conns[id].forceClosed && w.conns[id].stage.Open?))
  {
    hide ConnTracks;
    StepKeepsValid(w, s);
    if id !in w.conns {
      StaysDeleted(w, s, id);
    } else if s.Swept? {
      SweptTracks(w, id);
    } else {
      ConnStep(w, s, id);
    }
  }

  // What a step makes of a connection that outlives it.
  predicate ConnTracks(c: Conn, s: Step, id: Id, d: Conn) {
    && d.tcp == c.tcp
    && (d.forceClosed <==> c.forceClosed || s == LetGo(id))
    && (d.stage.Open? <==> c.stage.Open? && s != SocketStep(id))
    && (d.Stuck() <==> c.Stuck() || (s == OwnPass(id) && c.forceClosed && c.stage.Open?))
  }

  lemma StaysDeleted(w: World, s: Step, id: Id)
    requires w.Valid() && w.Enabled(s) && id in w.deleted
    ensures id !in w.Do(s).conns && id in w.Do(s).deleted && s != OwnPass(id)
  {
  }

  lemma SweptTracks(w: World, id: Id)
    requires w.Valid() && id in w.conns
    ensures var t := w.Do(Swept);
            && (if id in t.conns then t.conns[id] == w.conns[id] else id in t.deleted && !w.conns[id].Stuck())
            && ConnTracks(w.conns[id], Swept, id, w.conns[id])
  {
    SelectMembers(w.conns, w.deleteList, true);
    if id !in w.Do(Swept).conns {
      SweepIsSafe(w, id);
    }
  }

  lemma ConnStep(w: World, s: Step, id: Id)
    requires w.Valid() && w.Enabled(s) && id in w.conns && !s.Swept?
    ensures id in w.Do(s).conns && ConnTracks(w.conns[id], s, id, w.Do(s).conns[id])
    ensures w.Do(s).conns[id].Stuck()
            <==> w.conns[id].Stuck() || (s == OwnPass(id) && w.conns[id].forceClosed && w.conns[id].stage.Open?)
  {
    assert w.conns[id].Valid() && id < w.nextId;
  }

  // MAIN: a connection accepted at the start of a run can no longer be deleted at its end exactly
  // when its own pass got in between its peer's letting go and its socket's report.
  lemma DeletableIffReportFirst(w: World, run: seq<Step>, id: Id)
    requires w.Valid() && Legal(w, run) && id in w.conns && w.conns[id] in {ACCEPTED_TCP, ACCEPTED_SRT}
    ensures (exists more :: Deletes(After(w, run), more, id)) <==> !OwnPassFirst(run, id)
  {
    Tracks(w, run, id);
    var t := After(w, run);
    if id in t.conns {
      DeletableIffNotStuck(t, id);
    } else {
      assert Deletes(t, [], id);
    }
  }

  // An SRT connection never gets stuck: whatever happens after it is accepted, it can be deleted.
  lemma SrtIsDeletable(w: World, run: seq<Step>)
    requires w.Valid() && Legal(w.Do(Accepted(false)), run)
    ensures exists more :: Deletes(After(w.Do(Accepted(false)), run), more, w.nextId)
  {
    var t := w.Do(Accepted(false));
    StepKeepsValid(w, Accepted(false));
    Tracks(t, run, w.nextId);
    if OwnPassFirst(run, w.nextId) {
      OwnPassOfTcp(t, run, w.nextId);
    }
    DeletableIffReportFirst(t, run, w.nextId);
  }

  // Only a TCP connection makes a pass of its own that could close its handler.
  lemma {:induction false} OwnPassOfTcp(w: World, run: seq<Step>, id: Id)
    requires w.Valid() && Legal(w, run) && id in w.conns && w.conns[id] in {ACCEPTED_TCP, ACCEPTED_SRT}
    ensures OwnPass(id) in run ==> w.conns[id].tcp
  {
    if run != [] {
      var rest := run[..|run| - 1];
      assert run == rest + [run[|run| - 1]];
      OwnPassOfTcp(w, rest, id);
      Tracks(w, rest, id);
    }
  }

  // Such a run exists from every state: accept, let go, pass.
  lemma StuckIsReachable(w: World)
    requires w.Valid()
    ensures var run := [Accepted(true), LetGo(w.nextId), OwnPass(w.nextId)];
            && Legal(w, run) && After(w, run).IsStuck(w.nextId)
            && forall more :: !Deletes(After(w, run), more, w.nextId)
  {
    var id := w.nextId;
    var none: seq<Step> := [];
    assert Legal(w, none) && After(w, none) == w;
    RunSnoc(w, none, Accepted(true));
    RunSnoc(w, none + [Accepted(true)], LetGo(id));
    RunSnoc(w, none + [Accepted(true)] + [LetGo(id)], OwnPass(id));
    var run := [Accepted(true), LetGo(id), OwnPass(id)];
    assert none + [Accepted(true)] + [LetGo(id)] + [OwnPass(id)] == run;
    RunKeeps(w, run, id);
    DeletableIffNotStuck(After(w, run), id);
  }

  class NetProcess {
    var conns: map<Id, Conn>     // every connection object that exists
    var held: set<Id>            // those some peer's x2net_connection_ points to
    var deleteList: seq<Id>      // list_x2net_connection_for_delete_
    var nextId: Id
    ghost var deleted: seq<Id>   // in the order of deletion
    ghost var entered: seq<Id>   // in the order of entering the delete list

    ghost function View(): World
      reads this
    {
      World(conns, held, deleteList, nextId, deleted, entered)
    }

    ghost predicate Valid()
      reads this
    {
      View().Valid()
    }

    // What no step undoes: what is deleted stays deleted, what is stuck stays, and stays stuck.
    twostate predicate Grows()
      reads this
    {
      && old(deleted) <= deleted && old(entered) <= entered
      && forall id :: old(View()).IsStuck(id) ==> View().IsStuck(id)
    }

    constructor ()
      ensures Valid() && conns == map[] && deleted == [] && entered == []
    {
      conns, held, deleteList, nextId, deleted, entered := map[], {}, [], 0, [], [];
    }

    // A connection is accepted and given to a new peer.
    method Accept(tcp: bool) returns (id: Id)
      requires Valid()
      modifies this
      ensures Valid() && Grows() && View() == old(View()).Do(Accepted(tcp))
      ensures id !in old(conns) && held == old(held) + {id}
      ensures conns == old(conns)[id := if tcp then ACCEPTED_TCP else ACCEPTED_SRT]
      ensures conns[id] == Conn(tcp, false, false, tcp, false, Open)
    {
      StepKeeps(View(), Accepted(tcp));
      id := nextId;
      nextId := nextId + 1;
      conns := conns[id := if tcp then ACCEPTED_TCP else ACCEPTED_SRT];
      held := held + {id};
    }

    // The peer's closing tick: clear the listener, ForceClose, and drop the pointer.
    method PeerCloses(id: Id)
      requires Valid() && id in held
      modifies this
      ensures Valid() && Grows() && View() == old(View()).Do(LetGo(id))
      ensures held == old(held) - {id}
      ensures conns == old(conns)[id := old(conns)[id].(forceClosed := true)]
    {
      StepKeeps(View(), LetGo(id));
      conns := conns[id := conns[id].(forceClosed := true)];
      held := held - {id};
    }

    // A TCP connection's own pass: once forced to close, it closes its handler, without a report.
    method ConnectionRunOnce(id: Id)
      requires Valid() && id in conns && conns[id].tcp
      modifies `conns
      ensures Valid() && Grows() && View() == old(View()).Do(OwnPass(id))
      ensures conns == old(conns)[id := AfterPass(old(conns)[id])]
    {
      StepKeeps(View(), OwnPass(id));
      assert conns == conns[id := conns[id]];
      if conns[id].forceClosed && conns[id].stage.Open? {
        conns := conns[id := conns[id].(handlerClosed := true)];
      }
    }

    // The network thread's next action for a socket that failed or was closed by the other end.
    // A handler that was closed from this side reports nothing any more.
    method SocketCloseStep(id: Id)
      requires Valid() && id in conns && !conns[id].handlerClosed && !conns[id].stage.Listed?
      modifies `conns, `deleteList, `entered
      ensures Valid() && Grows() && View() == old(View()).Do(SocketStep(id))
      ensures conns == old(conns)[id := AfterStep(old(conns)[id])]
    {
      StepKeeps(View(), SocketStep(id));
      if conns[id].stage.Detached? {
        deleteList := deleteList + [id];
        entered := entered + [id];
      }
      conns := conns[id := AfterStep(conns[id])];
    }

    // The sweep: delete every listed connection that may go, keep the others in order.
    method RunOnce()
      requires Valid()
      modifies `conns, `deleteList, `deleted
      ensures Valid() && Grows() && View() == old(View()).Do(Swept)
      ensures deleteList == Select(old(conns), old(deleteList), false)
      ensures deleted == old(deleted) + Select(old(conns), old(deleteList), true)
      ensures conns == old(conns) - Ids(Select(old(conns), old(deleteList), true))
      // nothing a peer still points to is deleted, nor anything with a live handler
      ensures forall id :: id in old(conns) && id !in conns ==> id !in held && !old(conns)[id].handler
    {
      hide Select, Ids;
      StepKeeps(View(), Swept);
      forall id | id in conns && id !in View().Do(Swept).conns ensures id !in held && !conns[id].handler {
        SweepIsSafe(View(), id);
      }
      Sweep();
    }

    method Sweep()
      requires forall id :: id in deleteList ==> id in conns
      requires Distinct(deleteList)
      modifies `conns, `deleteList, `deleted
      ensures deleteList == Select(old(conns), old(deleteList), false)
      ensures deleted == old(deleted) + Select(old(conns), old(deleteList), true)
      ensures conns == old(conns) - Ids(Select(old(conns), old(deleteList), true))
    {
      hide Select, Ids, Distinct;
      ghost var all, k := deleteList, 0;
      SelectNone(conns);
      ghost var kept: seq<Id>, gone: seq<Id> := [], [];
      var i := 0;
      while i < |deleteList|
        invariant k <= |all| && i == |kept| && deleteList == kept + all[k..]
        invariant kept == Select(old(conns), all[..k], false)
        invariant gone == Select(old(conns), all[..k], true)
        invariant deleted == old(deleted) + gone
        invariant conns == old(conns) - Ids(gone)
        decreases |all| - k
      {
        var id := deleteList[i];
        SweepTurn(old(conns), all, k, kept, gone);
        if conns[id].CanDelete() {
          Assoc(old(deleted), gone, id);
          conns := conns - {id};
          deleted := deleted + [id];
          deleteList := Without(deleteList, i, kept, all[k..]);
          gone := gone + [id];
        } else {
          i := i + 1;
          Shift(kept, all, k);
          kept := kept + [id];
        }
        k := k + 1;
      }
      NothingLeft(kept, all, k);
    }

    // A TCP connection whose own pass closed the handler first is on no list, and it is the only kind
    // of connection that no run of the process deletes any more.
    lemma StuckIsNeverListed(id: Id)
      requires Valid() && id in conns
      ensures conns[id].Stuck() ==> id !in deleteList && id !in entered && id !in deleted && id !in held
      ensures conns[id].Stuck() <==> forall run :: !Deletes(View(), run, id)
    {
      DeletableIffNotStuck(View(), id);
    }
  }
}
