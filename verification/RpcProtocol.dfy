/**
 The client's request protocol (`gethrpc/client.go`, `gethrpc/handler.go`): senders, the read
 loop and the dispatch loop, as a labelled transition system. A step is one event of one of
 them; the state holds the dispatch loop's variables, the handler's `respWait`, the senders'
 positions, and the history of every request's response channel.
 */
module RpcProtocol {
  import opened Options

  /** Which request, which connection, which message id (rendered in decimal on the wire). */
  type Op = nat
  type Conn = nat
  type Id = nat

  /** `idCounter` is a uint32. */
  const ID_SPACE: nat := 4294967296

  /** Where the sender of a request is: still collecting ids; accepted and in `checkWriteConn`;
      in `Write`; its result put into `reqSent`; and that result taken out by dispatch. */
  datatype Phase = Draft | Checking | Writing | Sent(ok: bool) | Done(ok: bool)

  /** The history of a response channel: what was sent on it, how often it was closed, and
      whether it was ever sent on or closed after having been closed. */
  datatype Channel = Channel(sent: seq<Id>, closes: nat, misused: bool) {
    function Send(id: Id): Channel {
      Channel(sent + [id], closes, misused || closes > 0)
    }
    function Close(): Channel {
      Channel(sent, closes + 1, misused || closes > 0)
    }
  }

  /** A `requestOp`. A notification has no ids; a subscription has a `sub`. */
  datatype Request = Request(ids: seq<Id>, isSub: bool, phase: Phase, resp: Channel, answered: seq<Id>, timedOut: bool)

  datatype State = State(
    issued: nat,               // how often nextID was called
    owner: map<Id, Op>,        // the request that each id was issued to
    ops: map<Op, Request>,
    respWait: map<Id, Op>,     // of the current handler
    lastOp: Option<Op>,
    locked: bool,              // reqInitLock is nil
    reqSent: seq<bool>,        // the channel's buffer
    conn: Conn,                // of dispatch
    writeConn: Option<Conn>,   // of the senders
    closedConns: set<Conn>,
    readers: set<Conn>,        // the running read loops
    reading: bool,
    running: bool,             // dispatch has not returned
    exposed: set<Id>,          // ids that the peer may have seen
    cut: set<Op>,              // requests that a read error cut off, see Cuts
    nilOp: bool)               // dispatch has used lastOp while it was nil

  datatype Step =
    | NewOp(op: Op, isSub: bool)
    | TakeId(op: Op)
    | BurnId
    | Accept(op: Op)
    | CheckOk(op: Op)
    | Reconnect(op: Op, newConn: Conn, drained: Conn)
    | WriteDone(op: Op, ok: bool)
    | SentHandled
    | Read(conn: Conn, ids: seq<Id>)
    | ReadErr(conn: Conn)
    | Timeout(op: Op)
    | Close(drained: Conn)

  // ------------------------------------------------------------------ the handler's operations

  function Elements(ids: seq<Id>): set<Id> {
    set id | id in ids
  }

  /** `addRequestOp`. */
  function AddIds(w: map<Id, Op>, ids: seq<Id>, op: Op): map<Id, Op> {
    w + map id | id in Elements(ids) :: op
  }

  /** `removeRequestOp`. */
  function RemoveIds(w: map<Id, Op>, ids: seq<Id>): map<Id, Op> {
    w - Elements(ids)
  }

  predicate Waits(w: map<Id, Op>, op: Op) {
    exists id :: id in w && w[id] == op
  }

  /** `cancelAllRequests`: every waiting request but the one in flight is closed, once. */
  function Cancelled(ops: map<Op, Request>, w: map<Id, Op>, inflight: Option<Op>): map<Op, Request> {
    map o | o in ops ::
      if Waits(w, o) && inflight != Some(o) then ops[o].(resp := ops[o].resp.Close()) else ops[o]
  }

  /** A request to which the response with this id is given: forwarded to a call or a batch,
      while for a subscription the channel is closed. */
  function Respond(r: Request, id: Id): Request {
    r.(resp := if r.isSub then r.resp.Close() else r.resp.Send(id), answered := r.answered + [id])
  }

  /** `handleResponse`. */
  function HandleResponse(s: State, id: Id): State {
    if id in s.respWait && s.respWait[id] in s.ops then
      var op := s.respWait[id];
      s.(respWait := s.respWait - {id}, ops := s.ops[op := Respond(s.ops[op], id)])
    else s
  }

  function HandleAll(s: State, ids: seq<Id>): State {
    if ids == [] then s else HandleResponse(HandleAll(s, ids[..|ids| - 1]), ids[|ids| - 1])
  }

  // ------------------------------------------------------------------ the steps

  /** `nextID`. */
  function NextId(issued: nat): Id {
    (issued + 1) % ID_SPACE
  }

  function Initial(conn: Conn): State {
    State(0, map[], map[], map[], None, false, [], conn, Some(conn), {}, {conn}, true, true, {}, {}, false)
  }

  predicate InPhase(s: State, op: Op, p: Phase) {
    op in s.ops && s.ops[op].phase == p
  }

  function SetPhase(s: State, op: Op, p: Phase): State
    requires op in s.ops
  {
    s.(ops := s.ops[op := s.ops[op].(phase := p)])
  }

  /** `conn.close`. */
  function ConnClose(s: State, inflight: Option<Op>): State {
    s.(ops := Cancelled(s.ops, s.respWait, inflight), respWait := map[], closedConns := s.closedConns + {s.conn})
  }

  predicate Answered(r: Request) {
    forall id :: id in r.ids ==> id in r.answered
  }

  /** A read error now cuts this request off: it is in flight, it is past `checkWriteConn`, its
      write has not failed, and an answer is missing. */
  predicate Cuts(s: State, op: Op) {
    s.lastOp == Some(op) && op in s.ops && !Answered(s.ops[op]) &&
    (s.ops[op].phase == Writing || s.ops[op].phase == Sent(true))
  }

  predicate WriteConnUsable(s: State) {
    s.writeConn.Some? && s.writeConn.value !in s.closedConns
  }

  predicate Enabled(s: State, step: Step) {
    match step
    case NewOp(op, _) => op !in s.ops
    case TakeId(op) => InPhase(s, op, Draft) && (s.ops[op].isSub ==> s.ops[op].ids == [])
    case BurnId => true
    case Accept(op) => s.running && !s.locked && InPhase(s, op, Draft) && (s.ops[op].isSub ==> |s.ops[op].ids| == 1)
    case CheckOk(op) => InPhase(s, op, Checking) && WriteConnUsable(s)
    case Reconnect(op, next, drained) =>
      s.running && InPhase(s, op, Checking) && !WriteConnUsable(s) &&
      next != s.conn && next !in s.closedConns && (s.reading ==> drained in s.readers)
    case WriteDone(op, ok) => InPhase(s, op, Writing) || (InPhase(s, op, Checking) && !ok)
    case SentHandled => s.running && s.reqSent != []
    // the peer answers no id before it was written
    case Read(c, ids) => s.running && c in s.readers && (forall id :: id in ids ==>
      id in s.exposed || id !in s.respWait)
    case ReadErr(c) => s.running && c in s.readers
    case Timeout(op) => (InPhase(s, op, Sent(true)) || InPhase(s, op, Done(true))) && !s.ops[op].timedOut
    case Close(drained) => s.running && (s.reading ==> drained in s.readers)
  }

  function ApplyTakeId(s: State, op: Op): State
    requires op in s.ops
  {
    var id := NextId(s.issued);
    s.(issued := s.issued + 1, owner := s.owner[id := op], ops := s.ops[op := s.ops[op].(ids := s.ops[op].ids + [id])])
  }

  function ApplyAccept(s: State, op: Op): State
    requires op in s.ops
  {
    SetPhase(s, op, Checking).(locked := true, lastOp := Some(op), respWait := AddIds(s.respWait, s.ops[op].ids, op))
  }

  /** The sender is in `Write` now, where its ids become visible to the peer. */
  function StartWrite(s: State, op: Op): State
    requires op in s.ops
  {
    SetPhase(s, op, Writing).(exposed := s.exposed + Elements(s.ops[op].ids))
  }

  /** The old connection is closed and its read loop awaited, if it still runs. */
  function DropRead(s: State, drained: Conn): State {
    if s.reading then ConnClose(s, s.lastOp).(readers := s.readers - {drained}) else s
  }

  /** The new connection gets a read loop and a handler, on which the request in flight is
      registered. */
  function Attach(s: State, next: Conn): State {
    var t := s.(readers := s.readers + {next}, reading := true, conn := next, writeConn := Some(next),
      respWait := map[]);
    match s.lastOp
    case None => t.(nilOp := true)
    case Some(o) => if o in t.ops then t.(respWait := AddIds(map[], t.ops[o].ids, o)) else t
  }

  /** Dispatch receives a new connection. */
  function Reconnected(s: State, next: Conn, drained: Conn): State {
    Attach(DropRead(s, drained), next)
  }

  function ApplyWriteDone(s: State, op: Op, ok: bool): State
    requires op in s.ops
  {
    SetPhase(s, op, Sent(ok)).(
      reqSent := s.reqSent + [ok],
      writeConn := if s.ops[op].phase == Writing && !ok then None else s.writeConn)
  }

  function ApplySentHandled(s: State): State
    requires s.reqSent != []
  {
    var ok := s.reqSent[0];
    var t := s.(reqSent := s.reqSent[1..], locked := false, lastOp := None);
    match s.lastOp
    case None => if ok then t else t.(nilOp := true)
    case Some(o) =>
      if o !in s.ops then t
      else SetPhase(t, o, Done(ok)).(respWait := if ok then s.respWait else RemoveIds(s.respWait, s.ops[o].ids))
  }

  function ApplyReadErr(s: State, c: Conn): State {
    var cut := if s.lastOp.Some? && Cuts(s, s.lastOp.value) then {s.lastOp.value} else {};
    ConnClose(s, s.lastOp).(reading := false, readers := s.readers - {c}, cut := s.cut + cut)
  }

  /** A waiter gives up; dispatch removes its ids while it runs. */
  function ApplyTimeout(s: State, op: Op): State
    requires op in s.ops
  {
    s.(ops := s.ops[op := s.ops[op].(timedOut := true)],
       respWait := if s.running then RemoveIds(s.respWait, s.ops[op].ids) else s.respWait)
  }

  function ApplyClose(s: State, drained: Conn): State {
    if s.reading then ConnClose(s, None).(running := false, reading := false, readers := s.readers - {drained})
    else s.(running := false)
  }

  function Apply(s: State, step: Step): State
    requires Enabled(s, step)
  {
    match step
    case NewOp(op, isSub) => s.(ops := s.ops[op := Request([], isSub, Draft, Channel([], 0, false), [], false)])
    case TakeId(op) => ApplyTakeId(s, op)
    case BurnId => s.(issued := s.issued + 1)
    case Accept(op) => ApplyAccept(s, op)
    case CheckOk(op) => StartWrite(s, op)
    case Reconnect(op, next, drained) => StartWriteIn(Reconnected(s, next, drained), op)
    case WriteDone(op, ok) => ApplyWriteDone(s, op, ok)
    case SentHandled => ApplySentHandled(s)
    case Read(_, ids) => HandleAll(s, ids)
    case ReadErr(c) => ApplyReadErr(s, c)
    case Timeout(op) => ApplyTimeout(s, op)
    case Close(drained) => ApplyClose(s, drained)
  }

  function StartWriteIn(s: State, op: Op): State {
    if op in s.ops then StartWrite(s, op) else s
  }

  // ------------------------------------------------------------------ runs

  /** A run from the start: every step is enabled where it is taken. */
  predicate Run(conn: Conn, steps: seq<Step>)
    decreases |steps|, 0
  {
    steps == [] || (var before := steps[..|steps| - 1];
                    Run(conn, before) && Enabled(After(conn, before), steps[|steps| - 1]))
  }

  function After(conn: Conn, steps: seq<Step>): State
    requires Run(conn, steps)
    decreases |steps|, 1
  {
    if steps == [] then Initial(conn) else Apply(After(conn, steps[..|steps| - 1]), steps[|steps| - 1])
  }

  // ------------------------------------------------------------------ the invariant

  /** An id's place in the order of issue, while there was no wrap-around past the first. */
  function Ordinal(id: Id): nat {
    if id == 0 then ID_SPACE else id
  }

  predicate NoDup(ids: seq<Id>) {
    forall i, j :: 0 <= i < j < |ids| ==> ids[i] != ids[j]
  }

  predicate Active(p: Phase) {
    p == Checking || p == Writing || p.Sent?
  }

  /** Ids belong to one request each. */
  predicate IdsOk(s: State) {
    && (forall id :: id in s.owner ==> id < ID_SPACE && Ordinal(id) <= s.issued)
    && (forall op, id :: op in s.ops && id in s.ops[op].ids ==> id in s.owner && s.owner[id] == op)
    && (forall op :: op in s.ops ==> NoDup(s.ops[op].ids))
    && (forall id :: id in s.exposed ==> id in s.owner)
    && (forall id :: id in s.respWait ==> s.respWait[id] in s.ops)
    && (forall op :: op in s.cut ==> op in s.ops)
  }

  /** The send lock: it is held while there is a last request, which is the only one between
      acceptance and completion; `reqSent` holds its result once it has one, and nothing else. */
  predicate LockOk(s: State) {
    && !s.nilOp
    && (s.locked <==> s.lastOp.Some?)
    && (s.lastOp.Some? ==> s.lastOp.value in s.ops && Active(s.ops[s.lastOp.value].phase))
    && (forall op :: op in s.ops && Active(s.ops[op].phase) ==> s.lastOp == Some(op))
    && s.reqSent == (if s.lastOp.Some? &&
      s.ops[s.lastOp.value].phase.Sent? then [s.ops[s.lastOp.value].phase.ok] else [])
  }

  /** The connections: senders and dispatch agree, and the current connection is read by the
      only read loop, unless it is closed. */
  predicate ConnOk(s: State) {
    && (s.writeConn.Some? ==> s.writeConn.value == s.conn)
    && s.readers == (if s.reading then {s.conn} else {})
    && (s.reading <==> s.conn !in s.closedConns)
    && (!s.running ==> !s.reading)
  }

  /** The ids under which a request waits. */
  function Waiting(w: map<Id, Op>, op: Op): set<Id> {
    set id | id in w && w[id] == op
  }

  /** What the state says about one request: the request, its ids that the peer may have seen,
      those under which it waits, and whether it was cut off. */
  datatype View = View(r: Request, seen: set<Id>, waiting: set<Id>, reading: bool, running: bool, cut: bool)

  function ViewOf(s: State, op: Op): View
    requires op in s.ops
  {
    View(s.ops[op], Elements(s.ops[op].ids) * s.exposed, Waiting(s.respWait, op), s.reading, s.running, op in s.cut)
  }

  /** The channel: answers at most once for each id, and never used after it was closed. */
  predicate ChannelOk(v: View) {
    && NoDup(v.r.answered) && Elements(v.r.answered) <= v.seen <= Elements(v.r.ids)
    && !v.r.resp.misused && v.r.resp.closes <= 1
    && v.r.resp.sent == (if v.r.isSub then [] else v.r.answered)
    && (v.r.isSub ==> |v.r.ids| <= 1 && (v.r.answered != [] ==> v.r.resp.closes == 1))
  }

  predicate PhaseOk(v: View) {
    && (v.r.phase == Draft || v.r.phase == Checking ==> v.seen == {})
    && (v.r.phase == Draft || (v.r.phase == Checking && v.running) ==> v.r.resp.closes == 0)
    && (Active(v.r.phase) && v.running && v.r.resp.closes > 0 ==> Elements(v.r.ids) <= Elements(v.r.answered))
    && (v.r.timedOut ==> v.r.phase == Sent(true) || v.r.phase == Done(true))
  }

  /** An id that waits has no answer yet, and its request is still open and not given up. */
  predicate WaitOk(v: View) {
    && v.waiting <= Elements(v.r.ids) && v.waiting !! Elements(v.r.answered)
    && (v.waiting != {} ==>
          v.r.resp.closes == 0 && !v.r.timedOut && v.r.phase != Draft && v.r.phase != Done(false) &&
          (v.reading || v.r.phase == Checking || v.r.phase == Sent(false)))
  }

  /** The write has not failed; it is past the check, or the check cannot fail for want of a
      connection. */
  predicate Expecting(v: View) {
    (v.r.phase == Checking && v.reading) || v.r.phase == Writing || v.r.phase == Sent(true) || v.r.phase == Done(true)
  }

  /** Nothing is forgotten: every answer that is missing is waited for, unless the request was
      closed, given up or cut off. */
  predicate KeptOk(v: View) {
    Expecting(v) && v.r.resp.closes == 0 && !v.r.timedOut && !v.cut ==>
      Elements(v.r.ids) <= Elements(v.r.answered) + v.waiting
  }

  /** A request that was cut off lacks an answer, is not waited for and is not closed. */
  predicate CutOk(v: View) {
    v.cut ==>
      !(Elements(v.r.ids) <= Elements(v.r.answered)) && v.r.resp.closes == 0 && v.waiting == {} &&
      (v.r.phase == Writing || v.r.phase.Sent? || v.r.phase.Done?)
  }

  predicate ViewOk(v: View) {
    ChannelOk(v) && PhaseOk(v) && WaitOk(v) && KeptOk(v) && CutOk(v)
  }

  predicate ViewsOk(s: State) {
    forall op :: op in s.ops ==> ViewOk(ViewOf(s, op))
  }

  predicate Inv(s: State) {
    IdsOk(s) && LockOk(s) && ConnOk(s) && ViewsOk(s)
  }

  // ------------------------------------------------------------------ one request at a time

  lemma ViewAccept(v: View)
    requires ViewOk(v) && v.r.phase == Draft && v.waiting == {}
    ensures ViewOk(v.(r := v.r.(phase := Checking), waiting := Elements(v.r.ids)))
  {
  }

  lemma ViewWrite(v: View)
    requires ViewOk(v) && v.r.phase == Checking && v.reading
    ensures ViewOk(v.(r := v.r.(phase := Writing), seen := Elements(v.r.ids)))
  {
  }

  lemma ViewRegistered(v: View)
    requires ViewOk(v) && v.r.phase == Checking && v.running
    ensures ViewOk(v.(waiting := Elements(v.r.ids), reading := true))
  {
  }

  lemma ViewSent(v: View, ok: bool)
    requires ViewOk(v) && (v.r.phase == Writing || (v.r.phase == Checking && !ok))
    ensures ViewOk(v.(r := v.r.(phase := Sent(ok))))
  {
  }

  lemma ViewDone(v: View)
    requires ViewOk(v) && v.r.phase.Sent?
    ensures ViewOk(v.(r := v.r.(phase := Done(v.r.phase.ok)), waiting := if v.r.phase.ok then v.waiting else {}))
  {
  }

  lemma ViewRespond(v: View, id: Id)
    requires ViewOk(v) && id in v.waiting && id in v.seen && v.reading
    ensures ViewOk(v.(r := Respond(v.r, id), waiting := v.waiting - {id}))
  {
    var u := v.(r := Respond(v.r, id), waiting := v.waiting - {id});
    assert u.r.answered == v.r.answered + [id];
    assert Elements(u.r.answered) == Elements(v.r.answered) + {id};
    if v.r.isSub {
      OneElement(v.r.ids, id);
    }
  }

  lemma OneElement(ids: seq<Id>, id: Id)
    requires |ids| <= 1 && id in ids
    ensures Elements(ids) == {id}
  {
  }

  /** A read error or a reconnect closes a request that waits and is not in flight. */
  lemma ViewClosed(v: View)
    requires ViewOk(v) && v.waiting != {} && !Active(v.r.phase)
    ensures ViewOk(v.(r := v.r.(resp := v.r.resp.Close()), waiting := {}, reading := false))
  {
  }

  lemma ViewIdle(v: View)
    requires ViewOk(v) && v.waiting == {}
    ensures ViewOk(v.(reading := false)) && ViewOk(v.(reading := false, running := false))
  {
  }

  lemma ViewTimeout(v: View)
    requires ViewOk(v) && (v.r.phase == Sent(true) || v.r.phase == Done(true))
    ensures ViewOk(v.(r := v.r.(timedOut := true), waiting := {}))
  {
  }

  lemma ViewStopped(v: View)
    requires ViewOk(v) && v.waiting != {}
    ensures ViewOk(v.(r := v.r.(resp := v.r.resp.Close()), waiting := {}, reading := false, running := false))
  {
  }

  lemma AnsweredIsSubset(r: Request)
    ensures Answered(r) <==> Elements(r.ids) <= Elements(r.answered)
  {
    if Elements(r.ids) <= Elements(r.answered) {
      forall id | id in r.ids
        ensures id in r.answered
      {
        assert id in Elements(r.ids);
      }
    }
  }

  predicate CutsView(v: View) {
    !(Elements(v.r.ids) <= Elements(v.r.answered)) && (v.r.phase == Writing || v.r.phase == Sent(true))
  }

  /** A read error while this request is in flight. */
  lemma ViewDropped(v: View)
    requires ViewOk(v) && Active(v.r.phase) && v.reading && v.running
    ensures ViewOk(v.(waiting := {}, reading := false, cut := v.cut || CutsView(v)))
  {
  }

  // ------------------------------------------------------------------ every step keeps the views

  /** Nothing about any other request changes. */
  predicate Others(s: State, t: State, op: Op) {
    forall o :: o in t.ops && o != op ==> o in s.ops && ViewOf(t, o) == ViewOf(s, o)
  }

  lemma ViewsFrom(s: State, t: State, op: Op)
    requires ViewsOk(s) && Others(s, t, op) && (op in t.ops ==> ViewOk(ViewOf(t, op)))
    ensures ViewsOk(t)
  {
    hide ViewOk, ViewOf;
  }

  lemma NewOpViews(s: State, op: Op, isSub: bool)
    requires IdsOk(s) && ViewsOk(s) && op !in s.ops
    ensures ViewsOk(Apply(s, NewOp(op, isSub)))
  {
    var t := Apply(s, NewOp(op, isSub));
    NoElements([]);
    assert Waiting(s.respWait, op) == {};
    assert ViewOk(ViewOf(t, op));
    hide ViewOk;
    assert Others(s, t, op);
    ViewsFrom(s, t, op);
  }

  lemma NoElements(ids: seq<Id>)
    ensures Elements(ids) == {} <==> ids == []
  {
    if ids != [] {
      assert ids[0] in Elements(ids);
    }
  }

  lemma DraftIsIdle(v: View)
    requires ViewOk(v) && v.r.phase == Draft
    ensures v.waiting == {} && v.seen == {} && v.r.resp.closes == 0 && !v.r.timedOut && !v.cut && v.r.answered == []
  {
    NoElements(v.r.answered);
  }

  lemma TakeIdViews(s: State, op: Op)
    requires IdsOk(s) && ViewsOk(s) && Enabled(s, TakeId(op)) && NextId(s.issued) !in s.owner
    ensures ViewsOk(ApplyTakeId(s, op))
  {
    hide ViewOk;
    var t := ApplyTakeId(s, op);
    var v := ViewOf(s, op);
    var id := NextId(s.issued);
    assert ViewOk(v);
    DraftIsIdle(v);
    assert ViewOf(t, op).seen == {};
    ViewTakeId(v, id);
    assert ViewOf(t, op) == v.(r := v.r.(ids := v.r.ids + [id]));
    assert Others(s, t, op);
    ViewsFrom(s, t, op);
  }

  lemma ViewTakeId(v: View, id: Id)
    requires ViewOk(v) && v.r.phase == Draft && (v.r.isSub ==> v.r.ids == [])
    ensures ViewOk(v.(r := v.r.(ids := v.r.ids + [id])))
  {
    DraftIsIdle(v);
  }

  lemma AcceptViews(s: State, op: Op)
    requires IdsOk(s) && ViewsOk(s) && InPhase(s, op, Draft)
    ensures ViewsOk(ApplyAccept(s, op))
  {
    hide ViewOk;
    var t := ApplyAccept(s, op);
    var v := ViewOf(s, op);
    DraftIsIdle(v);
    ViewAccept(v);
    AddWaiting(s.respWait, s.ops[op].ids, op, op);
    assert Waiting(t.respWait, op) == Elements(v.r.ids);
    assert ViewOf(t, op) == v.(r := v.r.(phase := Checking), waiting := Elements(v.r.ids));
    forall o | o in t.ops && o != op
      ensures ViewOf(t, o) == ViewOf(s, o)
    {
      WaitingElsewhere(s, op, o);
      AddWaiting(s.respWait, s.ops[op].ids, op, o);
    }
    ViewsFrom(s, t, op);
  }

  /** Adding and removing ids changes nothing but the waiting under them. */
  lemma AddWaiting(w: map<Id, Op>, ids: seq<Id>, op: Op, o: Op)
    ensures Waiting(AddIds(w, ids, op), o) ==
      if o == op then Waiting(w, o) + Elements(ids) else Waiting(w, o) - Elements(ids)
  {
  }

  lemma RemoveWaiting(w: map<Id, Op>, ids: seq<Id>, o: Op)
    ensures Waiting(RemoveIds(w, ids), o) == Waiting(w, o) - Elements(ids)
  {
  }

  /** Another request does not wait under this one's ids. */
  lemma WaitingElsewhere(s: State, op: Op, o: Op)
    requires IdsOk(s) && ViewsOk(s) && op in s.ops && o in s.ops && o != op
    ensures Waiting(s.respWait, o) !! Elements(s.ops[op].ids) && Elements(s.ops[o].ids) !! Elements(s.ops[op].ids)
  {
    assert ViewOk(ViewOf(s, o));
    assert Waiting(s.respWait, o) <= Elements(s.ops[o].ids);
    forall id | id in Elements(s.ops[o].ids)
      ensures id !in Elements(s.ops[op].ids)
    {
      assert s.owner[id] == o;
    }
  }

  lemma StartWriteViews(s: State, op: Op)
    requires IdsOk(s) && ViewsOk(s) && InPhase(s, op, Checking) && s.reading
    ensures ViewsOk(StartWrite(s, op))
  {
    hide ViewOk;
    var t := StartWrite(s, op);
    var v := ViewOf(s, op);
    ViewWrite(v);
    assert ViewOf(t, op).seen == Elements(s.ops[op].ids);
    forall o | o in t.ops && o != op
      ensures ViewOf(t, o) == ViewOf(s, o)
    {
      WaitingElsewhere(s, op, o);
      assert ViewOf(t, o).seen == ViewOf(s, o).seen;
    }
    ViewsFrom(s, t, op);
  }

  lemma WriteDoneViews(s: State, op: Op, ok: bool)
    requires ViewsOk(s) && Enabled(s, WriteDone(op, ok))
    ensures ViewsOk(ApplyWriteDone(s, op, ok))
  {
    hide ViewOk;
    var t := ApplyWriteDone(s, op, ok);
    ViewSent(ViewOf(s, op), ok);
    assert Others(s, t, op);
    ViewsFrom(s, t, op);
  }

  lemma SentHandledViews(s: State, op: Op)
    requires IdsOk(s) && ViewsOk(s) && s.lastOp == Some(op) && op in s.ops && s.ops[op].phase.Sent? &&
      s.reqSent == [s.ops[op].phase.ok]
    ensures ViewsOk(ApplySentHandled(s))
  {
    hide ViewOk;
    var t := ApplySentHandled(s);
    var v := ViewOf(s, op);
    ViewDone(v);
    WaitsOnOwn(v);
    RemoveWaiting(s.respWait, s.ops[op].ids, op);
    assert !s.reqSent[0] ==> Waiting(t.respWait, op) == {};
    assert ViewOf(t, op) == v.(r := v.r.(phase := Done(v.r.phase.ok)),
      waiting := if v.r.phase.ok then v.waiting else {});
    forall o | o in t.ops && o != op
      ensures ViewOf(t, o) == ViewOf(s, o)
    {
      WaitingElsewhere(s, op, o);
      RemoveWaiting(s.respWait, s.ops[op].ids, o);
    }
    ViewsFrom(s, t, op);
  }

  lemma WaitsOnOwn(v: View)
    requires ViewOk(v)
    ensures v.waiting <= Elements(v.r.ids)
  {
  }

  lemma HandleResponseViews(s: State, id: Id)
    requires IdsOk(s) && ViewsOk(s) && s.reading && (id in s.exposed || id !in s.respWait)
    ensures ViewsOk(HandleResponse(s, id))
  {
    hide ViewOk;
    var t := HandleResponse(s, id);
    if id in s.respWait {
      var op := s.respWait[id];
      var v := ViewOf(s, op);
      WaitsOnOwn(v);
      assert Waiting(t.respWait, op) == Waiting(s.respWait, op) - {id};
      assert id in v.waiting;
      ViewRespond(v, id);
      forall o | o in t.ops && o != op
        ensures ViewOf(t, o) == ViewOf(s, o)
      {
        assert Waiting(t.respWait, o) == Waiting(s.respWait, o);
      }
      ViewsFrom(s, t, op);
    }
  }

  lemma TimeoutViews(s: State, op: Op)
    requires IdsOk(s) && ConnOk(s) && ViewsOk(s) && Enabled(s, Timeout(op))
    ensures ViewsOk(ApplyTimeout(s, op))
  {
    hide ViewOk;
    var t := ApplyTimeout(s, op);
    var v := ViewOf(s, op);
    ViewTimeout(v);
    WaitsOnOwn(v);
    if !s.running { StoppedWait(v); }
    RemoveWaiting(s.respWait, s.ops[op].ids, op);
    assert Waiting(t.respWait, op) == {};
    forall o | o in t.ops && o != op
      ensures ViewOf(t, o) == ViewOf(s, o)
    {
      WaitingElsewhere(s, op, o);
      RemoveWaiting(s.respWait, s.ops[op].ids, o);
    }
    ViewsFrom(s, t, op);
  }

  /** Without a read loop only a request in flight can wait. */
  lemma StoppedWait(v: View)
    requires ViewOk(v) && !v.reading
    ensures v.waiting == {} || v.r.phase == Checking || v.r.phase == Sent(false)
  {
  }

  lemma WaitsIsWaiting(w: map<Id, Op>, op: Op)
    ensures Waits(w, op) <==> Waiting(w, op) != {}
  {
    if Waits(w, op) {
      var id :| id in w && w[id] == op;
      assert id in Waiting(w, op);
    }
  }

  /** What cancelling does to one request. */
  lemma ReadErrViews(s: State, c: Conn)
    requires IdsOk(s) && LockOk(s) && ViewsOk(s) && s.reading && s.running
    ensures ViewsOk(ApplyReadErr(s, c))
  {
    hide ViewOk;
    var t := ApplyReadErr(s, c);
    forall o | o in t.ops
      ensures ViewOk(ViewOf(t, o))
    {
      var v := ViewOf(s, o);
      assert Waiting(t.respWait, o) == {};
      WaitsIsWaiting(s.respWait, o);
      if s.lastOp == Some(o) {
        ViewDropped(v);
        AnsweredIsSubset(s.ops[o]);
        assert ViewOf(t, o) == v.(waiting := {}, reading := false, cut := v.cut || CutsView(v));
      } else if v.waiting != {} {
        ViewClosed(v);
        assert ViewOf(t, o) == v.(r := v.r.(resp := v.r.resp.Close()), waiting := {}, reading := false);
      } else {
        ViewIdle(v);
        assert ViewOf(t, o) == v.(reading := false);
      }
    }
  }

  lemma CloseViews(s: State, drained: Conn)
    requires IdsOk(s) && LockOk(s) && ViewsOk(s)
    ensures ViewsOk(ApplyClose(s, drained))
  {
    hide ViewOk;
    var t := ApplyClose(s, drained);
    forall o | o in t.ops
      ensures ViewOk(ViewOf(t, o))
    {
      var v := ViewOf(s, o);
      WaitsIsWaiting(s.respWait, o);
      if !s.reading {
        ViewQuits(v);
        assert ViewOf(t, o) == v.(running := false);
      } else {
        assert Waiting(t.respWait, o) == {};
        if v.waiting != {} {
          ViewStopped(v);
          assert ViewOf(t, o) == v.(r := v.r.(resp := v.r.resp.Close()), waiting := {}, reading := false,
            running := false);
        } else {
          ViewIdle(v);
          assert ViewOf(t, o) == v.(reading := false, running := false);
        }
      }
    }
  }

  lemma ViewQuits(v: View)
    requires ViewOk(v)
    ensures ViewOk(v.(running := false))
  {
  }

  lemma ReconnectedViews(s: State, op: Op, next: Conn, drained: Conn)
    requires IdsOk(s) && LockOk(s) && ViewsOk(s) && s.running && InPhase(s, op, Checking) && s.lastOp == Some(op)
    ensures ViewsOk(Reconnected(s, next, drained))
  {
    hide ViewOk;
    var t := Reconnected(s, next, drained);
    assert t.respWait == AddIds(map[], s.ops[op].ids, op);
    forall o | o in t.ops
      ensures ViewOk(ViewOf(t, o))
    {
      var v := ViewOf(s, o);
      AddWaiting(map[], s.ops[op].ids, op, o);
      WaitsIsWaiting(s.respWait, o);
      if o == op {
        ViewRegistered(v);
        assert Waiting(t.respWait, op) == Elements(v.r.ids);
        assert ViewOf(t, op) == v.(waiting := Elements(v.r.ids), reading := true);
      } else {
        assert Waiting(t.respWait, o) == {};
        if v.waiting != {} && s.reading {
          ViewMoved(v);
          assert ViewOf(t, o) == v.(r := v.r.(resp := v.r.resp.Close()), waiting := {}, reading := true);
        } else {
          ViewStays(v);
          assert ViewOf(t, o) == v.(reading := true);
        }
      }
    }
  }

  lemma ViewMoved(v: View)
    requires ViewOk(v) && v.waiting != {} && !Active(v.r.phase)
    ensures ViewOk(v.(r := v.r.(resp := v.r.resp.Close()), waiting := {}, reading := true))
  {
  }

  lemma ViewStays(v: View)
    requires ViewOk(v) && !Active(v.r.phase) && (v.reading ==> v.waiting == {})
    ensures v.waiting == {} && ViewOk(v.(reading := true))
  {
  }

  // ------------------------------------------------------------------ every step keeps the rest

  lemma FreshId(s: State)
    requires IdsOk(s) && s.issued < ID_SPACE
    ensures NextId(s.issued) !in s.owner
  {
    assert Ordinal(NextId(s.issued)) == s.issued + 1;
  }

  lemma TakeIdIds(s: State, op: Op)
    requires IdsOk(s) && op in s.ops && s.issued < ID_SPACE
    ensures IdsOk(ApplyTakeId(s, op))
  {
    FreshId(s);
    var t := ApplyTakeId(s, op);
    var id := NextId(s.issued);
    assert t.ops[op].ids == s.ops[op].ids + [id];
    assert id !in s.ops[op].ids;
    assert NoDup(t.ops[op].ids);
  }

  lemma TakeIdLock(s: State, op: Op)
    requires LockOk(s) && op in s.ops
    ensures LockOk(ApplyTakeId(s, op))
  {
  }

  lemma AcceptRest(s: State, op: Op)
    requires IdsOk(s) && LockOk(s) && Enabled(s, Accept(op))
    ensures IdsOk(ApplyAccept(s, op)) && LockOk(ApplyAccept(s, op))
  {
  }

  lemma StartWriteRest(s: State, op: Op)
    requires IdsOk(s) && LockOk(s) && InPhase(s, op, Checking)
    ensures IdsOk(StartWrite(s, op)) && LockOk(StartWrite(s, op))
  {
  }

  lemma WriteDoneRest(s: State, op: Op, ok: bool)
    requires IdsOk(s) && LockOk(s) && Enabled(s, WriteDone(op, ok))
    ensures IdsOk(ApplyWriteDone(s, op, ok)) && LockOk(ApplyWriteDone(s, op, ok))
  {
  }

  lemma SentHandledRest(s: State)
    requires IdsOk(s) && LockOk(s) && s.reqSent != []
    ensures IdsOk(ApplySentHandled(s)) && LockOk(ApplySentHandled(s))
  {
  }

  lemma HandleResponseRest(s: State, id: Id)
    requires IdsOk(s) && LockOk(s)
    ensures IdsOk(HandleResponse(s, id)) && LockOk(HandleResponse(s, id))
  {
  }

  lemma ConnCloseRest(s: State, inflight: Option<Op>)
    requires IdsOk(s) && LockOk(s)
    ensures IdsOk(ConnClose(s, inflight)) && LockOk(ConnClose(s, inflight))
  {
    CancelledKeeps(s.ops, s.respWait, inflight);
    hide Cancelled;
    ConnCloseIds(s, inflight);
  }

  /** Cancelling changes neither ids nor phases. */
  lemma CancelledKeeps(ops: map<Op, Request>, w: map<Id, Op>, inflight: Option<Op>)
    ensures var after := Cancelled(ops, w, inflight);
      after.Keys == ops.Keys && forall o :: o in ops ==> after[o].ids == ops[o].ids && after[o].phase == ops[o].phase
  {
    hide Waits;
  }

  lemma ConnCloseIds(s: State, inflight: Option<Op>)
    requires IdsOk(s)
    ensures IdsOk(ConnClose(s, inflight))
  {
    CancelledKeeps(s.ops, s.respWait, inflight);
    hide Cancelled;
    var t := ConnClose(s, inflight);
    assert forall o :: o in t.ops ==> o in s.ops;
  }

  /** Neither part depends on the connections. */
  lemma ConnRest(s: State, t: State)
    requires IdsOk(s) && LockOk(s) && t == s.(reading := t.reading, running := t.running, readers := t.readers,
      conn := t.conn, writeConn := t.writeConn, closedConns := t.closedConns)
    ensures IdsOk(t) && LockOk(t)
  {
  }

  lemma ReadErrRest(s: State, c: Conn)
    requires IdsOk(s) && LockOk(s)
    ensures IdsOk(ApplyReadErr(s, c)) && LockOk(ApplyReadErr(s, c))
  {
    hide Cancelled;
    var u := ConnClose(s, s.lastOp);
    ConnCloseRest(s, s.lastOp);
    var cut := if s.lastOp.Some? && Cuts(s, s.lastOp.value) then {s.lastOp.value} else {};
    ConnRest(u, u.(reading := false, readers := s.readers - {c}));
    CutRest(u.(reading := false, readers := s.readers - {c}), s.cut + cut);
  }

  lemma CutRest(s: State, cut: set<Op>)
    requires IdsOk(s) && LockOk(s) && forall o :: o in cut ==> o in s.ops
    ensures IdsOk(s.(cut := cut)) && LockOk(s.(cut := cut))
  {
  }

  lemma TimeoutRest(s: State, op: Op)
    requires IdsOk(s) && LockOk(s) && op in s.ops
    ensures IdsOk(ApplyTimeout(s, op)) && LockOk(ApplyTimeout(s, op))
  {
  }

  lemma CloseRest(s: State, drained: Conn)
    requires IdsOk(s) && LockOk(s)
    ensures IdsOk(ApplyClose(s, drained)) && LockOk(ApplyClose(s, drained))
  {
    ConnCloseRest(s, None);
    hide IdsOk, LockOk, Cancelled;
    ConnRest(if s.reading then ConnClose(s, None) else s, ApplyClose(s, drained));
  }

  lemma ReconnectedRest(s: State, next: Conn, drained: Conn)
    requires IdsOk(s) && LockOk(s) && s.lastOp.Some?
    ensures IdsOk(Reconnected(s, next, drained)) && LockOk(Reconnected(s, next, drained))
  {
    ConnCloseRest(s, s.lastOp);
    var t := if s.reading then ConnClose(s, s.lastOp) else s;
    var u := Reconnected(s, next, drained);
    assert s.lastOp.value in t.ops;
    hide IdsOk, LockOk, Cancelled;
    ConnRest(t, u.(respWait := t.respWait));
    WaitRest(u.(respWait := t.respWait), s.lastOp.value);
    assert u == u.(respWait := t.respWait).(respWait := AddIds(map[], u.ops[s.lastOp.value].ids, s.lastOp.value));
  }

  lemma WaitRest(s: State, op: Op)
    requires IdsOk(s) && LockOk(s) && op in s.ops
    ensures var u := s.(respWait := AddIds(map[], s.ops[op].ids, op)); IdsOk(u) && LockOk(u)
  {
  }

  // ------------------------------------------------------------------ whole runs

  lemma {:induction false} HandleAllInv(s: State, ids: seq<Id>)
    requires Inv(s) && s.reading && (forall id :: id in ids ==> id in s.exposed || id !in s.respWait)
    ensures Inv(HandleAll(s, ids))
    ensures HandleAll(s, ids).respWait.Keys <= s.respWait.Keys
    ensures var t := HandleAll(s, ids); t == s.(ops := t.ops, respWait := t.respWait) && t.ops.Keys == s.ops.Keys
  {
    hide IdsOk, LockOk, ViewsOk;
    if ids != [] {
      var before := ids[..|ids| - 1];
      HandleAllInv(s, before);
      var t := HandleAll(s, before);
      HandleResponseViews(t, ids[|ids| - 1]);
      HandleResponseRest(t, ids[|ids| - 1]);
    }
  }

  /** A sender between acceptance and completion holds the lock: dispatch's last request is
      its own. */
  lemma LockHolder(s: State, op: Op)
    requires LockOk(s) && op in s.ops && Active(s.ops[op].phase)
    ensures s.locked && s.lastOp == Some(op)
  {
  }

  lemma ReconnectedConn(s: State, op: Op, next: Conn, drained: Conn)
    requires ConnOk(s) && Enabled(s, Reconnect(op, next, drained)) && s.lastOp == Some(op)
    ensures var t := Reconnected(s, next, drained);
      ConnOk(t) && InPhase(t, op, Checking) && t.reading && t.running && t.ops[op].ids == s.ops[op].ids
  {
    hide AddIds, Waits;
  }

  lemma ReconnectInv(s: State, op: Op, next: Conn, drained: Conn)
    requires Inv(s) && Enabled(s, Reconnect(op, next, drained))
    ensures Inv(StartWriteIn(Reconnected(s, next, drained), op))
  {
    LockHolder(s, op);
    hide IdsOk, LockOk, ViewsOk, Reconnected;
    ReconnectedConn(s, op, next, drained);
    ReconnectedViews(s, op, next, drained);
    ReconnectedRest(s, next, drained);
    var t := Reconnected(s, next, drained);
    StartWriteViews(t, op);
    StartWriteRest(t, op);
  }

  lemma NewOpInv(s: State, op: Op, isSub: bool)
    requires Inv(s) && op !in s.ops
    ensures Inv(Apply(s, NewOp(op, isSub)))
  {
    hide IdsOk, LockOk, ViewsOk;
    NewOpViews(s, op, isSub);
    NewOpRest(s, op, isSub);
  }

  lemma NewOpRest(s: State, op: Op, isSub: bool)
    requires IdsOk(s) && LockOk(s) && op !in s.ops
    ensures var t := Apply(s, NewOp(op, isSub)); IdsOk(t) && LockOk(t)
  {
  }

  lemma BurnIdInv(s: State)
    requires Inv(s)
    ensures Inv(s.(issued := s.issued + 1))
  {
    var t := s.(issued := s.issued + 1);
    hide ViewOk;
    assert forall op :: op in s.ops ==> ViewOf(t, op) == ViewOf(s, op);
  }

  lemma TakeIdInv(s: State, op: Op)
    requires Inv(s) && Enabled(s, TakeId(op)) && s.issued < ID_SPACE
    ensures Inv(ApplyTakeId(s, op))
  {
    FreshId(s);
    hide IdsOk, LockOk, ViewsOk;
    TakeIdViews(s, op);
    TakeIdIds(s, op);
    TakeIdLock(s, op);
  }

  lemma AcceptInv(s: State, op: Op)
    requires Inv(s) && Enabled(s, Accept(op))
    ensures Inv(ApplyAccept(s, op))
  {
    hide IdsOk, LockOk, ViewsOk;
    AcceptViews(s, op);
    AcceptRest(s, op);
  }

  lemma CheckOkInv(s: State, op: Op)
    requires Inv(s) && Enabled(s, CheckOk(op))
    ensures Inv(StartWrite(s, op))
  {
    hide IdsOk, LockOk, ViewsOk;
    StartWriteViews(s, op);
    StartWriteRest(s, op);
  }

  lemma WriteDoneInv(s: State, op: Op, ok: bool)
    requires Inv(s) && Enabled(s, WriteDone(op, ok))
    ensures Inv(ApplyWriteDone(s, op, ok))
  {
    hide IdsOk, LockOk, ViewsOk;
    WriteDoneViews(s, op, ok);
    WriteDoneRest(s, op, ok);
  }

  lemma SentHandledInv(s: State)
    requires Inv(s) && s.reqSent != []
    ensures Inv(ApplySentHandled(s))
  {
    SentHandledViews(s, s.lastOp.value);
    SentHandledRest(s);
    hide IdsOk, LockOk, ViewsOk;
  }

  lemma ReadErrInv(s: State, c: Conn)
    requires Inv(s) && Enabled(s, ReadErr(c))
    ensures Inv(ApplyReadErr(s, c))
  {
    hide IdsOk, LockOk, ViewsOk, Cancelled;
    ReadErrViews(s, c);
    ReadErrRest(s, c);
  }

  lemma TimeoutInv(s: State, op: Op)
    requires Inv(s) && Enabled(s, Timeout(op))
    ensures Inv(ApplyTimeout(s, op))
  {
    hide IdsOk, LockOk, ViewsOk;
    TimeoutViews(s, op);
    TimeoutRest(s, op);
  }

  lemma CloseInv(s: State, drained: Conn)
    requires Inv(s) && Enabled(s, Close(drained))
    ensures Inv(ApplyClose(s, drained))
  {
    hide IdsOk, LockOk, ViewsOk, Cancelled;
    CloseViews(s, drained);
    CloseRest(s, drained);
  }

  lemma ReadInv(s: State, c: Conn, ids: seq<Id>)
    requires Inv(s) && Enabled(s, Read(c, ids))
    ensures Inv(HandleAll(s, ids))
  {
    hide IdsOk, LockOk, ViewsOk;
    HandleAllInv(s, ids);
  }

  /** Every step keeps the invariant, as long as no more ids were issued than there are. */
  lemma StepKeepsInv(s: State, step: Step)
    requires Inv(s) && Enabled(s, step) && Apply(s, step).issued <= ID_SPACE
    ensures Inv(Apply(s, step))
  {
    hide Inv;
    match step
    case NewOp(op, isSub) => NewOpInv(s, op, isSub);
    case TakeId(op) => TakeIdInv(s, op);
    case BurnId => BurnIdInv(s);
    case Accept(op) => AcceptInv(s, op);
    case CheckOk(op) => CheckOkInv(s, op);
    case Reconnect(op, next, drained) => ReconnectInv(s, op, next, drained);
    case WriteDone(op, ok) => WriteDoneInv(s, op, ok);
    case SentHandled => SentHandledInv(s);
    case Read(c, ids) => ReadInv(s, c, ids);
    case ReadErr(c) => ReadErrInv(s, c);
    case Timeout(op) => TimeoutInv(s, op);
    case Close(drained) => CloseInv(s, drained);
  }

  /** A reconnect issues no ids and cuts nobody off. */
  lemma ReconnectFields(s: State, op: Op, next: Conn, drained: Conn)
    ensures var t := StartWriteIn(Reconnected(s, next, drained), op); t.issued == s.issued && t.cut == s.cut
  {
    ReconnectedFields(s, next, drained);
    hide Reconnected, Elements;
  }

  lemma ReconnectedFields(s: State, next: Conn, drained: Conn)
    ensures var t := Reconnected(s, next, drained); t.issued == s.issued && t.cut == s.cut
  {
    hide Cancelled, AddIds;
  }

  /** Ids are only ever added. */
  lemma {:induction false} IssuedGrows(s: State, step: Step)
    requires Enabled(s, step)
    ensures s.issued <= Apply(s, step).issued
  {
    hide Cancelled, AddIds, RemoveIds, Elements, Cuts, Reconnected, StartWriteIn;
    match step
    case Reconnect(op, next, drained) => ReconnectFields(s, op, next, drained);
    case Read(c, ids) => HandleAllKeepsIssued(s, ids);
    case _ =>
  }

  lemma {:induction false} HandleAllKeepsIssued(s: State, ids: seq<Id>)
    ensures HandleAll(s, ids).issued == s.issued
  {
    if ids != [] {
      HandleAllKeepsIssued(s, ids[..|ids| - 1]);
    }
  }

  lemma InitialInv(conn: Conn)
    ensures Inv(Initial(conn))
  {
  }

  /** The invariant holds in every state of every run that issued at most 2^32 ids. */
  lemma {:induction false} RunKeepsInv(conn: Conn, steps: seq<Step>)
    requires Run(conn, steps) && After(conn, steps).issued <= ID_SPACE
    ensures Inv(After(conn, steps))
  {
    hide Inv, Apply, Enabled;
    if steps == [] {
      InitialInv(conn);
    } else {
      var before := steps[..|steps| - 1];
      IssuedGrows(After(conn, before), steps[|steps| - 1]);
      RunKeepsInv(conn, before);
      StepKeepsInv(After(conn, before), steps[|steps| - 1]);
    }
  }
}
