/**
 The life of one request, told by the events of a run alone: no handler, no map of waiting requests,
 no shared variables. Every request of the protocol lives exactly this life.
 */
module RpcLives {
  import opened Options
  import opened RpcProtocol
  import opened RpcGuarantees

  /** A request: its ids, where its sender is, the ids under which it waits, the ids that were answered,
      what was sent on its channel and how often that was closed, and whether its waiter has given up. */
  datatype Life = Life(ids: seq<Id>, isSub: bool, phase: Phase, waiting: set<Id>, answered: seq<Id>, sent: seq<Id>,
    closes: nat, timedOut: bool)

  /** The client: how many ids were issued, whether the connection is read, whether dispatch runs,
      whether the senders have a connection, and which connection is the current one. */
  datatype Link = Link(issued: nat, reading: bool, running: bool, writable: bool, conn: Conn)

  // ------------------------------------------------------------------ the life

  /** A response: to an id that waits it is an answer, which is passed on to a call or a batch, and for
      a subscription closes the channel. */
  function Receive(l: Life, id: Id): Life {
    if id !in l.waiting then l
    else if l.isSub then l.(waiting := l.waiting - {id}, answered := l.answered + [id], closes := l.closes + 1)
    else l.(waiting := l.waiting - {id}, answered := l.answered + [id], sent := l.sent + [id])
  }

  function ReceiveAll(l: Life, ids: seq<Id>): Life {
    if ids == [] then l else Receive(ReceiveAll(l, ids[..|ids| - 1]), ids[|ids| - 1])
  }

  /** The connection is lost: who waits is told, and waits no more. */
  function Dropped(l: Life): Life {
    if l.waiting == {} then l else l.(waiting := {}, closes := l.closes + 1)
  }

  /** What an event does to a request. */
  function LifeStep(l: Life, op: Op, k: Link, step: Step): Life {
    match step
    case TakeId(o) => if o == op then l.(ids := l.ids + [(k.issued + 1) % 0x1_0000_0000]) else l
    case Accept(o) => if o == op then l.(phase := Checking, waiting := set id | id in l.ids) else l
    case CheckOk(o) => if o == op then l.(phase := Writing) else l
    case Reconnect(o, _, _) =>
      if o == op then l.(phase := Writing, waiting := set id | id in l.ids)
      else if k.reading then Dropped(l)
      else l
    case WriteDone(o, ok) => if o == op then l.(phase := Sent(ok)) else l
    case SentHandled =>
      if l.phase == Sent(true) then l.(phase := Done(true))
      else if l.phase == Sent(false) then l.(phase := Done(false), waiting := {})
      else l
    case Read(_, ids) => ReceiveAll(l, ids)
    case ReadErr(_) => if Active(l.phase) then l.(waiting := {}) else Dropped(l)
    case Timeout(o) => if o == op then l.(timedOut := true, waiting := {}) else l
    case Close(_) => if k.reading then Dropped(l) else l
    case _ => l
  }

  /** What an event does to the client; `writing` says whether the sender was in `Write`. */
  function LinkStep(k: Link, writing: bool, step: Step): Link {
    match step
    case TakeId(_) => k.(issued := k.issued + 1)
    case BurnId => k.(issued := k.issued + 1)
    case Reconnect(_, next, _) => k.(reading := true, writable := true, conn := next)
    case WriteDone(_, ok) => if writing && !ok then k.(writable := false) else k
    case ReadErr(_) => k.(reading := false, writable := false)
    case Close(_) => k.(reading := false, running := false, writable := false)
    case _ => k
  }

  function LifeAfter(conn: Conn, steps: seq<Step>, op: Op): Option<Life>
    decreases |steps|, 0
  {
    if steps == [] then None
    else
      var before, step := steps[..|steps| - 1], steps[|steps| - 1];
      match LifeAfter(conn, before, op)
      case None =>
        if step.NewOp? && step.op == op then Some(Life([], step.isSub, Draft, {}, [], [], 0, false)) else None
      case Some(l) => Some(LifeStep(l, op, LinkAfter(conn, before), step))
  }

  function LinkAfter(conn: Conn, steps: seq<Step>): Link
    decreases |steps|, 1
  {
    if steps == [] then Link(0, true, true, true, conn)
    else
      var before, step := steps[..|steps| - 1], steps[|steps| - 1];
      var writing := step.WriteDone? && var l := LifeAfter(conn, before, step.op); l.Some? && l.value.phase == Writing;
      LinkStep(LinkAfter(conn, before), writing, step)
  }

  // ------------------------------------------------------------------ the same in the protocol

  function LifeFrom(r: Request, waiting: set<Id>): Life {
    Life(r.ids, r.isSub, r.phase, waiting, r.answered, r.resp.sent, r.resp.closes, r.timedOut)
  }

  function LifeOf(s: State, op: Op): Option<Life> {
    if op in s.ops then Some(LifeFrom(s.ops[op], Waiting(s.respWait, op))) else None
  }

  function LinkOf(s: State): Link {
    Link(s.issued, s.reading, s.running, WriteConnUsable(s), s.conn)
  }

  lemma LinkStepIs(s: State, step: Step)
    requires Inv(s) && Enabled(s, step)
    ensures LinkOf(Apply(s, step)) == LinkStep(LinkOf(s), step.WriteDone? && InPhase(s, step.op, Writing), step)
  {
    hide IdsOk, LockOk, ViewsOk, Cancelled, AddIds, RemoveIds, Elements, Cuts;
    match step
    case Read(_, ids) => HandleAllLink(s, ids);
    case Reconnect(op, next, drained) => ReconnectLink(s, op, next, drained);
    case SentHandled => SentHandledLink(s);
    case _ =>
  }

  lemma {:induction false} HandleAllLink(s: State, ids: seq<Id>)
    ensures LinkOf(HandleAll(s, ids)) == LinkOf(s)
  {
    if ids != [] {
      HandleAllLink(s, ids[..|ids| - 1]);
    }
  }

  lemma SentHandledLink(s: State)
    requires s.reqSent != []
    ensures LinkOf(ApplySentHandled(s)) == LinkOf(s)
  {
    hide RemoveIds;
    var t := ApplySentHandled(s);
    assert t.issued == s.issued && t.reading == s.reading && t.running == s.running && t.conn == s.conn;
    assert t.writeConn == s.writeConn && t.closedConns == s.closedConns;
  }

  lemma ReconnectLink(s: State, op: Op, next: Conn, drained: Conn)
    requires Enabled(s, Reconnect(op, next, drained))
    ensures LinkOf(StartWriteIn(Reconnected(s, next, drained), op)) ==
      LinkOf(s).(reading := true, writable := true, conn := next)
  {
    DropLink(s, next, drained);
    hide DropRead, AddIds, Elements;
    AttachLink(DropRead(s, drained), next);
    hide Attach;
  }

  lemma DropLink(s: State, next: Conn, drained: Conn)
    requires next != s.conn && next !in s.closedConns
    ensures var t := DropRead(s, drained); t.issued == s.issued && t.running == s.running && next !in t.closedConns
  {
    hide Cancelled;
  }

  lemma AttachLink(s: State, next: Conn)
    requires next !in s.closedConns
    ensures LinkOf(Attach(s, next)) == LinkOf(s).(reading := true, writable := true, conn := next)
  {
    hide AddIds;
  }

  // ------------------------------------------------------------------ what each event does

  lemma AcceptLife(s: State, o: Op, op: Op)
    requires Inv(s) && Enabled(s, Accept(o)) && op in s.ops
    ensures LifeOf(ApplyAccept(s, o), op) == Some(LifeStep(LifeOf(s, op).value, op, LinkOf(s), Accept(o)))
  {
    hide ViewOk, LockOk, ConnOk;
    AddWaiting(s.respWait, s.ops[o].ids, o, op);
    if o == op {
      DraftIsIdle(ViewOf(s, op));
    } else {
      WaitingElsewhere(s, o, op);
    }
    hide IdsOk, ViewsOk, AddIds;
    var t := ApplyAccept(s, o);
    assert Waiting(t.respWait, op) == if o == op then Elements(s.ops[o].ids) else Waiting(s.respWait, op);
    hide Waiting;
    assert Elements(s.ops[o].ids) == set id | id in s.ops[o].ids;
  }

  /** What closing the connection does to a request. */
  lemma CloseLife(s: State, inflight: Option<Op>, op: Op)
    requires op in s.ops
    ensures LifeOf(ConnClose(s, inflight), op) ==
      if inflight == Some(op) then Some(LifeOf(s, op).value.(waiting := {})) else Some(Dropped(LifeOf(s, op).value))
  {
    WaitsIsWaiting(s.respWait, op);
    assert Waiting(map[], op) == {};
    hide Waits, Waiting;
  }

  lemma DropLife(s: State, drained: Conn, op: Op)
    requires op in s.ops
    ensures LifeOf(DropRead(s, drained), op) ==
      if !s.reading then LifeOf(s, op)
      else if s.lastOp == Some(op) then Some(LifeOf(s, op).value.(waiting := {}))
      else Some(Dropped(LifeOf(s, op).value))
    ensures var t := DropRead(s, drained); t.lastOp == s.lastOp && t.ops.Keys == s.ops.Keys
  {
    if s.reading {
      CloseLife(s, s.lastOp, op);
      CancelledKeeps(s.ops, s.respWait, s.lastOp);
      hide Cancelled, Waiting;
    }
  }

  lemma AttachLife(s: State, next: Conn, o: Op, op: Op)
    requires s.lastOp == Some(o) && o in s.ops && op in s.ops
    ensures LifeOf(Attach(s, next), op) ==
      Some(LifeOf(s, op).value.(waiting := if o == op then Elements(s.ops[o].ids) else {}))
    ensures Attach(s, next).ops == s.ops
  {
    AddWaiting(map[], s.ops[o].ids, o, op);
    var w := AddIds(map[], s.ops[o].ids, o);
    assert Waiting(w, op) == if o == op then Elements(s.ops[o].ids) else {};
    hide AddIds, Waiting, Elements;
  }

  lemma WriteLife(s: State, o: Op, op: Op)
    requires o in s.ops && op in s.ops
    ensures LifeOf(StartWriteIn(s, o), op) ==
      if o == op then Some(LifeOf(s, op).value.(phase := Writing)) else LifeOf(s, op)
  {
    hide Waiting, Elements;
  }

  lemma ReconnectLife(s: State, o: Op, next: Conn, drained: Conn, op: Op)
    requires Inv(s) && Enabled(s, Reconnect(o, next, drained)) && op in s.ops
    ensures LifeOf(StartWriteIn(Reconnected(s, next, drained), o), op) ==
      Some(LifeStep(LifeOf(s, op).value, op, LinkOf(s), Reconnect(o, next, drained)))
  {
    LockHolder(s, o);
    if o != op && !s.reading {
      LockHolderOnly(s, o, op);
      assert ViewOk(ViewOf(s, op));
      ViewStays(ViewOf(s, op));
      assert LifeOf(s, op).value.waiting == {};
    }
    hide Inv, Waiting;
    DropLife(s, drained, op);
    DropLife(s, drained, o);
    var t := DropRead(s, drained);
    assert LifeOf(s, o).value.ids == s.ops[o].ids && LifeOf(s, op).Some?;
    hide DropRead, LifeOf;
    MovedLife(t, next, o, op, s.ops[o].ids);
  }

  lemma MovedLife(s: State, next: Conn, o: Op, op: Op, ids: seq<Id>)
    requires s.lastOp == Some(o) && o in s.ops && op in s.ops && LifeOf(s, o).value.ids == ids
    ensures var l := LifeOf(s, op).value;
      LifeOf(StartWriteIn(Attach(s, next), o), op) ==
      Some(if o == op then l.(phase := Writing, waiting := set id | id in ids) else l.(waiting := {}))
  {
    AttachLife(s, next, o, op);
    hide Attach;
    WriteLife(Attach(s, next), o, op);
    hide StartWriteIn, Waiting;
    assert Elements(ids) == set id | id in ids;
  }

  lemma LockHolderOnly(s: State, o: Op, op: Op)
    requires LockOk(s) && o in s.ops && op in s.ops && o != op && Active(s.ops[o].phase)
    ensures !Active(s.ops[op].phase)
  {
  }

  lemma SentHandledLife(s: State, op: Op)
    requires Inv(s) && s.reqSent != [] && op in s.ops
    ensures LifeOf(ApplySentHandled(s), op) == Some(LifeStep(LifeOf(s, op).value, op, LinkOf(s), SentHandled))
  {
    var o := s.lastOp.GetOr(0);
    SentIsLast(s, o);
    LastIsActive(s, op);
    hide LockOk;
    RemovedWaiting(s, o, op);
    hide Inv;
    SentHandledIs(s, o, op);
    hide ApplySentHandled, RemoveIds, Waiting;
  }

  lemma SentIsLast(s: State, o: Op)
    requires LockOk(s) && s.reqSent != [] && o == s.lastOp.GetOr(0)
    ensures s.lastOp == Some(o) && o in s.ops && s.ops[o].phase.Sent? && s.reqSent == [s.ops[o].phase.ok]
  {
  }

  lemma SentHandledIs(s: State, o: Op, op: Op)
    requires s.reqSent != [] && s.lastOp == Some(o) && o in s.ops && op in s.ops
    ensures var t, ok := ApplySentHandled(s), s.reqSent[0];
      && op in t.ops && t.ops[op] == (if o == op then s.ops[op].(phase := Done(ok)) else s.ops[op])
      && t.respWait == if ok then s.respWait else RemoveIds(s.respWait, s.ops[o].ids)
  {
    hide RemoveIds;
  }

  /** Removing the ids of a request leaves it, and nobody else, without any. */
  lemma RemovedWaiting(s: State, o: Op, op: Op)
    requires Inv(s) && o in s.ops && op in s.ops
    ensures Waiting(RemoveIds(s.respWait, s.ops[o].ids), op) == if o == op then {} else Waiting(s.respWait, op)
  {
    assert ViewOk(ViewOf(s, op));
    WaitsOnOwn(ViewOf(s, op));
    hide ViewOk;
    RemoveWaiting(s.respWait, s.ops[o].ids, op);
    if o != op {
      WaitingElsewhere(s, o, op);
    }
  }

  lemma TimeoutLife(s: State, o: Op, op: Op)
    requires Inv(s) && Enabled(s, Timeout(o)) && op in s.ops
    ensures LifeOf(ApplyTimeout(s, o), op) == Some(LifeStep(LifeOf(s, op).value, op, LinkOf(s), Timeout(o)))
  {
    if s.running {
      RemovedWaiting(s, o, op);
    } else if o == op {
      assert ViewOk(ViewOf(s, op));
      StoppedWait(ViewOf(s, op));
    }
    hide Inv, RemoveIds, Waiting, LinkOf;
  }

  /** A response that somebody waits for reaches its request, which waits for it no more; nothing else
      changes, and a response that nobody waits for changes nothing. */
  lemma ResponseLife(s: State, id: Id, op: Op)
    requires (id in s.respWait ==> s.respWait[id] in s.ops) && op in s.ops
    ensures LifeOf(HandleResponse(s, id), op) == Some(Receive(LifeOf(s, op).value, id))
  {
    var t := HandleResponse(s, id);
    assert id in Waiting(s.respWait, op) <==> id in s.respWait && s.respWait[id] == op;
    assert id in s.respWait ==> Waiting(t.respWait, op) == Waiting(s.respWait, op) - {id};
    assert id !in Waiting(s.respWait, op) ==> Waiting(s.respWait, op) - {id} == Waiting(s.respWait, op);
    hide Waiting;
  }

  lemma {:induction false} ReadLife(s: State, ids: seq<Id>, op: Op)
    requires Inv(s) && s.reading && (forall id :: id in ids ==> id in s.exposed || id !in s.respWait) && op in s.ops
    ensures LifeOf(HandleAll(s, ids), op) == Some(ReceiveAll(LifeOf(s, op).value, ids))
  {
    if ids != [] {
      var n := |ids| - 1;
      ReadLife(s, ids[..n], op);
      HandleAllInv(s, ids[..n]);
      hide LockOk, ConnOk, ViewsOk, Waiting, HandleResponse;
      ResponseLife(HandleAll(s, ids[..n]), ids[n], op);
    }
  }

  lemma ReadErrLife(s: State, c: Conn, op: Op)
    requires Inv(s) && Enabled(s, ReadErr(c)) && op in s.ops
    ensures LifeOf(ApplyReadErr(s, c), op) == Some(LifeStep(LifeOf(s, op).value, op, LinkOf(s), ReadErr(c)))
  {
    LastIsActive(s, op);
    hide Inv;
    CloseLife(s, s.lastOp, op);
    assert LifeOf(s, op).Some? && LifeOf(s, op).value.phase == s.ops[op].phase;
    hide ConnClose, Cuts, LifeOf;
    SameLife(ConnClose(s, s.lastOp), ApplyReadErr(s, c), op);
  }

  lemma LastIsActive(s: State, op: Op)
    requires LockOk(s) && op in s.ops
    ensures s.lastOp == Some(op) <==> Active(s.ops[op].phase)
  {
  }

  lemma SameLife(s: State, t: State, op: Op)
    requires t.ops == s.ops && t.respWait == s.respWait
    ensures LifeOf(t, op) == LifeOf(s, op)
  {
  }

  lemma StopLife(s: State, drained: Conn, op: Op)
    requires op in s.ops
    ensures LifeOf(ApplyClose(s, drained), op) == Some(LifeStep(LifeOf(s, op).value, op, LinkOf(s), Close(drained)))
  {
    CloseLife(s, None, op);
    hide ConnClose, Waiting;
  }

  /** Every event does to a request what its life says. */
  lemma LifeStepIs(s: State, step: Step, op: Op)
    requires Inv(s) && Enabled(s, step) && op in s.ops
    ensures LifeOf(Apply(s, step), op) == Some(LifeStep(LifeOf(s, op).value, op, LinkOf(s), step))
  {
    hide IdsOk, LockOk, ViewsOk, Waiting;
    hide ApplyAccept, Reconnected, StartWriteIn, ApplySentHandled, ApplyTimeout, HandleAll, ApplyReadErr, ApplyClose;
    match step
    case Accept(o) => AcceptLife(s, o, op);
    case Reconnect(o, next, drained) => ReconnectLife(s, o, next, drained, op);
    case SentHandled => SentHandledLife(s, op);
    case Timeout(o) => TimeoutLife(s, o, op);
    case Read(_, ids) => ReadLife(s, ids, op);
    case ReadErr(c) => ReadErrLife(s, c, op);
    case Close(drained) => StopLife(s, drained, op);
    case _ =>
  }

  // ------------------------------------------------------------------ whole runs

  /** Only its own start makes a request. */
  lemma BornOnce(s: State, step: Step, op: Op)
    requires Inv(s) && Enabled(s, step) && op !in s.ops
    ensures LifeOf(Apply(s, step), op) ==
      if step.NewOp? && step.op == op then Some(Life([], step.isSub, Draft, {}, [], [], 0, false)) else None
  {
    if step.NewOp? && step.op == op {
      assert Waiting(s.respWait, op) == {} by {
        assert IdsOk(s);
      }
    } else {
      SameRequests(s, step, op);
    }
  }

  lemma SameRequests(s: State, step: Step, op: Op)
    requires Inv(s) && Enabled(s, step) && op !in s.ops && !(step.NewOp? && step.op == op)
    ensures op !in Apply(s, step).ops
  {
    hide IdsOk, LockOk, ViewsOk, AddIds, RemoveIds, Elements, Waits, Cuts;
    match step
    case Read(_, ids) => HandleAllInv(s, ids);
    case Reconnect(o, next, drained) =>
      LockHolder(s, o);
      DropLife(s, drained, o);
      hide DropRead, LifeOf;
    case _ =>
  }

  /** In every run that has not used up the ids, every request lives the life that the events tell, and
      so does the client. */
  lemma {:induction false} LivesAsTold(conn: Conn, steps: seq<Step>, op: Op)
    requires Run(conn, steps) && After(conn, steps).issued <= ID_SPACE
    ensures LifeOf(After(conn, steps), op) == LifeAfter(conn, steps, op)
    ensures LinkOf(After(conn, steps)) == LinkAfter(conn, steps)
    decreases |steps|
  {
    if steps != [] {
      var before, step := steps[..|steps| - 1], steps[|steps| - 1];
      var s := After(conn, before);
      assert Enabled(s, step) && After(conn, steps) == Apply(s, step);
      hide Run, After, Apply, Enabled, Inv, LifeStep, LinkStep;
      IssuedGrows(s, step);
      RunKeepsInv(conn, before);
      LivesAsTold(conn, before, op);
      LinkStepIs(s, step);
      if step.WriteDone? {
        LivesAsTold(conn, before, step.op);
        assert InPhase(s, step.op, Writing) <==>
          LifeOf(s, step.op).Some? && LifeOf(s, step.op).value.phase == Writing;
      }
      if op in s.ops {
        LifeStepIs(s, step, op);
      } else {
        BornOnce(s, step, op);
      }
    }
  }

  // ------------------------------------------------------------------ answers arrive

  /** The ids of a list under which somebody waits, each where it comes first. */
  function Answers(waiting: set<Id>, ids: seq<Id>): seq<Id> {
    if ids == [] then []
    else if ids[0] in waiting then [ids[0]] + Answers(waiting - {ids[0]}, ids[1..])
    else Answers(waiting, ids[1..])
  }

  lemma {:induction false} ReceiveFirst(l: Life, ids: seq<Id>)
    requires ids != []
    ensures ReceiveAll(l, ids) == ReceiveAll(Receive(l, ids[0]), ids[1..])
    decreases |ids|
  {
    var n := |ids| - 1;
    if n > 0 {
      ReceiveFirst(l, ids[..n]);
      assert ids[..n][1..] == ids[1..][..n - 1];
    } else {
      assert ids[..0] == [] && ids[1..] == [];
    }
  }

  /** What a list of responses does to a request: in the order in which they come, it gets one answer for
      each id under which it waits, and nothing for any other. */
  lemma {:induction false} ReceivesAnswers(l: Life, ids: seq<Id>)
    ensures var got, t := Answers(l.waiting, ids), ReceiveAll(l, ids);
      && t == l.(waiting := l.waiting - Elements(ids), answered := l.answered + got,
                 sent := if l.isSub then l.sent else l.sent + got, closes := l.closes + if l.isSub then |got| else 0)
      && Elements(got) == l.waiting * Elements(ids)
    decreases |ids|
  {
    if ids == [] {
      assert Elements(ids) == {};
    } else {
      var id, tail := ids[0], ids[1..];
      ReceiveFirst(l, ids);
      ReceivesAnswers(Receive(l, id), tail);
      hide ReceiveAll;
      assert Elements(ids) == {id} + Elements(tail);
      if id in l.waiting {
        FirstAnswered(l, id, tail);
      } else {
        assert l.waiting - Elements(ids) == l.waiting - Elements(tail);
        assert l.waiting * Elements(ids) == l.waiting * Elements(tail);
      }
    }
  }

  lemma FirstAnswered(l: Life, id: Id, tail: seq<Id>)
    requires id in l.waiting
    ensures var more := Answers(l.waiting - {id}, tail);
      && l.answered + ([id] + more) == l.answered + [id] + more && l.sent + ([id] + more) == l.sent + [id] + more
      && Elements([id] + more) == {id} + Elements(more)
      && l.waiting - {id} - Elements(tail) == l.waiting - ({id} + Elements(tail))
      && {id} + (l.waiting - {id}) * Elements(tail) == l.waiting * ({id} + Elements(tail))
  {
  }

  /** Reading a batch of responses, in every reachable state: every request gets one answer for each id of
      the batch under which it waits, in order, and waits for these no more; nothing else happens to it. */
  lemma ReadDelivers(conn: Conn, steps: seq<Step>, s: State, c: Conn, ids: seq<Id>, op: Op)
    requires Reaches(conn, steps, s) && Enabled(s, Read(c, ids)) && op in s.ops
    ensures var t, got := Apply(s, Read(c, ids)), Answers(Waiting(s.respWait, op), ids);
      && op in t.ops && Waiting(t.respWait, op) == Waiting(s.respWait, op) - Elements(ids)
      && Elements(got) == Waiting(s.respWait, op) * Elements(ids)
      && t.ops[op] == s.ops[op].(resp := t.ops[op].resp, answered := s.ops[op].answered + got)
      && (!s.ops[op].isSub ==> t.ops[op].resp.sent == s.ops[op].resp.sent + got &&
                               t.ops[op].resp.closes == s.ops[op].resp.closes)
      && (s.ops[op].isSub ==> t.ops[op].resp.sent == s.ops[op].resp.sent &&
                              t.ops[op].resp.closes == s.ops[op].resp.closes + |got|)
  {
    RunKeepsInv(conn, steps);
    var l := LifeOf(s, op).value;
    ReadLife(s, ids, op);
    ReceivesAnswers(l, ids);
  }

  /** A request that is registered gets all its answers from a batch of responses that has them. */
  lemma RegisteredIsAnswered(conn: Conn, steps: seq<Step>, s: State, c: Conn, ids: seq<Id>, op: Op)
    requires Reaches(conn, steps, s) && Enabled(s, Read(c, ids)) && op in s.ops && Registered(s, op)
    requires forall id :: id in s.ops[op].ids && id !in s.ops[op].answered ==> id in ids
    ensures op in Apply(s, Read(c, ids)).ops && FullyAnswered(Apply(s, Read(c, ids)), op)
  {
    var t, got := Apply(s, Read(c, ids)), Answers(Waiting(s.respWait, op), ids);
    ReadDelivers(conn, steps, s, c, ids, op);
    HandleAllLink(s, ids);
    assert t.running == s.running;
    hide Run, After, Apply, Enabled;
    forall id | id in s.ops[op].ids
      ensures id in t.ops[op].answered
    {
      if id !in s.ops[op].answered {
        assert WaitsUnder(s, op, id);
        assert id in Waiting(s.respWait, op) * Elements(ids);
        assert id in got;
      }
    }
  }

  // ------------------------------------------------------------------ a run that answers a call

  /** The steps of a call that goes well. */
  function GoodSteps(s: State, op: Op): seq<Step>
    requires op in s.ops
  {
    [Accept(op), CheckOk(op), WriteDone(op, true), SentHandled, Read(s.conn, s.ops[op].ids)]
  }

  lemma {:induction false} AnswersAll(waiting: set<Id>, ids: seq<Id>)
    requires NoDup(ids) && Elements(ids) <= waiting
    ensures Answers(waiting, ids) == ids
  {
    if ids != [] {
      assert ids[0] in Elements(ids);
      forall id | id in Elements(ids[1..])
        ensures id in waiting - {ids[0]}
      {
        var k :| 0 <= k < |ids[1..]| && ids[1..][k] == id;
        assert ids[k + 1] == id && id in Elements(ids);
      }
      AnswersAll(waiting - {ids[0]}, ids[1..]);
      assert [ids[0]] + ids[1..] == ids;
    }
  }

  /** From its write to the handling of that. */
  lemma SentWell(t: State, op: Op)
    requires InPhase(t, op, Writing) && t.lastOp == Some(op) && t.reqSent == [] && t.running && !t.ops[op].timedOut
    ensures Enabled(t, WriteDone(op, true)) && Enabled(ApplyWriteDone(t, op, true), SentHandled)
    ensures var w := ApplySentHandled(ApplyWriteDone(t, op, true));
      && op in w.ops && w.ops[op] == t.ops[op].(phase := Done(true)) && w.respWait == t.respWait
      && w.running && w.readers == t.readers && w.exposed == t.exposed && w.issued == t.issued
  {
  }

  lemma WritesWell(s: State, op: Op)
    requires Inv(s) && Idle(s, op)
    ensures var t := StartWrite(ApplyAccept(s, op), op);
      && InPhase(t, op, Writing) && t.lastOp == Some(op) && t.reqSent == [] && t.running && s.conn in t.readers
      && t.ops[op] == s.ops[op].(phase := Writing) && !t.ops[op].timedOut && t.ops[op].answered == []
      && Elements(s.ops[op].ids) <= t.exposed && Elements(s.ops[op].ids) <= Waiting(t.respWait, op)
  {
    DraftUnanswered(s, op);
    assert s.conn in s.readers && s.reqSent == [];
    hide Inv;
    AddWaiting(s.respWait, s.ops[op].ids, op, op);
    hide AddIds, Waiting;
  }

  /** The state in which its caller waits for the answers. */
  function SentState(s: State, op: Op): State
    requires op in s.ops
  {
    var u := ApplyWriteDone(StartWrite(ApplyAccept(s, op), op), op, true);
    ApplySentHandled(u)
  }

  /** It has no answer yet, waits under all its ids, and responses to them can be read. */
  predicate AwaitsAnswers(w: State, c: Conn, op: Op, ids: seq<Id>) {
    && op in w.ops && w.ops[op].ids == ids && w.ops[op].phase == Done(true)
    && w.ops[op].answered == [] && !w.ops[op].timedOut && !w.ops[op].isSub
    && Elements(ids) <= Waiting(w.respWait, op) && Enabled(w, Read(c, ids))
  }

  lemma WaitsWell(s: State, op: Op)
    requires Inv(s) && Idle(s, op)
    ensures AwaitsAnswers(SentState(s, op), s.conn, op, s.ops[op].ids) && SentState(s, op).issued == s.issued
  {
    WritesWell(s, op);
    var t := StartWrite(ApplyAccept(s, op), op);
    assert t.issued == s.issued && !s.ops[op].isSub;
    hide Inv, Idle, StartWrite, ApplyAccept, ApplyWriteDone, ApplySentHandled, AwaitsAnswers, Waiting, Elements;
    SentWell(t, op);
    AwaitsFrom(t, ApplySentHandled(ApplyWriteDone(t, op, true)), s.conn, op, s.ops[op].ids);
  }

  lemma AwaitsFrom(t: State, w: State, c: Conn, op: Op, ids: seq<Id>)
    requires op in t.ops && t.ops[op].ids == ids && t.ops[op].answered == [] && !t.ops[op].timedOut && !t.ops[op].isSub
    requires op in w.ops && w.ops[op] == t.ops[op].(phase := Done(true)) && w.respWait == t.respWait
    requires w.running && w.readers == t.readers && w.exposed == t.exposed && c in t.readers
    requires Elements(ids) <= t.exposed && Elements(ids) <= Waiting(t.respWait, op)
    ensures AwaitsAnswers(w, c, op, ids)
  {
    hide Waiting;
    assert forall id :: id in ids ==> id in Elements(ids);
  }

  lemma GoodRun(conn: Conn, steps: seq<Step>, s: State, op: Op)
    requires Run(conn, steps) && After(conn, steps) == s && Inv(s) && Idle(s, op)
    ensures var all := steps + [Accept(op)] + [CheckOk(op)] + [WriteDone(op, true)] + [SentHandled];
      Run(conn, all) && After(conn, all) == SentState(s, op)
  {
    WritesWell(s, op);
    var t := StartWrite(ApplyAccept(s, op), op);
    SentWell(t, op);
    hide Inv, Idle, Run, After, StartWrite, ApplyAccept, ApplyWriteDone, ApplySentHandled, Waiting, Elements;
    RunStart(conn, steps, s, op);
    var start := steps + [Accept(op)] + [CheckOk(op)];
    Extend(conn, start, WriteDone(op, true));
    Extend(conn, start + [WriteDone(op, true)], SentHandled);
  }

  lemma AnsweredWell(conn: Conn, steps: seq<Step>, w: State, c: Conn, op: Op, ids: seq<Id>)
    requires Reaches(conn, steps, w) && AwaitsAnswers(w, c, op, ids)
    ensures var t := Apply(w, Read(c, ids)); op in t.ops && FullyAnswered(t, op) && t.ops[op].resp.sent == ids
  {
    hide Run, After, Inv;
    RunKeepsInv(conn, steps);
    NothingSent(w, op);
    ReadDelivers(conn, steps, w, c, ids, op);
    AnswersAll(Waiting(w.respWait, op), ids);
    hide Enabled, Waiting, Elements, Apply;
    AllAnswered(w.ops[op], Apply(w, Read(c, ids)).ops[op], ids);
  }

  lemma AllAnswered(r: Request, after: Request, ids: seq<Id>)
    requires after == r.(resp := after.resp, answered := r.answered + ids) && after.resp.sent == r.resp.sent + ids
    requires r.ids == ids && r.answered == [] && r.resp.sent == []
    ensures Answered(after) && after.resp.sent == ids
  {
    assert [] + ids == ids;
  }

  lemma NothingSent(s: State, op: Op)
    requires Inv(s) && op in s.ops && s.ops[op].answered == []
    ensures s.ops[op].resp.sent == [] && NoDup(s.ops[op].ids)
  {
    assert ViewOk(ViewOf(s, op));
  }

  /** From every state in which a sender can get in, its call can be answered: five steps are enabled one
      after the other, and then it has got exactly the answers to its ids, in their order. */
  lemma EveryCallCanBeAnswered(conn: Conn, steps: seq<Step>, s: State, op: Op)
    requires Reaches(conn, steps, s) && Idle(s, op)
    ensures var all := steps + GoodSteps(s, op);
      && Run(conn, all) && op in After(conn, all).ops
      && FullyAnswered(After(conn, all), op) && After(conn, all).ops[op].resp.sent == s.ops[op].ids
  {
    hide Run, After, Inv;
    RunKeepsInv(conn, steps);
    GoodRun(conn, steps, s, op);
    WaitsWell(s, op);
    var ids := s.ops[op].ids;
    var sent := steps + [Accept(op)] + [CheckOk(op)] + [WriteDone(op, true)] + [SentHandled];
    var w := SentState(s, op);
    assert steps + GoodSteps(s, op) == sent + [Read(s.conn, ids)];
    assert Enabled(w, Read(s.conn, ids)) by {
      hide SentState;
    }
    hide SentState, AwaitsAnswers, FullyAnswered, Idle, Apply, Enabled;
    Extend(conn, sent, Read(s.conn, ids));
    AnsweredWell(conn, sent, w, s.conn, op, ids);
  }
}
