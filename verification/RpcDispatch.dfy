/**
 The dispatch loop and the handler's maps as the code has them: variables that are updated in
 place. Every case of the loop is proved to take the state that the client shows to the state
 after the corresponding step of the protocol.
 */
module RpcDispatch {
  import opened Options
  import opened RpcProtocol

  class Client {
    var requests: map<Op, Request>   // the requestOps with their channels, by identity
    var respWait: map<Id, Op>        // of the current connection's handler
    var lastOp: Option<Op>
    var locked: bool                 // reqInitLock is nil
    var reqSent: seq<bool>           // the channel's buffer
    var idCounter: nat               // a uint32
    var writeConn: Option<Conn>      // of the sender that holds the lock
    var conn: Conn
    var closedConns: set<Conn>
    var readers: set<Conn>
    var reading: bool
    var running: bool

    /** The client's variables are those of this state. */
    ghost predicate Shows(s: State)
      reads this
    {
      requests == s.ops && respWait == s.respWait && lastOp == s.lastOp && locked == s.locked && reqSent == s.reqSent &&
      idCounter == s.issued % ID_SPACE && writeConn == s.writeConn && conn == s.conn &&
      closedConns == s.closedConns && readers == s.readers && reading == s.reading && running == s.running
    }

    constructor (codec: Conn)
      ensures Shows(Initial(codec))
    {
      requests, respWait, lastOp, locked, reqSent := map[], map[], None, false, [];
      idCounter, writeConn := 0, Some(codec);
      conn, closedConns, readers, reading, running := codec, {}, {codec}, true, true;
    }

    // ---------------------------------------------------------------- handler.go

    method AddRequestOp(op: Op)
      requires op in requests
      modifies this`respWait
      ensures respWait == AddIds(old(respWait), requests[op].ids, op)
    {
      hide AddIds;
      var ids := requests[op].ids;
      var i := 0;
      AddNone(respWait, op);
      while i < |ids|
        invariant 0 <= i <= |ids|
        invariant respWait == AddIds(old(respWait), ids[..i], op)
      {
        AddOne(old(respWait), ids[..i], ids[i], op);
        respWait := respWait[ids[i] := op];
        assert ids[..i + 1] == ids[..i] + [ids[i]];
        i := i + 1;
      }
      assert ids[..i] == ids;
    }

    method RemoveRequestOp(op: Op)
      requires op in requests
      modifies this`respWait
      ensures respWait == RemoveIds(old(respWait), requests[op].ids)
    {
      var ids := requests[op].ids;
      var i := 0;
      while i < |ids|
        invariant 0 <= i <= |ids|
        invariant respWait == RemoveIds(old(respWait), ids[..i])
      {
        respWait := respWait - {ids[i]};
        assert ids[..i + 1] == ids[..i] + [ids[i]];
        i := i + 1;
      }
      assert ids[..i] == ids;
    }

    /** `cancelAllRequests`: a request that waits under several ids is closed once. */
    method CancelAllRequests(inflight: Option<Op>)
      requires forall id :: id in respWait ==> respWait[id] in requests
      modifies this`respWait, this`requests
      ensures respWait == map[] && requests == Cancelled(old(requests), old(respWait), inflight)
    {
      ghost var before, waited := requests, respWait;
      var didClose: set<Op> := if inflight.Some? then {inflight.value} else {};
      CancelStart(before, waited, inflight);
      hide Cancelled, Waits, CancelProgress;
      while respWait != map[]
        invariant CancelProgress(before, waited, inflight, requests, respWait, didClose)
        decreases |respWait|
      {
        SomeKey(respWait);
        var id :| id in respWait;
        var op := respWait[id];
        CancelStep(before, waited, inflight, requests, respWait, didClose, id);
        respWait := respWait - {id};
        if op !in didClose {
          requests := requests[op := Closed(requests[op])];
          didClose := didClose + {op};
        }
      }
      CancelEnd(before, waited, inflight, requests, respWait, didClose);
    }

    /** `handleResponse`: an id that nobody waits for is ignored. */
    method HandleReply(id: Id, ghost s: State)
      requires Shows(s) && forall i :: i in respWait ==> respWait[i] in requests
      modifies this`respWait, this`requests
      ensures Shows(HandleResponse(s, id))
      ensures forall i :: i in respWait ==> respWait[i] in requests
      ensures id !in old(respWait) ==> respWait == old(respWait) && requests == old(requests)
      ensures id in old(respWait) ==>
        var op := old(respWait)[id];
        var r := old(requests)[op];
        && respWait == old(respWait) - {id} && op in requests && requests == old(requests)[op := requests[op]]
        && requests[op] == r.(resp := requests[op].resp, answered := r.answered + [id])
        && requests[op].resp.sent == (if r.isSub then r.resp.sent else r.resp.sent + [id])
        && requests[op].resp.closes == (if r.isSub then r.resp.closes + 1 else r.resp.closes)
    {
      if id !in respWait { return; }
      var op := respWait[id];
      respWait := respWait - {id};
      var r := requests[op];
      var resp := if r.isSub then r.resp.Close() else r.resp.Send(id);
      requests := requests[op := r.(resp := resp, answered := r.answered + [id])];
    }

    // ---------------------------------------------------------------- the cases of dispatch

    method OnReadOp(ids: seq<Id>, ghost s: State)
      requires Shows(s) && Ready(s)
      modifies this
      ensures Shows(HandleAll(s, ids))
    {
      var i := 0;
      while i < |ids|
        invariant 0 <= i <= |ids|
        invariant Shows(HandleAll(s, ids[..i]))
        invariant forall k :: k in respWait ==> respWait[k] in requests
      {
        HandleReply(ids[i], HandleAll(s, ids[..i]));
        assert ids[..i + 1][..i] == ids[..i];
        i := i + 1;
      }
      assert ids[..i] == ids;
    }

    /** `conn.close`. */
    method CloseConn(inflight: Option<Op>, ghost s: State)
      requires Shows(s) && forall id :: id in respWait ==> respWait[id] in requests
      modifies this
      ensures Shows(ConnClose(s, inflight)) && requests.Keys == old(requests.Keys)
    {
      CancelAllRequests(inflight);
      closedConns := closedConns + {conn};
    }

    method OnReadErr(c: Conn, ghost s: State)
      requires Shows(s) && Ready(s)
      modifies this
      ensures Shows(ApplyReadErr(s, c))
    {
      hide Cancelled;
      CloseConn(lastOp, s);
      readers := readers - {c};
      reading := false;
    }

    /** The old connection, if its read loop still runs: it is closed, and the loop awaited. */
    method DropConn(drained: Conn, ghost s: State)
      requires Shows(s) && Ready(s)
      modifies this
      ensures Shows(DropRead(s, drained))
    {
      hide Cancelled;
      if reading {
        CloseConn(lastOp, s);
        readers := readers - {drained};
      }
    }

    /** The new connection gets a handler, with the request in flight; the sender that handed it over
        writes to it from now on. */
    method AttachConn(next: Conn, ghost s: State)
      requires Shows(s) && s.lastOp.Some? && s.lastOp.value in s.ops
      modifies this
      ensures Shows(Attach(s, next))
    {
      hide AddIds;
      readers := readers + {next};
      reading := true;
      conn := next;
      writeConn := Some(next);
      respWait := map[];
      AddRequestOp(lastOp.value);
    }

    method OnReconnected(next: Conn, drained: Conn, ghost s: State)
      requires Shows(s) && Ready(s) && s.lastOp.Some?
      modifies this
      ensures Shows(Reconnected(s, next, drained))
    {
      DropKeepsLast(s, drained);
      hide DropRead, Attach, Shows;
      DropConn(drained, s);
      AttachConn(next, DropRead(s, drained));
    }

    method OnReqInit(op: Op, ghost s: State)
      requires Shows(s) && op in s.ops
      modifies this
      ensures Shows(ApplyAccept(s, op))
    {
      hide AddIds;
      locked := true;
      lastOp := Some(op);
      AddRequestOp(op);
      requests := requests[op := requests[op].(phase := Checking)];
    }

    /** The result of the last send: it is deregistered when that failed. */
    method OnReqSent(ghost s: State)
      requires Shows(s) && Ready(s) && s.reqSent != []
      modifies this
      ensures Shows(ApplySentHandled(s))
    {
      SentHandledIs(s, s.lastOp.value);
      hide RemoveIds, ApplySentHandled;
      var ok := reqSent[0];
      reqSent := reqSent[1..];
      if !ok {
        RemoveRequestOp(lastOp.value);
      }
      requests := requests[lastOp.value := requests[lastOp.value].(phase := Done(ok))];
      locked := false;
      lastOp := None;
    }

    method OnReqTimeout(op: Op, ghost s: State)
      requires Shows(s) && s.running && op in s.ops
      modifies this
      ensures Shows(ApplyTimeout(s, op))
    {
      hide RemoveIds;
      RemoveRequestOp(op);
      requests := requests[op := requests[op].(timedOut := true)];
    }

    /** The deferred function: every request that waits is closed, the one in flight too. */
    method OnClose(drained: Conn, ghost s: State)
      requires Shows(s) && Ready(s)
      modifies this
      ensures Shows(ApplyClose(s, drained))
    {
      hide Cancelled;
      if reading {
        CloseConn(None, s);
        readers := readers - {drained};
        reading := false;
      }
      running := false;
    }

    // ---------------------------------------------------------------- the senders

    /** A caller makes a `requestOp`. */
    method NewRequest(op: Op, isSub: bool, ghost s: State)
      requires Shows(s) && op !in s.ops
      modifies this`requests
      ensures Shows(Apply(s, NewOp(op, isSub)))
    {
      requests := requests[op := Request([], isSub, Draft, Channel([], 0, false), [], false)];
    }

    /** `nextID`: the counter wraps around. */
    method NextID(ghost s: State) returns (id: Id)
      requires Shows(s)
      modifies this`idCounter
      ensures id == NextId(s.issued) && Shows(s.(issued := s.issued + 1))
    {
      idCounter := (idCounter + 1) % ID_SPACE;
      id := idCounter;
    }

    method TakeID(op: Op, ghost s: State)
      requires Shows(s) && op in s.ops
      modifies this`idCounter, this`requests
      ensures Shows(ApplyTakeId(s, op))
    {
      var id := NextID(s);
      requests := requests[op := requests[op].(ids := requests[op].ids + [id])];
    }

    /** The check has passed, and the sender is in `Write`. */
    method StartWriting(op: Op, ghost s: State)
      requires Shows(s) && op in s.ops
      modifies this`requests
      ensures Shows(StartWrite(s, op))
    {
      requests := requests[op := requests[op].(phase := Writing)];
    }

    /** The end of `send`: a write that failed gives the connection up. */
    method FinishWrite(op: Op, ok: bool, ghost s: State)
      requires Shows(s) && op in s.ops
      modifies this`requests, this`reqSent, this`writeConn
      ensures Shows(ApplyWriteDone(s, op, ok))
    {
      WriteDoneIs(s, op, ok);
      hide ApplyWriteDone;
      if requests[op].phase == Writing && !ok {
        writeConn := None;
      }
      requests := requests[op := requests[op].(phase := Sent(ok))];
      reqSent := reqSent + [ok];
    }

    /** A waiter that gives up when dispatch is gone. */
    method GiveUp(op: Op, ghost s: State)
      requires Shows(s) && op in s.ops && !s.running
      modifies this`requests
      ensures Shows(ApplyTimeout(s, op))
    {
      requests := requests[op := requests[op].(timedOut := true)];
    }

    method OnReconnect(op: Op, next: Conn, drained: Conn, ghost s: State)
      requires Shows(s) && Ready(s) && s.lastOp.Some? && op in s.ops
      modifies this
      ensures Shows(StartWriteIn(Reconnected(s, next, drained), op))
    {
      OnReconnected(next, drained, s);
      hide Reconnected;
      if op in requests {
        StartWriting(op, Reconnected(s, next, drained));
      }
    }

    // ---------------------------------------------------------------- whole runs

    /** Any event. */
    method Take(step: Step, ghost s: State)
      requires Shows(s) && Inv(s) && Enabled(s, step)
      modifies this
      ensures Shows(Apply(s, step))
    {
      InvReady(s);
      ReconnectIsLocked(s, step);
      hide Inv, Shows, ApplyTakeId, ApplyAccept, StartWrite, StartWriteIn, Reconnected, ApplyWriteDone,
        ApplySentHandled, HandleAll, ApplyReadErr, ApplyTimeout, ApplyClose;
      match step {
        case NewOp(op, isSub) => NewRequest(op, isSub, s);
        case TakeId(op) => TakeID(op, s);
        case BurnId => var _ := NextID(s);
        case Accept(op) => OnReqInit(op, s);
        case CheckOk(op) => StartWriting(op, s);
        case Reconnect(op, next, drained) => OnReconnect(op, next, drained, s);
        case WriteDone(op, ok) => FinishWrite(op, ok, s);
        case SentHandled => OnReqSent(s);
        case Read(_, ids) => OnReadOp(ids, s);
        case ReadErr(c) => OnReadErr(c, s);
        case Timeout(op) => TakeTimeout(op, s);
        case Close(drained) => OnClose(drained, s);
      }
    }

    method TakeTimeout(op: Op, ghost s: State)
      requires Shows(s) && op in s.ops
      modifies this
      ensures Shows(ApplyTimeout(s, op))
    {
      if running {
        OnReqTimeout(op, s);
      } else {
        GiveUp(op, s);
      }
    }
  }

  /** Every run of the protocol, event by event on the variables: at the end they are those of the
      protocol's state, so all that is proved about that state holds of them. */
  method Execute(codec: Conn, steps: seq<Step>) returns (c: Client)
    requires Run(codec, steps) && After(codec, steps).issued <= ID_SPACE
    ensures fresh(c) && c.Shows(After(codec, steps))
    ensures forall op :: op in c.requests ==> c.requests[op].resp.closes <= 1 && !c.requests[op].resp.misused
  {
    RunStarts(codec, steps);
    c := new Client(codec);
    var i := 0;
    while i < |steps|
      invariant 0 <= i <= |steps| && fresh(c)
      invariant Run(codec, steps[..i]) && c.Shows(After(codec, steps[..i]))
    {
      hide Run, After, Client.Shows, Apply, Enabled, Inv;
      RunStep(codec, steps, i);
      RunKeepsInv(codec, steps[..i]);
      c.Take(steps[i], After(codec, steps[..i]));
      i := i + 1;
    }
    assert steps[..i] == steps;
    EveryChannel(codec, steps);
  }

  /** The fields that the steps change, without their definitions. */
  lemma SentHandledIs(s: State, op: Op)
    requires s.reqSent != [] && s.lastOp == Some(op) && op in s.ops
    ensures var t := ApplySentHandled(s); var ok := s.reqSent[0];
      && t.ops == s.ops[op := s.ops[op].(phase := Done(ok))]
      && t.respWait == (if ok then s.respWait else RemoveIds(s.respWait, s.ops[op].ids))
      && t.reqSent == s.reqSent[1..] && !t.locked && t.lastOp == None
      && t.issued == s.issued && t.writeConn == s.writeConn && t.conn == s.conn && t.closedConns == s.closedConns
      && t.readers == s.readers && t.reading == s.reading && t.running == s.running
  {
    hide RemoveIds;
  }

  lemma WriteDoneIs(s: State, op: Op, ok: bool)
    requires op in s.ops
    ensures var t := ApplyWriteDone(s, op, ok);
      && t.ops == s.ops[op := s.ops[op].(phase := Sent(ok))] && t.reqSent == s.reqSent + [ok]
      && t.writeConn == (if s.ops[op].phase == Writing && !ok then None else s.writeConn)
      && t.respWait == s.respWait && t.lastOp == s.lastOp && t.locked == s.locked && t.issued == s.issued
      && t.conn == s.conn && t.closedConns == s.closedConns && t.readers == s.readers
      && t.reading == s.reading && t.running == s.running
  {
  }

  lemma DropKeepsLast(s: State, drained: Conn)
    ensures var t := DropRead(s, drained); t.lastOp == s.lastOp && t.ops.Keys == s.ops.Keys
  {
    CancelledKeeps(s.ops, s.respWait, s.lastOp);
    hide Cancelled;
  }

  lemma ReconnectIsLocked(s: State, step: Step)
    requires Inv(s) && Enabled(s, step)
    ensures step.Reconnect? ==> s.lastOp.Some?
  {
  }

  lemma RunStarts(conn: Conn, steps: seq<Step>)
    ensures Run(conn, steps[..0]) && After(conn, steps[..0]) == Initial(conn)
  {
  }

  /** A run up to a step, the step, and the run with it. */
  lemma {:induction false} RunStep(conn: Conn, steps: seq<Step>, i: nat)
    requires Run(conn, steps) && i < |steps|
    ensures Run(conn, steps[..i]) && Run(conn, steps[..i + 1]) && Enabled(After(conn, steps[..i]), steps[i])
    ensures After(conn, steps[..i + 1]) == Apply(After(conn, steps[..i]), steps[i])
    ensures After(conn, steps[..i]).issued <= After(conn, steps).issued
    decreases |steps|
  {
    hide Apply, Enabled;
    var n := |steps| - 1;
    IssuedGrows(After(conn, steps[..n]), steps[n]);
    if i == n {
      assert steps[..n + 1] == steps;
    } else {
      RunStep(conn, steps[..n], i);
      assert steps[..n][..i] == steps[..i] && steps[..n][..i + 1] == steps[..i + 1];
    }
  }

  lemma EveryChannel(conn: Conn, steps: seq<Step>)
    requires Run(conn, steps) && After(conn, steps).issued <= ID_SPACE
    ensures var s := After(conn, steps);
      forall op :: op in s.ops ==> s.ops[op].resp.closes <= 1 && !s.ops[op].resp.misused
  {
    RunKeepsInv(conn, steps);
    var s := After(conn, steps);
    hide Run, After;
    forall op | op in s.ops
      ensures s.ops[op].resp.closes <= 1 && !s.ops[op].resp.misused
    {
      assert ViewOk(ViewOf(s, op));
    }
  }

  lemma AddNone(w: map<Id, Op>, op: Op)
    ensures AddIds(w, [], op) == w
  {
  }

  lemma AddOne(w: map<Id, Op>, ids: seq<Id>, id: Id, op: Op)
    ensures AddIds(w, ids + [id], op) == AddIds(w, ids, op)[id := op]
  {
    assert Elements(ids + [id]) == Elements(ids) + {id};
  }

  function Closed(r: Request): Request {
    r.(resp := r.resp.Close())
  }

  lemma SomeKey(m: map<Id, Op>)
    ensures m == map[] || exists id :: id in m
  {
    assert m.Keys == {} ==> m == map[];
  }

  /** What the loop relies on, in every state that a run reaches. */
  predicate Ready(s: State) {
    && (forall id :: id in s.respWait ==> s.respWait[id] in s.ops)
    && (s.lastOp.Some? ==> s.lastOp.value in s.ops)
    && (s.reqSent != [] ==> s.lastOp.Some?)
  }

  lemma InvReady(s: State)
    requires Inv(s)
    ensures Ready(s)
  {
  }

  function CloseAll(rs: map<Op, Request>, closed: set<Op>): map<Op, Request> {
    map o | o in rs :: if o in closed then Closed(rs[o]) else rs[o]
  }

  /** Half way through the map: the requests in `didClose` are closed, but for the one in
      flight; they waited; and what was removed belongs to one of them. */
  predicate CancelProgress(before: map<Op, Request>, waited: map<Id, Op>, inflight: Option<Op>,
                           now: map<Op, Request>, w: map<Id, Op>, didClose: set<Op>) {
    && (forall id :: id in w ==> id in waited && waited[id] == w[id] && w[id] in before)
    && (forall id :: id in waited && id !in w ==> waited[id] in didClose)
    && (forall o :: o in didClose ==> inflight == Some(o) || Waits(waited, o))
    && (inflight.Some? ==> inflight.value in didClose)
    && now == CloseAll(before, set o | o in didClose && inflight != Some(o))
  }

  lemma CancelStart(before: map<Op, Request>, waited: map<Id, Op>, inflight: Option<Op>)
    requires forall id :: id in waited ==> waited[id] in before
    ensures CancelProgress(before, waited, inflight, before, waited, if inflight.Some? then {inflight.value} else {})
  {
    var didClose: set<Op> := if inflight.Some? then {inflight.value} else {};
    assert (set o | o in didClose && inflight != Some(o)) == {};
    assert before == CloseAll(before, {});
  }

  lemma CancelStep(before: map<Op, Request>, waited: map<Id, Op>, inflight: Option<Op>,
                   now: map<Op, Request>, w: map<Id, Op>, didClose: set<Op>, id: Id)
    requires CancelProgress(before, waited, inflight, now, w, didClose) && id in w
    ensures |w - {id}| < |w| && w[id] in now
    ensures w[id] in didClose ==> CancelProgress(before, waited, inflight, now, w - {id}, didClose)
    ensures w[id] !in didClose ==>
      CancelProgress(before, waited, inflight, now[w[id] := Closed(now[w[id]])], w - {id}, didClose + {w[id]})
  {
    var op := w[id];
    assert (w - {id}).Keys == w.Keys - {id};
    assert |w.Keys - {id}| < |w.Keys| && |(w - {id}).Keys| == |w - {id}| && |w.Keys| == |w|;
    var closed := set o | o in didClose && inflight != Some(o);
    if op !in didClose {
      assert (set o | o in didClose + {op} && inflight != Some(o)) == closed + {op};
      CloseOne(before, closed, op);
    }
  }

  lemma CloseOne(rs: map<Op, Request>, closed: set<Op>, op: Op)
    requires op in rs && op !in closed
    ensures CloseAll(rs, closed)[op := Closed(CloseAll(rs, closed)[op])] == CloseAll(rs, closed + {op})
  {
  }

  /** Whatever the order in which the map was walked. */
  lemma CancelEnd(before: map<Op, Request>, waited: map<Id, Op>, inflight: Option<Op>,
                  now: map<Op, Request>, w: map<Id, Op>, didClose: set<Op>)
    requires CancelProgress(before, waited, inflight, now, w, didClose) && w == map[]
    ensures now == Cancelled(before, waited, inflight)
  {
    forall o | o in before
      ensures now[o] == Cancelled(before, waited, inflight)[o]
    {
      assert inflight != Some(o) ==> (o in didClose <==> Waits(waited, o));
    }
    assert now.Keys == Cancelled(before, waited, inflight).Keys;
  }
}
