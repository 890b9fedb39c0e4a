/** What the request protocol guarantees in every state of every run. */
module RpcGuarantees {
  import opened Options
  import opened RpcProtocol

  /** The runs considered: those that have not used up the ids. */
  predicate Reaches(conn: Conn, steps: seq<Step>, s: State) {
    Run(conn, steps) && After(conn, steps) == s && s.issued <= ID_SPACE
  }

  // ------------------------------------------------------------------ the send lock

  /** The lock is held exactly while there is a last request; that request is the only one
      between acceptance and completion; `reqSent` never holds two values; and dispatch never
      uses a nil request. */
  lemma SendLock(conn: Conn, steps: seq<Step>, s: State)
    requires Reaches(conn, steps, s)
    ensures s.locked <==> s.lastOp.Some?
    ensures forall op :: op in s.ops && Active(s.ops[op].phase) ==> s.lastOp == Some(op)
    ensures |s.reqSent| <= 1 && !s.nilOp
  {
    hide Run, After;
    RunKeepsInv(conn, steps);
  }

  /** A reconnect is received only while the lock is held, from the holder; and a sender that
      finishes finds room in `reqSent`. */
  lemma LockIsHeld(conn: Conn, steps: seq<Step>, s: State, step: Step)
    requires Reaches(conn, steps, s) && Enabled(s, step) && (step.Reconnect? || step.WriteDone?)
    ensures s.locked && s.lastOp == Some(step.op) && s.reqSent == []
  {
    hide Run, After;
    RunKeepsInv(conn, steps);
  }

  /** Whatever is read comes from the connection that dispatch and the senders use, and that
      connection is open. */
  lemma ReadsAreCurrent(conn: Conn, steps: seq<Step>, s: State, step: Step)
    requires Reaches(conn, steps, s) && Enabled(s, step) && (step.Read? || step.ReadErr?)
    ensures step.conn == s.conn && s.conn !in s.closedConns
    ensures s.writeConn == None || s.writeConn == Some(s.conn)
  {
    hide Run, After;
    RunKeepsInv(conn, steps);
  }

  // ------------------------------------------------------------------ the response channels

  /** Every response channel is closed at most once and not used after that. What was sent on
      it are ids of its request, each at most once; nothing for a subscription. */
  lemma ChannelsUsedOnce(conn: Conn, steps: seq<Step>, s: State, op: Op)
    requires Reaches(conn, steps, s) && op in s.ops
    ensures s.ops[op].resp.closes <= 1 && !s.ops[op].resp.misused
    ensures NoDup(s.ops[op].resp.sent) && NoDup(s.ops[op].ids)
    ensures forall id :: id in s.ops[op].resp.sent ==> id in s.ops[op].ids && !s.ops[op].isSub
  {
    hide Run, After;
    RunKeepsInv(conn, steps);
    var v := ViewOf(s, op);
    assert ViewOk(v);
    forall id | id in v.r.resp.sent
      ensures id in v.r.ids && !v.r.isSub
    {
      assert id in Elements(v.r.answered);
    }
  }

  lemma {:induction false} DistinctCount(ids: seq<Id>)
    requires NoDup(ids)
    ensures |Elements(ids)| == |ids|
  {
    if ids != [] {
      var n := |ids| - 1;
      DistinctCount(ids[..n]);
      assert Elements(ids) == Elements(ids[..n]) + {ids[n]};
    }
  }

  lemma SubsetCount(a: set<Id>, b: set<Id>)
    requires a <= b
    ensures |a| <= |b|
  {
    assert b == a + (b - a);
    assert |a + (b - a)| == |a| + |b - a|;
  }

  /** Dispatch never blocks on a response: what was ever sent to a request, and the ids under
      which it still waits, never exceed the channel's capacity. */
  lemma NeverBlocks(conn: Conn, steps: seq<Step>, s: State, op: Op)
    requires Reaches(conn, steps, s) && op in s.ops
    ensures |s.ops[op].resp.sent| + |Waiting(s.respWait, op)| <= |s.ops[op].ids|
  {
    hide Run, After;
    RunKeepsInv(conn, steps);
    var v := ViewOf(s, op);
    assert ViewOk(v);
    DistinctCount(v.r.answered);
    DistinctCount(v.r.ids);
    assert |Elements(v.r.answered) + v.waiting| == |Elements(v.r.answered)| + |v.waiting|;
    SubsetCount(Elements(v.r.answered) + v.waiting, Elements(v.r.ids));
  }

  /** A response goes to the request that its id was issued to. */
  lemma AnswersGoHome(conn: Conn, steps: seq<Step>, s: State, id: Id)
    requires Reaches(conn, steps, s) && id in s.respWait
    ensures id in s.owner && s.respWait[id] == s.owner[id] && s.owner[id] in s.ops && id in s.ops[s.owner[id]].ids
  {
    hide Run, After;
    RunKeepsInv(conn, steps);
    var op := s.respWait[id];
    assert ViewOk(ViewOf(s, op));
    assert id in Waiting(s.respWait, op);
  }

  // ------------------------------------------------------------------ no waiter is lost

  predicate InFlight(s: State, op: Op)
    requires op in s.ops
  {
    var p := s.ops[op].phase;
    p == Checking || p == Writing || (p.Sent? && s.running)
  }

  /** The send failed, or the waiter has given up. */
  predicate Withdrawn(s: State, op: Op)
    requires op in s.ops
  {
    var r := s.ops[op];
    !InFlight(s, op) && ((r.phase.Sent? && !r.phase.ok) || (r.phase.Done? && !r.phase.ok) || r.timedOut)
  }

  /** The send succeeded, and its caller is in `wait` if it has not got everything. */
  predicate Delivered(s: State, op: Op)
    requires op in s.ops
  {
    var r := s.ops[op];
    !InFlight(s, op) && (r.phase == Sent(true) || r.phase == Done(true)) && !r.timedOut
  }

  predicate FullyAnswered(s: State, op: Op)
    requires op in s.ops
  {
    Delivered(s, op) && Answered(s.ops[op])
  }

  predicate ClosedWithError(s: State, op: Op)
    requires op in s.ops
  {
    Delivered(s, op) && !Answered(s.ops[op]) && s.ops[op].resp.closes > 0
  }

  predicate WaitsUnder(s: State, op: Op, id: Id) {
    id in s.respWait && s.respWait[id] == op
  }

  /** It waits under each id that has no answer. */
  predicate Registered(s: State, op: Op)
    requires op in s.ops
  {
    Delivered(s, op) && !Answered(s.ops[op]) && s.ops[op].resp.closes == 0 &&
    forall id :: id in s.ops[op].ids && id !in s.ops[op].answered ==> WaitsUnder(s, op, id)
  }

  /** An answer is missing that nobody waits for any more, and the channel is open. */
  predicate Lost(s: State, op: Op)
    requires op in s.ops
  {
    Delivered(s, op) && s.ops[op].resp.closes == 0 &&
    exists id :: id in s.ops[op].ids && id !in s.ops[op].answered && !WaitsUnder(s, op, id)
  }

  function One(b: bool): nat {
    if b then 1 else 0
  }

  lemma LostIsCut(s: State, op: Op)
    requires op in s.ops && ViewOk(ViewOf(s, op))
    ensures Lost(s, op) <==> Delivered(s, op) && op in s.cut
  {
    var v := ViewOf(s, op);
    var r := s.ops[op];
    AnsweredIsSubset(r);
    if Lost(s, op) {
      var id :| id in r.ids && id !in r.answered && !WaitsUnder(s, op, id);
      assert id in Elements(r.ids) && id !in Elements(r.answered) && id !in v.waiting;
    }
    if Delivered(s, op) && op in s.cut {
      var id :| id in r.ids && id !in r.answered;
      assert id !in v.waiting;
      assert !WaitsUnder(s, op, id);
    }
  }

  /** Every request that was accepted is exactly one of: in flight, withdrawn, fully answered,
      closed with an error, registered under every id that has no answer, or lost. */
  lemma ExactlyOneFate(conn: Conn, steps: seq<Step>, s: State, op: Op)
    requires Reaches(conn, steps, s) && op in s.ops && s.ops[op].phase != Draft
    ensures One(InFlight(s, op)) + One(Withdrawn(s, op)) + One(FullyAnswered(s, op)) +
            One(ClosedWithError(s, op)) + One(Registered(s, op)) + One(Lost(s, op)) == 1
    ensures Lost(s, op) <==> Delivered(s, op) && op in s.cut
  {
    hide Run, After;
    RunKeepsInv(conn, steps);
    LostIsCut(s, op);
    var v := ViewOf(s, op);
    assert ViewOk(v);
    hide ViewOk;
    if Lost(s, op) {
      assert exists id :: id in s.ops[op].ids && id !in s.ops[op].answered && !WaitsUnder(s, op, id);
    }
  }

  // ------------------------------------------------------------------ exactly when one is lost

  lemma {:induction false} HandleAllKeepsCut(s: State, ids: seq<Id>)
    ensures HandleAll(s, ids).cut == s.cut
  {
    if ids != [] {
      HandleAllKeepsCut(s, ids[..|ids| - 1]);
    }
  }

  /** Only a read error cuts a request off, and nothing takes that back. */
  lemma CutStep(s: State, step: Step, op: Op)
    requires Enabled(s, step)
    ensures op in Apply(s, step).cut <==> op in s.cut || (step.ReadErr? && Cuts(s, op))
  {
    hide Cancelled, AddIds, RemoveIds, Elements, Answered, Reconnected, StartWriteIn;
    match step
    case Reconnect(sender, next, drained) => ReconnectFields(s, sender, next, drained);
    case Read(c, ids) => HandleAllKeepsCut(s, ids);
    case _ =>
  }

  /** The k-th step of a run is a read error, processed by dispatch while this request is in
      flight: past `checkWriteConn`, not failed, and lacking an answer. */
  predicate CutAt(conn: Conn, steps: seq<Step>, k: nat, op: Op) {
    k < |steps| && steps[k].ReadErr? && Run(conn, steps[..k]) && Cuts(After(conn, steps[..k]), op)
  }

  lemma {:induction false} CutExactly(conn: Conn, steps: seq<Step>, op: Op)
    requires Run(conn, steps)
    ensures op in After(conn, steps).cut <==> exists k: nat :: CutAt(conn, steps, k, op)
  {
    hide Apply, Enabled, Cuts;
    if steps != [] {
      var n := |steps| - 1;
      CutExactly(conn, steps[..n], op);
      CutStep(After(conn, steps[..n]), steps[n], op);
      forall k: nat | k < n
        ensures CutAt(conn, steps, k, op) <==> CutAt(conn, steps[..n], k, op)
      {
        assert steps[..n][..k] == steps[..k];
      }
      assert CutAt(conn, steps, n, op) <==> steps[n].ReadErr? && Cuts(After(conn, steps[..n]), op);
    }
  }

  /** A waiter is lost if and only if its send succeeded, it has not given up, and some read
      error was processed while it was in flight past the check for a connection, with an
      answer still missing. So on runs without such an event no waiter is lost. */
  lemma LostExactly(conn: Conn, steps: seq<Step>, s: State, op: Op)
    requires Reaches(conn, steps, s) && op in s.ops
    ensures Lost(s, op) <==> Delivered(s, op) && exists k: nat :: CutAt(conn, steps, k, op)
  {
    RunKeepsInv(conn, steps);
    CutExactly(conn, steps, op);
    LostIsCut(s, op);
  }

  /** A request that a read error cut off is never closed and never gets all its answers, however
      the run goes on, not even when the client is closed. */
  lemma CutForever(conn: Conn, steps: seq<Step>, k: nat, s: State, op: Op)
    requires Reaches(conn, steps, s) && CutAt(conn, steps, k, op)
    ensures op in s.ops && s.ops[op].resp.closes == 0 && !Answered(s.ops[op]) && Waiting(s.respWait, op) == {}
  {
    RunKeepsInv(conn, steps);
    CutExactly(conn, steps, op);
    assert ViewOk(ViewOf(s, op));
    AnsweredIsSubset(s.ops[op]);
  }

  /** When dispatch has returned nobody is left registered: whoever was not lost has its answers
      or a closed channel. */
  lemma StopWakesAll(conn: Conn, steps: seq<Step>, s: State, op: Op)
    requires Reaches(conn, steps, s) && !s.running && op in s.ops && Delivered(s, op)
    ensures !Registered(s, op)
    ensures Lost(s, op) || FullyAnswered(s, op) || ClosedWithError(s, op)
  {
    RunKeepsInv(conn, steps);
    var v := ViewOf(s, op);
    assert ViewOk(v);
    LostIsCut(s, op);
    StoppedWait(v);
    if !Answered(s.ops[op]) {
      var id :| id in s.ops[op].ids && id !in s.ops[op].answered;
      assert id !in v.waiting;
      assert !WaitsUnder(s, op, id);
    }
  }

  // ------------------------------------------------------------------ a run that loses a waiter

  lemma Extend(conn: Conn, steps: seq<Step>, step: Step)
    requires Run(conn, steps) && Enabled(After(conn, steps), step)
    ensures Run(conn, steps + [step]) && After(conn, steps + [step]) == Apply(After(conn, steps), step)
  {
    assert (steps + [step])[..|steps|] == steps;
  }

  /** A request is accepted and passes the check, and a read error is processed before its
      write succeeds. */
  function LosingSteps(s: State, op: Op): seq<Step> {
    [Accept(op), CheckOk(op), ReadErr(s.conn), WriteDone(op, true), SentHandled]
  }

  predicate Idle(s: State, op: Op) {
    s.running && s.reading && !s.locked && s.writeConn == Some(s.conn) &&
    InPhase(s, op, Draft) && s.ops[op].ids != [] && !s.ops[op].isSub
  }

  /** What the first two steps do to the request and to the connection. */
  lemma LosingStart(s: State, op: Op)
    requires Inv(s) && Idle(s, op)
    ensures Enabled(s, Accept(op)) && Enabled(ApplyAccept(s, op), CheckOk(op))
    ensures var t := StartWrite(ApplyAccept(s, op), op);
      && Enabled(t, ReadErr(s.conn)) && Cuts(t, op) && t.reqSent == [] && t.issued == s.issued
      && t.ops[op].phase == Writing && !t.ops[op].timedOut
  {
    hide ApplyAccept, StartWrite, Enabled, Cuts, ViewOk;
    DraftUnanswered(s, op);
    assert s.conn !in s.closedConns && s.conn in s.readers && s.reqSent == [];
    FromIdle(s, op);
  }

  lemma FromIdle(s: State, op: Op)
    requires Idle(s, op) && s.conn !in s.closedConns && s.conn in s.readers && s.reqSent == []
    requires s.ops[op].answered == [] && !s.ops[op].timedOut
    ensures Enabled(s, Accept(op)) && Enabled(ApplyAccept(s, op), CheckOk(op))
    ensures var t := StartWrite(ApplyAccept(s, op), op);
      && Enabled(t, ReadErr(s.conn)) && Cuts(t, op) && t.reqSent == [] && t.issued == s.issued
      && t.ops[op].phase == Writing && !t.ops[op].timedOut
  {
    hide AddIds, Elements;
    var t := StartWrite(ApplyAccept(s, op), op);
    assert t.ops[op] == s.ops[op].(phase := Writing);
    assert t.ops[op].ids[0] !in t.ops[op].answered;
  }

  lemma DraftUnanswered(s: State, op: Op)
    requires ViewsOk(s) && InPhase(s, op, Draft)
    ensures s.ops[op].answered == [] && !s.ops[op].timedOut
  {
    assert ViewOk(ViewOf(s, op));
    DraftIsIdle(ViewOf(s, op));
  }

  /** What the others do. */
  lemma LosingEnd(t: State, op: Op, c: Conn)
    requires Cuts(t, op) && t.running && t.ops[op].phase == Writing && !t.ops[op].timedOut && t.reqSent == []
    ensures var u := ApplyReadErr(t, c);
      Enabled(u, WriteDone(op, true)) && Enabled(ApplyWriteDone(u, op, true), SentHandled) &&
      var w := ApplySentHandled(ApplyWriteDone(u, op, true));
      op in w.ops && op in w.cut && Delivered(w, op) && w.issued == t.issued
  {
    NotCancelled(t, op);
    hide Cancelled;
  }

  lemma NotCancelled(s: State, op: Op)
    requires s.lastOp == Some(op) && op in s.ops
    ensures op in ConnClose(s, s.lastOp).ops && ConnClose(s, s.lastOp).ops[op] == s.ops[op]
  {
  }

  lemma RunStart(conn: Conn, steps: seq<Step>, s: State, op: Op)
    requires Run(conn, steps) && After(conn, steps) == s && Inv(s) && Idle(s, op)
    ensures var a := steps + [Accept(op)] + [CheckOk(op)];
      Run(conn, a) && After(conn, a) == StartWrite(ApplyAccept(s, op), op)
  {
    LosingStart(s, op);
    hide Inv, Idle, Run, After, StartWrite, ApplyAccept;
    Extend(conn, steps, Accept(op));
    Extend(conn, steps + [Accept(op)], CheckOk(op));
  }

  lemma RunEnd(conn: Conn, steps: seq<Step>, t: State, op: Op, c: Conn)
    requires Run(conn, steps) && After(conn, steps) == t && Enabled(t, ReadErr(c))
    requires Cuts(t, op) && t.ops[op].phase == Writing && !t.ops[op].timedOut && t.reqSent == []
    ensures var u := ApplyReadErr(t, c); op in u.ops && ApplyWriteDone(u, op, true).reqSent != []
    ensures var a := steps + [ReadErr(c)] + [WriteDone(op, true)] + [SentHandled];
      Run(conn, a) && After(conn, a) == ApplySentHandled(ApplyWriteDone(ApplyReadErr(t, c), op, true))
  {
    LosingEnd(t, op, c);
    hide Cuts, Delivered, Run, After, ApplyReadErr, ApplyWriteDone, ApplySentHandled;
    Extend(conn, steps, ReadErr(c));
    Extend(conn, steps + [ReadErr(c)], WriteDone(op, true));
    Extend(conn, steps + [ReadErr(c)] + [WriteDone(op, true)], SentHandled);
  }

  lemma LosingRun(conn: Conn, steps: seq<Step>, s: State, op: Op)
    requires Run(conn, steps) && After(conn, steps) == s && Inv(s) && Idle(s, op)
    ensures var all := steps + [Accept(op)] + [CheckOk(op)] + [ReadErr(s.conn)] + [WriteDone(op, true)] + [SentHandled];
      Run(conn, all) && var w := After(conn, all);
        op in w.ops && op in w.cut && Delivered(w, op) && w.issued == s.issued
  {
    LosingStart(s, op);
    RunStart(conn, steps, s, op);
    hide Inv, Idle, Run, After, StartWrite, ApplyAccept, Cuts, Delivered, ApplyReadErr, ApplyWriteDone,
      ApplySentHandled;
    var t := StartWrite(ApplyAccept(s, op), op);
    RunEnd(conn, steps + [Accept(op)] + [CheckOk(op)], t, op, s.conn);
    LosingEnd(t, op, s.conn);
  }

  /** From every state in which a sender can get in, a call can be lost. */
  lemma EveryCallCanBeLost(conn: Conn, steps: seq<Step>, s: State, op: Op)
    requires Reaches(conn, steps, s) && Idle(s, op)
    ensures var all := steps + LosingSteps(s, op);
      Run(conn, all) && op in After(conn, all).ops && Lost(After(conn, all), op)
  {
    hide Inv, Idle, Run, After, Delivered, Lost;
    RunKeepsInv(conn, steps);
    LosingRun(conn, steps, s, op);
    var all := steps + LosingSteps(s, op);
    assert all == steps + [Accept(op)] + [CheckOk(op)] + [ReadErr(s.conn)] + [WriteDone(op, true)] + [SentHandled];
    RunKeepsInv(conn, all);
    FateOfCut(After(conn, all), op);
  }

  lemma FateOfCut(s: State, op: Op)
    requires Inv(s) && op in s.ops && op in s.cut && Delivered(s, op)
    ensures Lost(s, op)
  {
    assert ViewOk(ViewOf(s, op));
    LostIsCut(s, op);
  }

  /** Such a state is reached right away: a call on a new client. */
  lemma SomeCallIsLost(conn: Conn)
    ensures exists steps, op :: Run(conn, steps) && op in After(conn, steps).ops && Lost(After(conn, steps), op)
  {
    Extend(conn, [], NewOp(0, false));
    Extend(conn, [NewOp(0, false)], TakeId(0));
    var steps := [NewOp(0, false), TakeId(0)];
    var s := After(conn, steps);
    EveryCallCanBeLost(conn, steps, s, 0);
  }
}
