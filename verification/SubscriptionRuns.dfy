/**
 A run of a subscription told by its events alone: what its forwarding loop chose, where each caller is
 that ends the subscription, and what the channels have got.
 */
module SubscriptionRuns {
  import opened Options
  import opened Subscription

  // ------------------------------------------------------------------ the loop

  /** What the selects of the loop chose in a run. */
  function Choices(steps: seq<Step>): seq<Choice> {
    if steps == [] then []
    else
      Choices(steps[..|steps| - 1]) +
      match steps[|steps| - 1]
      case Accepted(raw) => [In(raw)]
      case Consumed => [Out]
      case SeesQuit => [Quit]
      case _ => []
  }

  function Consumptions(steps: seq<Step>): nat {
    if steps == [] then 0
    else Consumptions(steps[..|steps| - 1]) + if steps[|steps| - 1].Consumed? then 1 else 0
  }

  lemma ChooseOne(cs: seq<Choice>, c: Choice)
    ensures ChooseAll(FRESH_LOOP, cs + [c]) == Choose(ChooseAll(FRESH_LOOP, cs), c)
  {
    assert (cs + [c])[..|cs|] == cs;
  }

  /** The loop of a run is `forward` with these choices, and every step that consumes sends a value. */
  lemma {:induction false} LoopIsForward(steps: seq<Step>)
    requires Run(steps)
    ensures After(steps).loop == ChooseAll(FRESH_LOOP, Choices(steps))
    ensures |After(steps).loop.sent| == Consumptions(steps)
  {
    hide Run;
    if steps != [] {
      var n := |steps| - 1;
      BeforeLast(steps);
      var s := After(steps[..n]);
      LoopIsForward(steps[..n]);
      hide After;
      var cs := Choices(steps[..n]);
      match steps[n]
      case Accepted(raw) => ChooseOne(cs, In(raw));
      case Consumed => ChooseOne(cs, Out);
      case SeesQuit => ChooseOne(cs, Quit);
      case _ =>
        assert cs + [] == cs;
        LoopKept(s, steps[n]);
        hide Apply;
    }
  }

  lemma LoopKept(s: State, step: Step)
    requires Enabled(s, step) && !step.Accepted? && !step.Consumed? && !step.SeesQuit?
    ensures Apply(s, step).loop == s.loop
  {
    if step.EntersQuit? || step.ClosesQuit? || step.Requests? || step.Signals? || step.ClosesErr? {
      ThreadStep(s, step);
      hide Apply;
    }
  }

  /** In every state of every run the consumer has got the first values that the loop took in, one for each
      step that consumes; and the loop has returned for the reason that its choices give. */
  lemma ConsumerGets(steps: seq<Step>)
    requires Run(steps)
    ensures var s, all := After(steps), Incoming(Choices(steps));
      && Consumptions(steps) <= |all| && s.loop.sent == all[..Consumptions(steps)]
      && s.loop.exit == Count(Choices(steps)).exit
  {
    LoopIsForward(steps);
    ForwardsExactly(Choices(steps));
  }

  // ------------------------------------------------------------------ the callers

  function Closings(steps: seq<Step>): nat {
    if steps == [] then 0
    else Closings(steps[..|steps| - 1]) + if steps[|steps| - 1].ClosesQuit? then 1 else 0
  }

  /** The first caller to enter the body of `quitOnce`. */
  function FirstIn(steps: seq<Step>): Option<nat> {
    if steps == [] then None
    else
      var n := |steps| - 1;
      var first := FirstIn(steps[..n]);
      if first.None? && steps[n].EntersQuit? then Some(steps[n].tid) else first
  }

  /** A caller: who it is, and where. The first to come runs the body, and the others find it done. */
  function CallerAfter(steps: seq<Step>, tid: nat): Option<Thread> {
    if steps == [] then None
    else
      var before, step := steps[..|steps| - 1], steps[|steps| - 1];
      var t := CallerAfter(before, tid);
      match step
      case Calls(id, kind) => if id == tid then Some(Thread(kind, AtQuit)) else t
      case Ends(id) => if id == tid then Some(Thread(Ender(Count(Choices(before)).exit.GetOr(SawQuit)), AtQuit)) else t
      case EntersQuit(id) =>
        if id == tid then WithPc(t, if FirstIn(before).None? then ClosingQuit else AfterQuit) else t
      case ClosesQuit(id) => if id == tid then WithPc(t, Requesting) else t
      case Requests(id) => if id == tid then WithPc(t, Signalling) else t
      case Signals(id) => if id == tid then WithPc(t, AfterQuit) else t
      case ClosesErr(id) => if id == tid then WithPc(t, Finished) else t
      case _ => t
  }

  function WithPc(t: Option<Thread>, pc: Pc): Option<Thread> {
    match t
    case None => None
    case Some(thread) => Some(thread.(pc := pc))
  }

  /** The body has been run to its end. */
  predicate HasSignalled(steps: seq<Step>) {
    steps != [] && (HasSignalled(steps[..|steps| - 1]) || steps[|steps| - 1].Signals?)
  }

  /** Some `Unsubscribe` has closed `err`. */
  predicate HasClosedErr(steps: seq<Step>) {
    steps != [] &&
    var before, step := steps[..|steps| - 1], steps[|steps| - 1];
    HasClosedErr(before) ||
    (step.ClosesErr? && var t := CallerAfter(before, step.tid); t.Some? && t.value.kind == Unsubscriber)
  }

  /** What is sent on `err`: nothing when the consumer ends the subscription, nil when the client quits, the
      error of the connection, or that of the loop. */
  function ErrorOf(kind: Kind): seq<Option<int>> {
    match kind
    case Unsubscriber => []
    case Canceller(ClientQuit) => [None]
    case Canceller(Other(code)) => [Some(code)]
    case Ender(SawQuit) => []
    case Ender(BadMessage) => [Some(0)]
    case Ender(Overflow) => [Some(1)]
  }

  function CallerOf(s: State, tid: nat): Option<Thread> {
    if tid in s.threads then Some(s.threads[tid]) else None
  }

  /** The kind of the caller that came first. */
  function EndedBy(steps: seq<Step>): Option<Kind> {
    match FirstIn(steps)
    case None => None
    case Some(tid) =>
      match CallerAfter(steps, tid)
      case None => None
      case Some(t) => Some(t.kind)
  }

  /** The body of `quitOnce` is run once, by the first to come. */
  predicate OnceTold(s: State, steps: seq<Step>) {
    match s.quitOnce
    case Fresh => FirstIn(steps).None? && !HasSignalled(steps)
    case Held(t) => FirstIn(steps) == Some(t) && !HasSignalled(steps)
    case Completed(k) => HasSignalled(steps) && EndedBy(steps) == Some(k)
  }

  predicate ChannelsTold(s: State, steps: seq<Step>) {
    && s.quitCloses == Closings(steps)
    && s.errSent == (if HasSignalled(steps) && EndedBy(steps).Some? then ErrorOf(EndedBy(steps).value) else [])
    && s.errCloses == (if HasClosedErr(steps) then 1 else 0)
  }

  lemma CallerStep(s: State, step: Step, tid: nat)
    requires Enabled(s, step)
    ensures CallerOf(Apply(s, step), tid) ==
      match step
      case Calls(id, kind) => if id == tid then Some(Thread(kind, AtQuit)) else CallerOf(s, tid)
      case Ends(id) => if id == tid then Some(Thread(Ender(s.loop.exit.value), AtQuit)) else CallerOf(s, tid)
      case EntersQuit(id) =>
        if id == tid then WithPc(CallerOf(s, tid), if s.quitOnce == Fresh then ClosingQuit else AfterQuit)
        else CallerOf(s, tid)
      case ClosesQuit(id) => if id == tid then WithPc(CallerOf(s, tid), Requesting) else CallerOf(s, tid)
      case Requests(id) => if id == tid then WithPc(CallerOf(s, tid), Signalling) else CallerOf(s, tid)
      case Signals(id) => if id == tid then WithPc(CallerOf(s, tid), AfterQuit) else CallerOf(s, tid)
      case ClosesErr(id) => if id == tid then WithPc(CallerOf(s, tid), Finished) else CallerOf(s, tid)
      case _ => CallerOf(s, tid)
  {
    hide Subscription.Signalled;
  }

  /** In every state of every run each caller is where the events say. */
  lemma {:induction false} CallersAsTold(steps: seq<Step>, tid: nat)
    requires Run(steps)
    ensures CallerOf(After(steps), tid) == CallerAfter(steps, tid)
    ensures After(steps).quitOnce == Fresh <==> FirstIn(steps).None?
  {
    hide Run;
    if steps != [] {
      var before, step := steps[..|steps| - 1], steps[|steps| - 1];
      BeforeLast(steps);
      var s := After(before);
      hide After;
      CallersAsTold(before, tid);
      CallerStep(s, step, tid);
      RunKeepsInv(before);
      ChannelStep(s, step);
      if step.Ends? {
        ConsumerGets(before);
      }
      hide Apply, Enabled, Choices, Count;
    }
  }

  /** The body is run to its end: the holder says what it has to say. */
  lemma SignalStep(s: State, tid: nat)
    requires OnceOk(s) && SignalsOk(s) && Enabled(s, Signals(tid))
    ensures s.quitOnce == Held(tid) && s.errSent == []
    ensures var t, kind := Signal(s, tid), s.threads[tid].kind;
      && t.quitOnce == Completed(kind) && t.errSent == ErrorOf(kind)
      && t.quitCloses == s.quitCloses && t.errCloses == s.errCloses
  {
    assert [] + ErrorOf(s.threads[tid].kind) == ErrorOf(s.threads[tid].kind);
  }

  lemma CloseErrStep(s: State, tid: nat)
    requires SignalsOk(s) && tid in s.threads
    ensures var t := CloseErr(s, tid);
      && t.quitOnce == s.quitOnce && t.errSent == s.errSent && t.quitCloses == s.quitCloses
      && t.errCloses == if s.errCloses == 1 || s.threads[tid].kind == Unsubscriber then 1 else 0
  {
  }

  lemma EnterStep(s: State, tid: nat)
    requires tid in s.threads
    ensures var t := EnterQuit(s, tid);
      && t.quitOnce == (if s.quitOnce == Fresh then Held(tid) else s.quitOnce)
      && t.errSent == s.errSent && t.quitCloses == s.quitCloses && t.errCloses == s.errCloses
  {
  }

  /** What an event does to the channels and to the body of `quitOnce`. */
  lemma ChannelStep(s: State, step: Step)
    requires Inv(s) && Enabled(s, step)
    ensures var t := Apply(s, step);
      && t.quitCloses == s.quitCloses + (if step.ClosesQuit? then 1 else 0)
      && (step.Signals? ==> s.quitOnce == Held(step.tid) && s.errSent == [] &&
                            t.quitOnce == Completed(s.threads[step.tid].kind) &&
                            t.errSent == ErrorOf(s.threads[step.tid].kind))
      && (!step.Signals? ==> t.errSent == s.errSent)
      && (step.EntersQuit? ==> t.quitOnce == if s.quitOnce == Fresh then Held(step.tid) else s.quitOnce)
      && (!step.Signals? && !step.EntersQuit? ==> t.quitOnce == s.quitOnce)
      && t.errCloses == (if s.errCloses == 1 || (step.ClosesErr? && s.threads[step.tid].kind == Unsubscriber) then 1
                         else 0)
  {
    assert s.errCloses <= 1;
    match step
    case Signals(tid) =>
      SignalStep(s, tid);
      hide Inv, Signal, ErrorOf;
    case ClosesErr(tid) =>
      CloseErrStep(s, tid);
      hide Inv, CloseErr;
    case EntersQuit(tid) =>
      EnterStep(s, tid);
      hide Inv, EnterQuit;
    case _ => hide Inv, Arrive, Send, Leave;
  }

  /** Who calls stays who it is. */
  lemma KindKept(s: State, step: Step, tid: nat)
    requires Enabled(s, step) && tid in s.threads
    ensures tid in Apply(s, step).threads && Apply(s, step).threads[tid].kind == s.threads[tid].kind
  {
    CallerStep(s, step, tid);
    hide Apply;
  }

  /** In every state of every run: `quit` was closed as often as a caller closed it in the body, which the
      first to come runs alone; `err` has got what that one has to say, once it has said it; and `err` was
      closed, once, if some `Unsubscribe` came to that. */
  lemma {:induction false} EndsAsTold(steps: seq<Step>)
    requires Run(steps)
    ensures OnceTold(After(steps), steps) && ChannelsTold(After(steps), steps)
  {
    hide Run;
    if steps != [] {
      var before, step := steps[..|steps| - 1], steps[|steps| - 1];
      BeforeLast(steps);
      RunKeepsInv(before);
      hide After, Inv;
      EndsAsTold(before);
      OnceStep(steps, After(before), step);
      ErrStep(steps, After(before), step);
    }
  }

  /** Who came first stays who it is. */
  lemma FirstKept(steps: seq<Step>, s: State, step: Step)
    requires steps != [] && step == steps[|steps| - 1] && Run(steps) && Run(steps[..|steps| - 1])
    requires s == After(steps[..|steps| - 1]) && Enabled(s, step) && OnceTold(s, steps[..|steps| - 1])
    requires FirstIn(steps[..|steps| - 1]).Some? && EndedBy(steps[..|steps| - 1]).Some?
    ensures EndedBy(steps) == EndedBy(steps[..|steps| - 1])
  {
    var tid := FirstIn(steps[..|steps| - 1]).value;
    BeforeLast(steps);
    hide Run, After;
    CallersAsTold(steps[..|steps| - 1], tid);
    CallersAsTold(steps, tid);
    hide CallerAfter, Apply;
    KindKept(s, step, tid);
  }

  lemma OnceStep(steps: seq<Step>, s: State, step: Step)
    requires steps != [] && step == steps[|steps| - 1] && Run(steps) && Run(steps[..|steps| - 1])
    requires s == After(steps[..|steps| - 1]) && Inv(s) && Enabled(s, step) && OnceTold(s, steps[..|steps| - 1])
    ensures OnceTold(Apply(s, step), steps)
  {
    var before := steps[..|steps| - 1];
    ChannelStep(s, step);
    if step.Signals? {
      CallersAsTold(before, step.tid);
      CallersAsTold(steps, step.tid);
      BeforeLast(steps);
      CallerStep(s, step, step.tid);
    } else if HasSignalled(before) {
      FirstKept(steps, s, step);
    }
    hide Run, After, Inv, Apply, CallerAfter, Enabled, ErrorOf;
  }

  lemma ErrStep(steps: seq<Step>, s: State, step: Step)
    requires steps != [] && step == steps[|steps| - 1] && Run(steps) && Run(steps[..|steps| - 1])
    requires s == After(steps[..|steps| - 1]) && Inv(s) && Enabled(s, step) && OnceTold(s, steps[..|steps| - 1])
    requires OnceTold(Apply(s, step), steps) && ChannelsTold(s, steps[..|steps| - 1])
    ensures ChannelsTold(Apply(s, step), steps)
  {
    var before := steps[..|steps| - 1];
    ChannelStep(s, step);
    if step.ClosesErr? {
      CallersAsTold(before, step.tid);
    }
    if HasSignalled(before) {
      FirstKept(steps, s, step);
    }
    hide Run, After, Inv, Apply, CallerAfter, Enabled, ErrorOf, EndedBy;
  }
}
