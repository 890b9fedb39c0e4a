/**
 A client subscription (`gethrpc/subscription.go`): the forwarding loop with its buffer, and the
 ways in which a subscription ends, as a transition system over all their interleavings.
 */
module Subscription {
  import opened Options

  /** `maxClientSubscriptionBuffer`. */
  const MAX_BUFFER: nat := 20000

  /** A notification: its value, or nothing when it cannot be unmarshalled. */
  datatype Raw = Good(value: int) | Bad

  datatype Exit = SawQuit | BadMessage | Overflow

  /** The forwarding loop: the buffer, what was sent to the consumer, and what has arrived. */
  datatype Forwarder = Forwarder(buffer: seq<int>, sent: seq<int>, arrived: seq<Raw>, exit: Option<Exit>)

  // ------------------------------------------------------------------ forwarding

  function Values(raws: seq<Raw>): seq<int> {
    if raws == [] then []
    else Values(raws[..|raws| - 1]) + if raws[|raws| - 1].Good? then [raws[|raws| - 1].value] else []
  }

  predicate AllGood(raws: seq<Raw>) {
    forall i :: 0 <= i < |raws| ==> raws[i].Good?
  }

  /** Leaving the loop empties the buffer. */
  function Leave(f: Forwarder, e: Exit): Forwarder {
    f.(buffer := [], exit := Some(e))
  }

  /** A notification arrives. */
  function Arrive(f: Forwarder, raw: Raw): Forwarder {
    var g := f.(arrived := f.arrived + [raw]);
    if raw.Bad? then Leave(g, BadMessage)
    else if |f.buffer| == MAX_BUFFER then Leave(g, Overflow)
    else g.(buffer := f.buffer + [raw.value])
  }

  /** The consumer takes the first value of the buffer. */
  function Send(f: Forwarder): Forwarder
    requires f.buffer != []
  {
    f.(buffer := f.buffer[1..], sent := f.sent + [f.buffer[0]])
  }

  /** While the loop runs, what has arrived is what was sent followed by the buffer: nothing is
      lost, doubled or reordered. Whatever ended the loop, what was sent is a prefix of what
      arrived; and an overflow ends it only with a full buffer. */
  predicate Lossless(f: Forwarder) {
    && |f.buffer| <= MAX_BUFFER
    && (f.exit != Some(BadMessage) ==> AllGood(f.arrived))
    && (f.exit.None? ==> Values(f.arrived) == f.sent + f.buffer)
    && (f.exit.Some? ==> f.buffer == [] && f.sent <= Values(f.arrived))
    && (f.exit == Some(Overflow) ==> |Values(f.arrived)| == |f.sent| + MAX_BUFFER + 1)
    && (f.exit == Some(BadMessage) ==>
          f.arrived != [] && f.arrived[|f.arrived| - 1].Bad? && AllGood(f.arrived[..|f.arrived| - 1]))
  }

  lemma ArriveLossless(f: Forwarder, raw: Raw)
    requires Lossless(f) && f.exit.None?
    ensures Lossless(Arrive(f, raw))
  {
    var arrived := f.arrived + [raw];
    assert arrived[..|arrived| - 1] == f.arrived;
    var more := if raw.Good? then [raw.value] else [];
    assert Values(arrived) == Values(f.arrived) + more;
    assert Values(arrived) == f.sent + (f.buffer + more);
  }

  lemma SendLossless(f: Forwarder)
    requires Lossless(f) && f.exit.None? && f.buffer != []
    ensures Lossless(Send(f))
  {
    assert f.buffer == [f.buffer[0]] + f.buffer[1..];
    assert (f.sent + [f.buffer[0]]) + f.buffer[1..] == f.sent + f.buffer;
  }

  lemma QuitLossless(f: Forwarder)
    requires Lossless(f) && f.exit.None?
    ensures Lossless(Leave(f, SawQuit))
  {
    assert f.sent <= f.sent + f.buffer;
  }

  lemma {:induction false} ValuesOfGood(raws: seq<Raw>)
    requires AllGood(raws)
    ensures |Values(raws)| == |raws| && forall i :: 0 <= i < |raws| ==> Values(raws)[i] == raws[i].value
  {
    if raws != [] {
      ValuesOfGood(raws[..|raws| - 1]);
    }
  }

  /** Which case the `select` of the loop chooses; sending only with a buffer that is not empty. */
  datatype Choice = Quit | In(raw: Raw) | Out

  function Choose(f: Forwarder, c: Choice): Forwarder {
    if f.exit.Some? then f
    else match c
      case Quit => Leave(f, SawQuit)
      case In(raw) => Arrive(f, raw)
      case Out => if f.buffer == [] then f else Send(f)
  }

  function ChooseAll(f: Forwarder, cs: seq<Choice>): Forwarder {
    if cs == [] then f else Choose(ChooseAll(f, cs[..|cs| - 1]), cs[|cs| - 1])
  }

  const FRESH_LOOP: Forwarder := Forwarder([], [], [], None)

  /** Whatever is chosen. */
  lemma {:induction false} ChooseAllLossless(cs: seq<Choice>)
    ensures Lossless(ChooseAll(FRESH_LOOP, cs))
  {
    if cs != [] {
      var n := |cs| - 1;
      ChooseAllLossless(cs[..n]);
      var f := ChooseAll(FRESH_LOOP, cs[..n]);
      hide Lossless;
      if f.exit.None? {
        match cs[n]
        case Quit => QuitLossless(f);
        case In(raw) => ArriveLossless(f, raw);
        case Out => if f.buffer != [] { SendLossless(f); }
      }
    }
  }

  // ------------------------------------------------------------------ forwarding, by counting

  /** What the choices come to, as numbers: how many values were taken in, how many of them were sent on,
      and why the loop has returned, if it has. */
  datatype Tally = Tally(taken: nat, given: nat, exit: Option<Exit>)

  function Count(cs: seq<Choice>): (t: Tally)
    ensures t.given <= t.taken
  {
    if cs == [] then Tally(0, 0, None)
    else
      var t := Count(cs[..|cs| - 1]);
      if t.exit.Some? then t
      else match cs[|cs| - 1]
        case Quit => t.(exit := Some(SawQuit))
        case In(Bad) => t.(exit := Some(BadMessage))
        case In(Good(_)) => if t.taken - t.given == 20000 then t.(exit := Some(Overflow)) else t.(taken := t.taken + 1)
        case Out => if t.given < t.taken then t.(given := t.given + 1) else t
  }

  /** The values that the choices bring in. */
  function Incoming(cs: seq<Choice>): seq<int> {
    if cs == [] then []
    else
      var last := cs[|cs| - 1];
      Incoming(cs[..|cs| - 1]) + if last.In? && last.raw.Good? then [last.raw.value] else []
  }

  /** While the loop runs, it has sent the first values that came in, one for each time it chose to send
      and had something to send, and its buffer holds the others. When it has returned, it has sent as
      many, and no more. */
  lemma {:induction false} ForwardsExactly(cs: seq<Choice>)
    ensures var f, t, all := ChooseAll(FRESH_LOOP, cs), Count(cs), Incoming(cs);
      && f.exit == t.exit && t.taken <= |all| && f.sent == all[..t.given]
      && (t.exit.None? ==> t.taken == |all| && f.buffer == all[t.given..])
  {
    if cs != [] {
      var n := |cs| - 1;
      ForwardsExactly(cs[..n]);
      var f, t, all := ChooseAll(FRESH_LOOP, cs[..n]), Count(cs[..n]), Incoming(cs[..n]);
      if f.exit.None? {
        match cs[n]
        case In(Good(v)) =>
          assert (all + [v])[..t.given] == all[..t.given] && (all + [v])[t.given..] == all[t.given..] + [v];
        case Out =>
          if t.given < t.taken {
            assert all[t.given..][1..] == all[t.given + 1..] && all[..t.given] + [all[t.given]] == all[..t.given + 1];
          }
        case _ =>
      }
    }
  }

  /**
   `forward`, given what its selects choose: the values sent to the consumer, and the reason for
   which it returns, if it does. The buffer is a list that is changed in place.
   */
  method Forward(choices: seq<Choice>) returns (sent: seq<int>, exit: Option<Exit>)
    ensures var f := ChooseAll(FRESH_LOOP, choices); sent == f.sent && exit == f.exit && Lossless(f)
    ensures exit == Count(choices).exit
    ensures Count(choices).given <= |Incoming(choices)| && sent == Incoming(choices)[..Count(choices).given]
  {
    hide Lossless, Count, Incoming;
    ChooseAllLossless(choices);
    ForwardsExactly(choices);
    var buffer: seq<int> := [];
    ghost var arrived: seq<Raw> := [];
    sent, exit := [], None;
    var i := 0;
    while i < |choices|
      invariant 0 <= i <= |choices| && exit.None?
      invariant ChooseAll(FRESH_LOOP, choices[..i]) == Forwarder(buffer, sent, arrived, None)
    {
      assert choices[..i + 1][..i] == choices[..i];
      match choices[i] {
        case Quit =>
          exit := Some(SawQuit);
        case In(raw) =>
          arrived := arrived + [raw];
          if raw.Bad? {
            exit := Some(BadMessage);
          } else if |buffer| == MAX_BUFFER {
            exit := Some(Overflow);
          } else {
            buffer := buffer + [raw.value];
          }
        case Out =>
          if buffer != [] {
            sent := sent + [buffer[0]];
            buffer := buffer[1..];
          }
      }
      i := i + 1;
      if exit.Some? {
        AfterExit(choices, i);
        return;
      }
    }
    assert choices[..i] == choices;
  }

  /** Once the loop has returned nothing changes. */
  lemma {:induction false} AfterExit(cs: seq<Choice>, i: nat)
    requires i <= |cs| && ChooseAll(FRESH_LOOP, cs[..i]).exit.Some?
    ensures ChooseAll(FRESH_LOOP, cs) == ChooseAll(FRESH_LOOP, cs[..i])
    decreases |cs|
  {
    if i < |cs| {
      var n := |cs| - 1;
      assert cs[..n][..i] == cs[..i];
      AfterExit(cs[..n], i);
    } else {
      assert cs[..i] == cs;
    }
  }

  // ------------------------------------------------------------------ shutdown

  /** The error that a subscription ends with. */
  datatype Err = ClientQuit | Other(code: int)

  /** Who calls `quitWithError`: `Unsubscribe`, the handler that cancels its subscriptions, or
      the goroutine of the forwarding loop after it has returned. */
  datatype Kind = Unsubscriber | Canceller(err: Err) | Ender(exit: Exit)

  function ErrOf(k: Kind): Option<Err> {
    match k
    case Unsubscriber => None
    case Canceller(err) => Some(err)
    case Ender(SawQuit) => None
    case Ender(BadMessage) => Some(Other(0))
    case Ender(Overflow) => Some(Other(1))
  }

  /** What is put into the `err` channel: nil for a client that quits. */
  function Signalled(k: Kind): seq<Option<int>> {
    match ErrOf(k)
    case None => []
    case Some(ClientQuit) => [None]
    case Some(Other(code)) => [Some(code)]
  }

  /** Where a caller is: before `quitOnce`, at the three statements of its body, after it, and at
      the end. */
  datatype Pc = AtQuit | ClosingQuit | Requesting | Signalling | AfterQuit | Finished

  datatype Thread = Thread(kind: Kind, pc: Pc)

  datatype Once = Fresh | Held(holder: nat) | Completed(kind: Kind)

  datatype State = State(
    loop: Forwarder,
    started: bool,
    offered: seq<Raw>,      // what deliver was called with
    refused: bool,          // deliver has returned false
    skipped: bool,          // deliver has returned true after that
    threads: map<nat, Thread>,
    quitOnce: Once,
    quitCloses: nat,        // how often quit was closed
    errSent: seq<Option<int>>,
    errOnce: bool,
    errCloses: nat,
    misused: bool)          // err was sent on or closed after it was closed, or quit closed again

  datatype Step =
    | Start
    | Accepted(raw: Raw)
    | Refused(raw: Raw)
    | Consumed
    | SeesQuit
    | Ends(tid: nat)
    | Calls(tid: nat, kind: Kind)
    | EntersQuit(tid: nat)
    | ClosesQuit(tid: nat)
    | Requests(tid: nat)
    | Signals(tid: nat)
    | ClosesErr(tid: nat)

  const INITIAL: State := State(FRESH_LOOP, false, [], false, false, map[], Fresh, 0, [], false, 0, false)

  predicate At(s: State, tid: nat, pc: Pc) {
    tid in s.threads && s.threads[tid].pc == pc
  }

  predicate Looping(s: State) {
    s.started && s.loop.exit.None?
  }

  predicate Enabled(s: State, step: Step) {
    match step
    case Start => !s.started
    case Accepted(_) => Looping(s)
    case Refused(_) => s.quitCloses > 0
    case Consumed => Looping(s) && s.loop.buffer != []
    case SeesQuit => Looping(s) && s.quitCloses > 0
    case Ends(tid) => s.started && s.loop.exit.Some? && tid !in s.threads
    case Calls(tid, kind) => tid !in s.threads && !kind.Ender?
    case EntersQuit(tid) => At(s, tid, AtQuit) && !s.quitOnce.Held?
    case ClosesQuit(tid) => At(s, tid, ClosingQuit)
    case Requests(tid) => At(s, tid, Requesting)
    case Signals(tid) => At(s, tid, Signalling)
    case ClosesErr(tid) => At(s, tid, AfterQuit)
  }

  function Moved(s: State, tid: nat, pc: Pc): State
    requires tid in s.threads
  {
    s.(threads := s.threads[tid := s.threads[tid].(pc := pc)])
  }

  /** `quitOnce.Do`: the first caller runs the body; the others wait until it is done. */
  function EnterQuit(s: State, tid: nat): State
    requires tid in s.threads
  {
    if s.quitOnce == Fresh then Moved(s, tid, ClosingQuit).(quitOnce := Held(tid)) else Moved(s, tid, AfterQuit)
  }

  function Signal(s: State, tid: nat): State
    requires tid in s.threads
  {
    var k := s.threads[tid].kind;
    Moved(s, tid, AfterQuit).(
      quitOnce := Completed(k), errSent := s.errSent + Signalled(k),
      misused := s.misused || (Signalled(k) != [] && s.errCloses > 0))
  }

  /** The rest of `Unsubscribe`. */
  function CloseErr(s: State, tid: nat): State
    requires tid in s.threads
  {
    var t := Moved(s, tid, Finished);
    if s.threads[tid].kind != Unsubscriber || s.errOnce then t
    else t.(errOnce := true, errCloses := s.errCloses + 1, misused := s.misused || s.errCloses > 0)
  }

  function Apply(s: State, step: Step): State
    requires Enabled(s, step)
  {
    match step
    case Start => s.(started := true)
    case Accepted(raw) => s.(loop := Arrive(s.loop, raw), offered := s.offered + [raw],
      skipped := s.skipped || s.refused)
    case Refused(raw) => s.(offered := s.offered + [raw], refused := true)
    case Consumed => s.(loop := Send(s.loop))
    case SeesQuit => s.(loop := Leave(s.loop, SawQuit))
    case Ends(tid) => s.(threads := s.threads[tid := Thread(Ender(s.loop.exit.value), AtQuit)])
    case Calls(tid, kind) => s.(threads := s.threads[tid := Thread(kind, AtQuit)])
    case EntersQuit(tid) => EnterQuit(s, tid)
    case ClosesQuit(tid) => Moved(s, tid, Requesting).(quitCloses := s.quitCloses + 1,
      misused := s.misused || s.quitCloses > 0)
    case Requests(tid) => Moved(s, tid, Signalling)
    case Signals(tid) => Signal(s, tid)
    case ClosesErr(tid) => CloseErr(s, tid)
  }

  predicate Run(steps: seq<Step>)
    decreases |steps|, 0
  {
    steps == [] || (var before := steps[..|steps| - 1];
                    Run(before) && Enabled(After(before), steps[|steps| - 1]))
  }

  function After(steps: seq<Step>): State
    requires Run(steps)
    decreases |steps|, 1
  {
    if steps == [] then INITIAL else Apply(After(steps[..|steps| - 1]), steps[|steps| - 1])
  }

  // ------------------------------------------------------------------ the invariant

  predicate InBody(pc: Pc) {
    pc == ClosingQuit || pc == Requesting || pc == Signalling
  }

  /** The body of `quitOnce` is run by its holder alone; whoever is past it found it completed. */
  predicate OnceOk(s: State) {
    && (s.quitOnce.Held? ==> s.quitOnce.holder in s.threads && InBody(s.threads[s.quitOnce.holder].pc))
    && (forall t :: t in s.threads && InBody(s.threads[t].pc) ==> s.quitOnce == Held(t))
    && (forall t :: t in s.threads && (s.threads[t].pc == AfterQuit || s.threads[t].pc == Finished) ==>
      s.quitOnce.Completed?)
  }

  predicate SignalsOk(s: State) {
    && !s.misused
    && s.quitCloses == (match s.quitOnce
                        case Fresh => 0
                        case Held(t) => if At(s, t, ClosingQuit) then 0 else 1
                        case Completed(_) => 1)
    && s.errSent == (if s.quitOnce.Completed? then Signalled(s.quitOnce.kind) else [])
    && s.errCloses == (if s.errOnce then 1 else 0)
    && (s.errOnce ==> s.quitOnce.Completed?)
    && (forall t :: t in s.threads && s.threads[t].pc == Finished && s.threads[t].kind == Unsubscriber ==> s.errOnce)
  }

  /** What the loop has received is what was offered, unless something was refused first. */
  predicate StreamOk(s: State) {
    && Lossless(s.loop)
    && (s.refused ==> s.quitCloses > 0)
    && (s.skipped ==> s.refused)
    && (!s.skipped ==> s.loop.arrived <= s.offered)
    && (!s.refused ==> s.loop.arrived == s.offered)
  }

  predicate Inv(s: State) {
    OnceOk(s) && SignalsOk(s) && StreamOk(s)
  }

  lemma EnterQuitInv(s: State, tid: nat)
    requires Inv(s) && Enabled(s, EntersQuit(tid))
    ensures Inv(EnterQuit(s, tid))
  {
    hide Lossless;
  }

  lemma CloseQuitInv(s: State, tid: nat)
    requires Inv(s) && At(s, tid, ClosingQuit)
    ensures Inv(Apply(s, ClosesQuit(tid)))
  {
    hide Lossless;
  }

  lemma SignalInv(s: State, tid: nat)
    requires Inv(s) && At(s, tid, Signalling)
    ensures Inv(Signal(s, tid))
  {
    hide Lossless;
  }

  lemma CloseErrInv(s: State, tid: nat)
    requires Inv(s) && At(s, tid, AfterQuit)
    ensures Inv(CloseErr(s, tid))
  {
    hide Lossless;
  }

  lemma LoopInv(s: State, step: Step)
    requires Inv(s) && Enabled(s, step) && (step.Accepted? || step.Refused? || step.Consumed? || step.SeesQuit?)
    ensures Inv(Apply(s, step))
  {
    match step
    case Accepted(raw) =>
      ArriveLossless(s.loop, raw);
      assert Arrive(s.loop, raw).arrived == s.loop.arrived + [raw];
    case Consumed => SendLossless(s.loop);
    case SeesQuit => QuitLossless(s.loop);
    case _ =>
  }

  lemma StepKeepsInv(s: State, step: Step)
    requires Inv(s) && Enabled(s, step)
    ensures Inv(Apply(s, step))
  {
    match step
    case EntersQuit(tid) => EnterQuitInv(s, tid);
    case ClosesQuit(tid) => CloseQuitInv(s, tid);
    case Signals(tid) => SignalInv(s, tid);
    case ClosesErr(tid) => CloseErrInv(s, tid);
    case Accepted(_) => LoopInv(s, step);
    case Refused(_) => LoopInv(s, step);
    case Consumed => LoopInv(s, step);
    case SeesQuit => LoopInv(s, step);
    case _ => hide Lossless;
  }

  lemma {:induction false} RunKeepsInv(steps: seq<Step>)
    requires Run(steps)
    ensures Inv(After(steps))
  {
    hide Inv, Apply, Enabled;
    if steps == [] {
      InitialInv();
    } else {
      var before := steps[..|steps| - 1];
      RunKeepsInv(before);
      StepKeepsInv(After(before), steps[|steps| - 1]);
    }
  }

  lemma InitialInv()
    ensures Inv(INITIAL)
  {
  }

  // ------------------------------------------------------------------ the guarantees

  /** In every state of every run: while the loop runs, what it has received is what the consumer
      got followed by the buffer, which holds at most 20000; and afterwards the consumer got a
      prefix of what had arrived. Unless deliver accepted something after having refused
      something, which needs `quit` to be closed, the consumer got a prefix of everything that
      was offered, in that order. */
  lemma StreamIsFifo(steps: seq<Step>)
    requires Run(steps)
    ensures var s := After(steps);
      && |s.loop.buffer| <= MAX_BUFFER
      && (Looping(s) ==> AllGood(s.loop.arrived) && Values(s.loop.arrived) == s.loop.sent + s.loop.buffer)
      && s.loop.sent <= Values(s.loop.arrived)
      && (s.quitCloses == 0 ==> s.loop.arrived == s.offered)
      && (!s.skipped ==> s.loop.sent <= Values(s.offered))
  {
    RunKeepsInv(steps);
    var s := After(steps);
    hide After, Run;
    assert s.loop.sent <= Values(s.loop.arrived);
    if !s.skipped {
      ValuesPrefix(s.loop.arrived, s.offered);
    }
  }

  lemma {:induction false} ValuesPrefix(a: seq<Raw>, b: seq<Raw>)
    requires a <= b
    ensures Values(a) <= Values(b)
    decreases |b|
  {
    if |a| < |b| {
      ValuesPrefix(a, b[..|b| - 1]);
    } else {
      assert a == b;
    }
  }

  /** In every state of every run, whoever ends the subscription and however often: `quit` is
      closed at most once; `err` receives at most one value, that of the first to end it; `err`
      is closed at most once, after that; and nothing is sent on a closed channel. */
  lemma EndsOnce(steps: seq<Step>)
    requires Run(steps)
    ensures var s := After(steps);
      && s.quitCloses <= 1 && |s.errSent| <= 1 && s.errCloses <= 1 && !s.misused
      && (s.errSent != [] ==> s.quitOnce.Completed? && s.errSent == Signalled(s.quitOnce.kind))
      && (s.errCloses > 0 ==> s.quitOnce.Completed? && s.quitCloses == 1)
  {
    RunKeepsInv(steps);
  }

  /** Sending on `err`, which has room for one value, never blocks. */
  lemma SignalHasRoom(steps: seq<Step>, tid: nat)
    requires Run(steps) && Enabled(After(steps), Signals(tid))
    ensures After(steps).errSent == [] && After(steps).errCloses == 0
  {
    RunKeepsInv(steps);
  }

  /** Once `Unsubscribe` has returned, `quit` and `err` are closed. */
  lemma UnsubscribeCloses(steps: seq<Step>, tid: nat)
    requires Run(steps) && At(After(steps), tid, Finished) && After(steps).threads[tid].kind == Unsubscriber
    ensures After(steps).quitCloses == 1 && After(steps).errCloses == 1
  {
    RunKeepsInv(steps);
  }

  // ------------------------------------------------------------------ exactly when one is missed

  /** How many of the steps called deliver, and in how many of them it accepted. */
  function Offers(steps: seq<Step>): nat {
    if steps == [] then 0
    else
      var n := |steps| - 1;
      Offers(steps[..n]) + if steps[n].Accepted? || steps[n].Refused? then 1 else 0
  }

  /** Which of the notifications that were offered the loop has received, by their positions. */
  function Taken(steps: seq<Step>): seq<nat> {
    if steps == [] then []
    else
      var n := |steps| - 1;
      Taken(steps[..n]) + if steps[n].Accepted? then [Offers(steps[..n])] else []
  }

  /** What the loop has received are the offered notifications at those positions, in order. */
  lemma {:induction false} TakenArrived(steps: seq<Step>)
    requires Run(steps)
    ensures |After(steps).offered| == Offers(steps) && |After(steps).loop.arrived| == |Taken(steps)|
    ensures forall k :: 0 <= k < |Taken(steps)| ==>
      Taken(steps)[k] < Offers(steps) && After(steps).loop.arrived[k] == After(steps).offered[Taken(steps)[k]]
    ensures forall j, k :: 0 <= j < k < |Taken(steps)| ==> Taken(steps)[j] < Taken(steps)[k]
  {
    hide Run;
    if steps != [] {
      hide After, Apply, Enabled;
      var n := |steps| - 1;
      BeforeLast(steps);
      TakenArrived(steps[..n]);
      StreamStep(After(steps[..n]), steps[n]);
    }
  }

  lemma BeforeLast(steps: seq<Step>)
    requires Run(steps) && steps != []
    ensures var n := |steps| - 1;
      Run(steps[..n]) && Enabled(After(steps[..n]), steps[n]) && After(steps) == Apply(After(steps[..n]), steps[n])
  {
  }

  /** What one step does to the stream. */
  lemma StreamStep(s: State, step: Step)
    requires Enabled(s, step)
    ensures var t := Apply(s, step);
      && t.offered == s.offered + (if step.Accepted? || step.Refused? then [step.raw] else [])
      && t.loop.arrived == s.loop.arrived + (if step.Accepted? then [step.raw] else [])
      && t.refused == (s.refused || step.Refused?)
      && t.skipped == (s.skipped || (step.Accepted? && s.refused))
  {
    if step.EntersQuit? || step.ClosesQuit? || step.Requests? || step.Signals? || step.ClosesErr? {
      ThreadStep(s, step);
      hide Apply;
    }
  }

  /** The threads that end the subscription do not touch the stream. */
  lemma ThreadStep(s: State, step: Step)
    requires Enabled(s, step)
    requires step.EntersQuit? || step.ClosesQuit? || step.Requests? || step.Signals? || step.ClosesErr?
    ensures var t := Apply(s, step);
      t.loop == s.loop && t.offered == s.offered && t.refused == s.refused && t.skipped == s.skipped
  {
    hide Signalled;
  }

  /** Something was refused before step `k`. */
  predicate RefusedBefore(steps: seq<Step>, k: nat) {
    exists j :: 0 <= j < k && j < |steps| && steps[j].Refused?
  }

  /** Step `k` hands a notification over although an earlier one was refused. */
  predicate LateAccept(steps: seq<Step>, k: nat) {
    k < |steps| && steps[k].Accepted? && RefusedBefore(steps, k)
  }

  ghost predicate SomeLateAccept(steps: seq<Step>) {
    exists k: nat :: LateAccept(steps, k)
  }

  lemma RefusedAtEnd(steps: seq<Step>)
    requires steps != []
    ensures var n := |steps| - 1;
      RefusedBefore(steps, |steps|) <==> RefusedBefore(steps[..n], n) || steps[n].Refused?
  {
    var n := |steps| - 1;
    SameRefusals(steps, n);
    if RefusedBefore(steps, |steps|) && !steps[n].Refused? {
      var j :| 0 <= j < |steps| && steps[j].Refused?;
      assert RefusedBefore(steps, n);
    }
  }

  lemma LateAtEnd(steps: seq<Step>)
    requires steps != []
    ensures var n := |steps| - 1;
      SomeLateAccept(steps) <==> SomeLateAccept(steps[..n]) || (steps[n].Accepted? && RefusedBefore(steps[..n], n))
  {
    var n := |steps| - 1;
    SameRefusals(steps, n);
    hide RefusedBefore;
    forall k: nat | k < n
      ensures LateAccept(steps[..n], k) <==> LateAccept(steps, k)
    {
      SameRefusals(steps, k);
    }
    assert LateAccept(steps, n) <==> steps[n].Accepted? && RefusedBefore(steps[..n], n);
  }

  lemma {:induction false} RefusedExactly(steps: seq<Step>)
    requires Run(steps)
    ensures After(steps).refused <==> RefusedBefore(steps, |steps|)
  {
    hide Run;
    if steps != [] {
      hide After, Apply, Enabled, RefusedBefore;
      var n := |steps| - 1;
      BeforeLast(steps);
      RefusedExactly(steps[..n]);
      StreamStep(After(steps[..n]), steps[n]);
      RefusedAtEnd(steps);
    }
  }

  /** The flag `skipped` is what it is called: some step hands a notification over after a step
      that refused one. */
  lemma {:induction false} SkippedExactly(steps: seq<Step>)
    requires Run(steps)
    ensures After(steps).skipped <==> SomeLateAccept(steps)
  {
    hide Run;
    if steps != [] {
      hide After, Apply, Enabled, RefusedBefore, SomeLateAccept;
      var n := |steps| - 1;
      BeforeLast(steps);
      SkippedExactly(steps[..n]);
      RefusedExactly(steps[..n]);
      StreamStep(After(steps[..n]), steps[n]);
      LateAtEnd(steps);
    }
  }

  lemma SameRefusals(steps: seq<Step>, k: nat)
    requires steps != [] && k < |steps|
    ensures RefusedBefore(steps[..|steps| - 1], k) <==> RefusedBefore(steps, k)
  {
    var before := steps[..|steps| - 1];
    assert forall j :: 0 <= j < |before| ==> before[j] == steps[j];
    if RefusedBefore(steps, k) {
      var j :| 0 <= j < k && j < |steps| && steps[j].Refused?;
      assert before[j].Refused?;
    }
  }

  /** The first `n` received are the first `n` offered. */
  predicate NoGap(steps: seq<Step>, n: nat) {
    forall k :: 0 <= k < n && k < |Taken(steps)| ==> Taken(steps)[k] == k
  }

  lemma StaysRefused(steps: seq<Step>, k: nat)
    ensures RefusedBefore(steps, k) ==> RefusedBefore(steps, |steps|)
  {
  }

  /** While nothing was refused, every offer was taken. */
  lemma {:induction false} AllTaken(steps: seq<Step>)
    requires !RefusedBefore(steps, |steps|)
    ensures Offers(steps) == |Taken(steps)|
  {
    if steps != [] {
      var n := |steps| - 1;
      SameRefusals(steps, n);
      StaysRefused(steps, n);
      AllTaken(steps[..n]);
      assert !steps[n].Refused?;
    }
  }

  lemma {:induction false} FewerTaken(steps: seq<Step>)
    ensures |Taken(steps)| <= Offers(steps)
    ensures RefusedBefore(steps, |steps|) ==> |Taken(steps)| < Offers(steps)
  {
    if steps != [] {
      var n := |steps| - 1;
      FewerTaken(steps[..n]);
      SameRefusals(steps, n);
      if RefusedBefore(steps, |steps|) && !steps[n].Refused? {
        var j :| 0 <= j < |steps| && steps[j].Refused?;
        assert RefusedBefore(steps, n);
      }
    }
  }

  /** The positions up to a step are a prefix of all positions. */
  lemma {:induction false} TakenPrefix(steps: seq<Step>, k: nat)
    requires k <= |steps|
    ensures Taken(steps[..k]) <= Taken(steps)
    decreases |steps| - k
  {
    if k == |steps| {
      assert steps[..k] == steps;
    } else {
      TakenPrefix(steps, k + 1);
      assert steps[..k + 1][..k] == steps[..k];
    }
  }

  /** The position that a hand-over adds counts the offers before it. */
  lemma TakenAt(steps: seq<Step>, k: nat)
    requires k < |steps| && steps[k].Accepted?
    ensures var i := |Taken(steps[..k])|; i < |Taken(steps)| && Taken(steps)[i] == Offers(steps[..k])
    ensures Offers(steps[..k]) == |Taken(steps[..k])| <==> !RefusedBefore(steps, k)
  {
    var before := steps[..k];
    assert steps[..k + 1][..k] == before;
    TakenPrefix(steps, k + 1);
    assert forall j :: 0 <= j < k ==> before[j] == steps[j];
    assert RefusedBefore(before, |before|) <==> RefusedBefore(steps, k);
    FewerTaken(before);
    if !RefusedBefore(before, |before|) {
      AllTaken(before);
    }
  }

  /** The hand-over of the i-th that was received. */
  lemma {:induction false} HandOver(steps: seq<Step>, i: nat) returns (k: nat)
    requires i < |Taken(steps)|
    ensures k < |steps| && steps[k].Accepted? && |Taken(steps[..k])| == i
  {
    var n := |steps| - 1;
    if i < |Taken(steps[..n])| {
      k := HandOver(steps[..n], i);
      assert steps[..n][..k] == steps[..k];
    } else {
      k := n;
    }
  }

  /** The first `n` received are the first `n` offered if and only if none of them was handed over
      after a refusal: for everything that arrived, and for what the consumer got of it. */
  lemma NoGapExactly(steps: seq<Step>, n: nat)
    requires n <= |Taken(steps)|
    ensures NoGap(steps, n) <==> !exists k: nat :: LateAccept(steps, k) && |Taken(steps[..k])| < n
  {
    forall k: nat | LateAccept(steps, k) && |Taken(steps[..k])| < n
      ensures !NoGap(steps, n)
    {
      TakenAt(steps, k);
    }
    if !NoGap(steps, n) {
      var i :| 0 <= i < n && i < |Taken(steps)| && Taken(steps)[i] != i;
      var k := HandOver(steps, i);
      TakenAt(steps, k);
      assert LateAccept(steps, k);
    }
  }

  /** `skipped` says exactly whether the loop has missed a notification that a later one followed. */
  lemma SkippedIsGap(steps: seq<Step>)
    requires Run(steps)
    ensures !After(steps).skipped <==> forall k :: 0 <= k < |Taken(steps)| ==> Taken(steps)[k] == k
  {
    SkippedExactly(steps);
    LateIsGap(steps);
    hide Run, After;
  }

  lemma LateIsGap(steps: seq<Step>)
    ensures !SomeLateAccept(steps) <==> NoGap(steps, |Taken(steps)|)
  {
    NoGapExactly(steps, |Taken(steps)|);
    forall k: nat | LateAccept(steps, k)
      ensures |Taken(steps[..k])| < |Taken(steps)|
    {
      TakenAt(steps, k);
    }
  }

  /** Of what was offered, the consumer got the first ones, without a gap, if and only if nothing
      that it got was handed over after a refusal. */
  lemma ConsumerSeesPrefix(steps: seq<Step>)
    requires Run(steps)
    ensures var s := After(steps);
      && |s.loop.sent| <= |Taken(steps)|
      && (forall k :: 0 <= k < |s.loop.sent| ==>
            Taken(steps)[k] < |s.offered| && s.offered[Taken(steps)[k]] == Good(s.loop.sent[k]))
      && (NoGap(steps, |s.loop.sent|) <==>
          !exists k: nat :: LateAccept(steps, k) && |Taken(steps[..k])| < |s.loop.sent|)
  {
    hide Run, After, Taken, Offers, NoGap, LateAccept, Lossless;
    RunKeepsInv(steps);
    TakenArrived(steps);
    var s := After(steps);
    SentAreFirst(s.loop);
    NoGapExactly(steps, |s.loop.sent|);
  }

  /** What was sent are the values of the first that arrived; all of these could be unmarshalled. */
  lemma SentAreFirst(f: Forwarder)
    requires Lossless(f)
    ensures |f.sent| <= |f.arrived| && forall k :: 0 <= k < |f.sent| ==> f.arrived[k] == Good(f.sent[k])
  {
    var good := if f.exit == Some(BadMessage) then f.arrived[..|f.arrived| - 1] else f.arrived;
    ValuesOfGood(good);
    assert Values(f.arrived) == Values(good);
    assert f.exit.None? ==> f.sent <= f.sent + f.buffer;
    assert f.sent <= Values(good);
  }

  /** A run in which nothing is handed over once `quit` is closed: neither select waits then, and a
      hand-over on an unbuffered channel needs one side that waits. */
  predicate HandsOverWhileOpen(steps: seq<Step>) {
    forall k :: 0 <= k < |steps| && steps[k].Accepted? && Run(steps[..k]) ==> After(steps[..k]).quitCloses == 0
  }

  /** In such runs the consumer got the first of the notifications that were offered, without a
      gap, whatever ended the subscription. */
  lemma OpenRunsHaveNoGap(steps: seq<Step>)
    requires Run(steps) && HandsOverWhileOpen(steps)
    ensures var s := After(steps); !s.skipped && s.loop.sent <= Values(s.offered) && NoGap(steps, |Taken(steps)|)
  {
    NeverSkipped(steps);
    StreamIsFifo(steps);
    SkippedIsGap(steps);
  }

  lemma {:induction false} NeverSkipped(steps: seq<Step>)
    requires Run(steps) && HandsOverWhileOpen(steps)
    ensures !After(steps).skipped
  {
    hide Run;
    if steps != [] {
      hide After, Apply, Enabled;
      var n := |steps| - 1;
      BeforeLast(steps);
      forall k | 0 <= k < n && steps[..n][k].Accepted? && Run(steps[..n][..k])
        ensures After(steps[..n][..k]).quitCloses == 0
      {
        assert steps[..n][..k] == steps[..k];
      }
      NeverSkipped(steps[..n]);
      RunKeepsInv(steps[..n]);
      StreamStep(After(steps[..n]), steps[n]);
    }
  }

  lemma Extend(steps: seq<Step>, step: Step)
    requires Run(steps) && Enabled(After(steps), step)
    ensures Run(steps + [step]) && After(steps + [step]) == Apply(After(steps), step)
  {
    assert (steps + [step])[..|steps|] == steps;
  }

  /** The condition on `skipped` is needed: if a select with `quit` closed may still choose to hand
      a notification over, the consumer can miss one. */
  lemma LateAcceptLeavesGap()
    ensures exists steps ::
      Run(steps) && After(steps).skipped && !(After(steps).loop.sent <= Values(After(steps).offered))
  {
    assert Run([]) && After([]) == INITIAL;
    hide Run, After, Values;
    var a := [] + [Start];
    Extend([], Start);
    var b := a + [Calls(0, Unsubscriber)];
    Extend(a, Calls(0, Unsubscriber));
    var c := b + [EntersQuit(0)];
    Extend(b, EntersQuit(0));
    var d := c + [ClosesQuit(0)];
    Extend(c, ClosesQuit(0));
    GapAfterQuit(d);
  }

  lemma GapAfterQuit(d: seq<Step>)
    requires Run(d) && After(d).quitCloses == 1 && After(d).started && After(d).loop == FRESH_LOOP &&
      After(d).offered == []
    ensures exists steps ::
      Run(steps) && After(steps).skipped && !(After(steps).loop.sent <= Values(After(steps).offered))
  {
    hide Run, After, Moved, EnterQuit, Signal, CloseErr;
    var e := d + [Refused(Good(1))];
    Extend(d, Refused(Good(1)));
    var f := e + [Accepted(Good(2))];
    Extend(e, Accepted(Good(2)));
    var g := f + [Consumed];
    Extend(f, Consumed);
    var s := After(g);
    assert s.loop.sent == [2] && s.offered == [Good(1), Good(2)];
    assert s.offered[..1] == [Good(1)];
    assert Values([Good(1)]) == [1];
    assert Values(s.offered) == [1, 2];
  }
}
