/** Answering requests that the peer sends (`gethrpc/handler.go`, `gethrpc/json.go`). */
module BatchAnswer {
  import opened Options

  /** A `jsonrpcMessage`: the id as raw JSON, and which of the other fields are present. */
  datatype Message = Message(id: Option<string>, name: string, hasParams: bool, hasResult: bool, hasError: bool) {
    predicate IsNotification() {
      id.None? && name != ""
    }
    predicate HasValidId() {
      id.Some? && |id.value| > 0 && id.value[0] != '{' && id.value[0] != '['
    }
    predicate IsCall() {
      HasValidId() && name != ""
    }
    predicate IsResponse() {
      HasValidId() && name == "" && !hasParams && (hasResult || hasError)
    }
  }

  /** What calling a method comes to: no such method, arguments that do not fit, an error of the
      method (or of marshalling its result) with its code, or a result. */
  datatype Outcome = MethodNotFound | InvalidParams | MethodError(code: int) | Returned(value: int)

  const INVALID_REQUEST: int := -32600
  const METHOD_NOT_FOUND: int := -32601
  const INVALID_PARAMS: int := -32602

  datatype Body = Error(code: int) | Result(value: int)
  datatype Answer = Answer(id: string, body: Body)

  /** What is written: nothing, one message, or a list of messages. */
  datatype Reply = Nothing | One(answer: Answer) | Many(answers: seq<Answer>)

  /** `errorMessage`. */
  function ErrorMessage(code: int): Answer {
    Answer("null", Error(code))
  }

  /** `errorResponse`. */
  function ErrorResponse(m: Message, code: int): Answer {
    ErrorMessage(code).(id := m.id.GetOr(""))
  }

  /** `handleCall` and `runMethod`. */
  function HandleCall(m: Message, o: Outcome): Answer {
    match o
    case MethodNotFound => ErrorResponse(m, METHOD_NOT_FOUND)
    case InvalidParams => ErrorResponse(m, INVALID_PARAMS)
    case MethodError(code) => ErrorResponse(m, code)
    case Returned(v) => Answer(m.id.GetOr(""), Result(v))
  }

  /** `handleCallMsg`. */
  function HandleCallMsg(m: Message, o: Outcome): Option<Answer> {
    if m.IsNotification() then None
    else if m.IsCall() then Some(HandleCall(m, o))
    else if m.HasValidId() then Some(ErrorResponse(m, INVALID_REQUEST))
    else Some(ErrorMessage(INVALID_REQUEST))
  }

  // ------------------------------------------------------------------ what a reply must be

  /** An id that is there and is neither an object nor a list. */
  predicate ValidId(m: Message) {
    match m.id
    case None => false
    case Some(raw) => raw != "" && raw[0] !in "{["
  }

  /** A message that must be answered. It is no notification, which has a method and no id at all, and no
      response, which has a valid id, no method and no parameters, and a result or an error. */
  predicate Asks(m: Message) {
    && !(m.name != "" && m.id == None)
    && !(ValidId(m) && m.name == "" && !m.hasParams && (m.hasResult || m.hasError))
  }

  /** Where the messages are that must be answered, in order. */
  function Asking(msgs: seq<Message>): seq<nat> {
    if msgs == [] then []
    else
      var n := |msgs| - 1;
      Asking(msgs[..n]) + if Asks(msgs[n]) then [n] else []
  }

  /** Where the others are. */
  function Immediate(msgs: seq<Message>): seq<nat> {
    if msgs == [] then []
    else
      var n := |msgs| - 1;
      Immediate(msgs[..n]) + if Asks(msgs[n]) then [] else [n]
  }

  /** An answer to a message, by section 5 of the JSON-RPC 2.0 specification: it has the
      message's id, or null when that is not valid; it is a result or an error, and an error
      other than the method's own says what was wrong. */
  predicate Answers(a: Answer, m: Message, o: Outcome) {
    && (if ValidId(m) then Some(a.id) == m.id else a.id == "null")
    && a.body == if !ValidId(m) || m.name == "" then Error(-32600)
                 else match o
                   case MethodNotFound => Error(-32601)
                   case InvalidParams => Error(-32602)
                   case MethodError(code) => Error(code)
                   case Returned(v) => Result(v)
  }

  /** The list of answers: one for each message that must be answered, in the same order. */
  predicate AnswersAll(answers: seq<Answer>, msgs: seq<Message>, outcomes: seq<Outcome>, asking: seq<nat>)
    requires |outcomes| == |msgs| && forall k :: 0 <= k < |asking| ==> asking[k] < |msgs|
  {
    |answers| == |asking| && forall k :: 0 <= k < |asking| ==> Answers(answers[k], msgs[asking[k]], outcomes[asking[k]])
  }

  /** `Asking` is what it says: the positions of exactly those messages, in increasing order. */
  lemma {:induction false} AskingIs(msgs: seq<Message>)
    ensures forall k :: 0 <= k < |Asking(msgs)| ==> Asking(msgs)[k] < |msgs| && Asks(msgs[Asking(msgs)[k]])
    ensures forall j, k :: 0 <= j < k < |Asking(msgs)| ==> Asking(msgs)[j] < Asking(msgs)[k]
    ensures forall i :: 0 <= i < |msgs| && Asks(msgs[i]) ==> i in Asking(msgs)
  {
    if msgs != [] {
      var n := |msgs| - 1;
      AskingIs(msgs[..n]);
      forall i | 0 <= i < |msgs| && Asks(msgs[i])
        ensures i in Asking(msgs)
      {
        if i < n {
          assert msgs[..n][i] == msgs[i];
        } else {
          assert Asking(msgs)[|Asking(msgs)| - 1] == n;
        }
      }
    }
  }

  lemma {:induction false} ImmediateIs(msgs: seq<Message>)
    ensures forall k :: 0 <= k < |Immediate(msgs)| ==> Immediate(msgs)[k] < |msgs| && !Asks(msgs[Immediate(msgs)[k]])
    ensures forall j, k :: 0 <= j < k < |Immediate(msgs)| ==> Immediate(msgs)[j] < Immediate(msgs)[k]
    ensures |Immediate(msgs)| + |Asking(msgs)| == |msgs|
  {
    if msgs != [] {
      ImmediateIs(msgs[..|msgs| - 1]);
    }
  }

  /** A message that asks is answered, and its answer fits. */
  lemma AskedIsAnswered(m: Message, o: Outcome)
    requires Asks(m)
    ensures HandleCallMsg(m, o).Some? && Answers(HandleCallMsg(m, o).value, m, o)
  {
  }

  // ------------------------------------------------------------------ handling

  /** The first loop of `handleBatch`: the messages that need no reply are handled at once, in
      their order, and the others are kept. */
  method HandleImmediate(msgs: seq<Message>) returns (calls: seq<nat>, immediate: seq<nat>)
    ensures calls == Asking(msgs) && immediate == Immediate(msgs)
  {
    calls, immediate := [], [];
    var i := 0;
    while i < |msgs|
      invariant 0 <= i <= |msgs|
      invariant calls == Asking(msgs[..i]) && immediate == Immediate(msgs[..i])
    {
      assert msgs[..i + 1][..i] == msgs[..i];
      if msgs[i].IsNotification() || msgs[i].IsResponse() {
        immediate := immediate + [i];
      } else {
        calls := calls + [i];
      }
      i := i + 1;
    }
    assert msgs[..i] == msgs;
  }

  /** The second loop: the answers that are not nil. */
  method AnswerCalls(msgs: seq<Message>, outcomes: seq<Outcome>, calls: seq<nat>) returns (answers: seq<Answer>)
    requires |outcomes| == |msgs|
    requires forall k :: 0 <= k < |calls| ==> calls[k] < |msgs| && Asks(msgs[calls[k]])
    ensures AnswersAll(answers, msgs, outcomes, calls)
  {
    hide Answers, HandleCallMsg, Asks;
    answers := [];
    var j := 0;
    while j < |calls|
      invariant 0 <= j <= |calls|
      invariant AnswersAll(answers, msgs, outcomes, calls[..j])
    {
      AskedIsAnswered(msgs[calls[j]], outcomes[calls[j]]);
      var answer := HandleCallMsg(msgs[calls[j]], outcomes[calls[j]]);
      if answer.Some? {
        answers := answers + [answer.value];
      }
      j := j + 1;
    }
    assert calls[..j] == calls;
  }

  /**
   `handleBatch`. The messages that need no reply are handled first, in their order. An empty
   batch is answered with an error. Otherwise nothing is written when no message asks; and when
   some do, exactly one list with one answer for each of them.
   */
  method HandleBatch(msgs: seq<Message>, outcomes: seq<Outcome>) returns (immediate: seq<nat>, reply: Reply)
    requires |outcomes| == |msgs|
    ensures immediate == Immediate(msgs)
    ensures msgs == [] ==> reply == One(Answer("null", Error(-32600)))
    ensures msgs != [] ==> (reply == Nothing <==> forall i :: 0 <= i < |msgs| ==> !Asks(msgs[i]))
    ensures msgs != [] && reply != Nothing ==>
      reply.Many? && (forall k :: 0 <= k < |Asking(msgs)| ==> Asking(msgs)[k] < |msgs|) &&
      AnswersAll(reply.answers, msgs, outcomes, Asking(msgs))
  {
    immediate, reply := [], Nothing;
    if |msgs| == 0 {
      reply := One(ErrorMessage(INVALID_REQUEST));
      return;
    }
    AskingIs(msgs);
    hide Asking, Immediate, Asks, Answers;
    var calls;
    calls, immediate := HandleImmediate(msgs);
    if |calls| == 0 {
      return;
    }
    var answers := AnswerCalls(msgs, outcomes, calls);
    if |answers| > 0 {
      reply := Many(answers);
    }
    assert Asks(msgs[calls[0]]);
  }

  /** `handleMsg`: the same for a message by itself. */
  method HandleMsg(m: Message, o: Outcome) returns (immediate: bool, reply: Reply)
    ensures immediate == !Asks(m)
    ensures !Asks(m) ==> reply == Nothing
    ensures Asks(m) ==> reply.One? && Answers(reply.answer, m, o)
  {
    immediate, reply := false, Nothing;
    if m.IsNotification() || m.IsResponse() {
      immediate := true;
      return;
    }
    var answer := HandleCallMsg(m, o);
    if answer.Some? {
      reply := One(answer.value);
    }
  }
}
