/**
 * What each event must lead to: the outcome every request gets, what happens to every message, how the
 * loop ends, and how the outer client reads the answer to its activation request.
 */
module ClientOutcomes {
  import opened Wire
  import opened Codes
  import opened Messages
  import opened ClientSpec
  import opened ClientRuns
  import opened ClientTheorems
  import opened ClientPending

  // -------------------------------------------------------------------- requests

  /** How a request is taken in: answered at once with `reply`, or sent and left waiting until `deadline`. */
  datatype Outcome = AtOnce(reply: Reply) | Waits(sent: seq<Message>, deadline: int)

  /** By what the loop finds: a socket, a kept response, a bind or a send that works. */
  function OutcomeOf(o: Options, socket: bool, kept: Option<Message>, request: Request, env: Env): Outcome {
    match request
    case Bind => AtOnce(if env.bindResult.Some? then Port(env.bindResult.value) else Failed(BindFailed))
    case Unbind => AtOnce(if socket then Done else Failed(SocketNotBound))
    case ReceiveResponse(timeout) =>
      if kept.Some? then AtOnce(Got(kept.value))
      else if !socket then AtOnce(Failed(SocketNotBound))
      else Waits([], env.now + timeout)
    case Activate(m) =>
      if !socket then AtOnce(Failed(SocketNotBound))
      else if !env.sendWorks then AtOnce(Failed(ConnectionClosed))
      else Waits([m], env.now + 2000)
    case SendDiagnostic(m) =>
      if !socket then AtOnce(Failed(SocketNotBound))
      else if !env.sendWorks then AtOnce(Failed(ConnectionClosed))
      else Waits([m], env.now + o.diagnosticTimeout)
  }

  /** What taking a request in adds to the log, after telling an older request that it was superseded. */
  function Intake(id: nat, request: Request, older: Option<ControlMessage>, outcome: Outcome, now: int): Log {
    [Accepted(id, request)]
    + (if older.Some? then [Answered(older.value.id, Failed(RequestSuperseded))] else [])
    + match outcome
      case AtOnce(reply) => [Answered(id, reply)]
      case Waits(sent, deadline) => (if sent == [] then [] else [Sent(sent[0])]) + [Armed(id, now, deadline)]
  }

  /** Every request has exactly that outcome, and a bind or an unbind decides about the socket. */
  lemma RequestsHaveOutcomes(c: Client, o: Options, request: Request, env: Env)
    ensures var outcome := OutcomeOf(o, c.socket, c.buffered, request, env);
            var c' := Iterate(c, o, Control(request), env);
            && c'.log == c.log + Intake(c.accepted, request, c.active, outcome, env.now)
            && c'.accepted == c.accepted + 1 && c'.running == c.running
            && (c'.active.Some? <==> outcome.Waits?) && (outcome.Waits? ==> c'.deadline == Some(outcome.deadline))
            && c'.socket == (match request case Bind => env.bindResult.Some? case Unbind => false case _ => c.socket)
            && c'.buffered == if request.ReceiveResponse? then None else c.buffered
  {
    hide DefaultMessage;
    var c1 := Accept(c, request);
    var older := if c.active.Some? then [Answered(c.active.value.id, Failed(RequestSuperseded))] else [];
    assert c1.log == c.log + ([Accepted(c.accepted, request)] + older);
    IntakeOutcome(c1, o, request, c.accepted, env);
    var outcome := OutcomeOf(o, c.socket, c.buffered, request, env);
    var last := match outcome
                case AtOnce(reply) => [Answered(c.accepted, reply)]
                case Waits(sent, deadline) => (if sent == [] then [] else [Sent(sent[0])]) + [Armed(c.accepted, env.now, deadline)];
    assert c.log + ([Accepted(c.accepted, request)] + older) + last
           == c.log + Intake(c.accepted, request, c.active, outcome, env.now);
  }

  lemma IntakeOutcome(c: Client, o: Options, request: Request, id: nat, env: Env)
    requires c.active == Some(ControlOf(request, id))
    ensures var outcome := OutcomeOf(o, c.socket, c.buffered, request, env);
            var c' := HandleControl(c, o, env);
            && c'.log == c.log + (match outcome
                                  case AtOnce(reply) => [Answered(id, reply)]
                                  case Waits(sent, deadline) =>
                                    (if sent == [] then [] else [Sent(sent[0])]) + [Armed(id, env.now, deadline)])
            && c'.accepted == c.accepted && c'.running == c.running
            && (c'.active.Some? <==> outcome.Waits?) && (outcome.Waits? ==> c'.deadline == Some(outcome.deadline))
            && c'.socket == (match request case Bind => env.bindResult.Some? case Unbind => false case _ => c.socket)
            && c'.buffered == if request.ReceiveResponse? then None else c.buffered
  {
    hide DefaultMessage;
    if (request.Activate? || request.SendDiagnostic?) && c.socket && env.sendWorks {
      var deadline := env.now + TimeoutOf(o, request);
      assert c.log + [Sent(request.message)] + [Armed(id, env.now, deadline)]
             == c.log + ([Sent(request.message)] + [Armed(id, env.now, deadline)]);
    }
  }

  // -------------------------------------------------------------------- messages

  /** The alive check response, byte by byte. */
  lemma AliveCheckResponseBytes(version: ProtocolVersion, source: u16)
    ensures var v := version.Byte();
            EncodeMessage(AliveCheckResponseMessage(version, source))
            == Ok([v, 0xFF - v, 0x00, 0x08, 0x00, 0x00, 0x00, 0x02] + U16Bytes(source))
  {
    hide U16Bytes;
    var h := AliveCheckResponseMessage(version, source).DerivedHeader();
    assert U16Bytes(0x0008) == [0x00, 0x08] && U32Bytes(2) == [0x00, 0x00, 0x00, 0x02] by { SmallNumbers(); }
    assert HeaderBytes(h) == [version.Byte(), 0xFF - version.Byte(), 0x00, 0x08, 0x00, 0x00, 0x00, 0x02];
  }

  lemma SmallNumbers()
    ensures U16Bytes(0x0008) == [0x00, 0x08] && U32Bytes(2) == [0x00, 0x00, 0x00, 0x02]
  {
  }

  /** An alive check request is answered on every connection that can send, whatever is pending, before anything else. */
  lemma AliveChecksAreAnswered(c: Client, o: Options, m: Message, env: Env)
    requires c.socket && env.sendWorks && m.payload.AliveCheckRequest?
    ensures var (c', v) := (Iterate(c, o, Delivered(m), env), o.version.Byte());
            && |c'.log| >= |c.log| + 2 && c'.log[..|c.log|] == c.log && c'.log[|c.log|] == Received(m)
            && c'.log[|c.log| + 1].Sent?
            && EncodeMessage(c'.log[|c.log| + 1].message)
               == Ok([v, 0xFF - v, 0x00, 0x08, 0x00, 0x00, 0x00, 0x02] + U16Bytes(o.address))
  {
    hide HandleControl, EncodeMessage, AliveCheckResponseMessage, U16Bytes;
    AliveCheckResponseBytes(o.version, o.address);
    var alive := AliveCheckResponseMessage(o.version, o.address);
    var sent := c.Note(Received(m)).Note(Sent(alive));
    var more := DeliveryAdds(sent, m, env);
    var c1 := ProcessMessage(c, o, m, env).0;
    assert c1.log == (c.log + [Received(m)] + [Sent(alive)]) + more;
    var last := ControlAdds(c1, o, env);
  }

  /** How a message answers what is pending: an ack a send, anything but a positive ack a wait for a response. */
  function AnswerTo(pending: ControlMessage, m: Message): Option<Reply> {
    match pending
    case AwaitAck(_) =>
      if !m.payload.DiagnosticMessageAck? then None
      else if m.payload.ack.code == RoutingConfirmationAck then Some(Done)
      else Some(Failed(ClientError.DiagnosticMessageNack(m.payload.ack.code)))
    case AwaitResponse(request, _) =>
      if m.payload.DiagnosticMessageAck? && m.payload.ack.code == RoutingConfirmationAck then None
      else if request.IsResponse(m.header.payloadType) then Some(Got(m))
      else Some(Failed(UnexpectedMessageType(m.header.payloadType)))
    case _ => None
  }

  /** Every message is answered to the pending request in exactly that way, and otherwise leaves it waiting. */
  lemma PendingMessages(c: Client, o: Options, m: Message, env: Env)
    requires c.active.Some? && (c.active.value.AwaitAck? || c.active.value.AwaitResponse?)
    ensures var (c', answer) := (Iterate(c, o, Delivered(m), env), AnswerTo(c.active.value, m));
            && |c'.log| > |c.log| && c'.log[..|c.log|] == c.log && c'.log[|c.log|] == Received(m)
            && c'.socket == c.socket && c'.buffered == c.buffered
            && (answer.Some? ==> c'.active.None? && c'.log[|c'.log| - 1] == Answered(c.active.value.id, answer.value))
            && (answer.None? ==> c'.active == c.active && !c'.log[|c'.log| - 1].Answered?)
  {
    hide HandleControl, ProcessMessage, AnswerTo;
    ProcessedPending(c, o, m, env);
    WaitingOrIdle(ProcessMessage(c, o, m, env).0, o, env);
  }

  lemma ProcessedPending(c: Client, o: Options, m: Message, env: Env)
    requires c.active.Some? && (c.active.value.AwaitAck? || c.active.value.AwaitResponse?)
    ensures var (c', answer) := (ProcessMessage(c, o, m, env).0, AnswerTo(c.active.value, m));
            && |c'.log| > |c.log| && c'.log[..|c.log|] == c.log && c'.log[|c.log|] == Received(m)
            && c'.socket == c.socket && c'.buffered == c.buffered
            && (answer.Some? ==> c'.active.None? && c'.log[|c'.log| - 1] == Answered(c.active.value.id, answer.value))
            && (answer.None? ==> c'.active == c.active && !c'.log[|c'.log| - 1].Answered?)
  {
    hide SendResult, Deliver, AliveCheckResponseMessage;
    var (noted, alive) := (c.Note(Received(m)), AliveCheckResponseMessage(o.version, o.address));
    if m.payload.AliveCheckRequest? {
      var sent := SendResult(noted, alive, env).0;
      assert sent == noted || sent == noted.Note(Sent(alive)) by { SendingAddsAtMost(noted, alive, env); }
      PendingDelivery(sent, m, env);
    } else {
      PendingDelivery(noted, m, env);
    }
  }

  lemma PendingDelivery(c: Client, m: Message, env: Env)
    requires c.active.Some? && (c.active.value.AwaitAck? || c.active.value.AwaitResponse?)
    ensures Deliver(c, m, env).0
            == if c.active.value.AwaitAck? then c
               else c.(active := None).Answer(c.active.value.id, ResponseReply(c.active.value.message, m))
  {
  }

  lemma WaitingOrIdle(c: Client, o: Options, env: Env)
    requires c.active.None? || c.active.value.AwaitAck? || c.active.value.AwaitResponse?
    ensures HandleControl(c, o, env) == c
  {
  }

  /**
   * A message nobody waits for: a diagnostic message is kept in place of an older one, a positive ack is
   * dropped, and everything else is handed to the update channel.
   */
  lemma UnclaimedMessages(c: Client, o: Options, m: Message, env: Env)
    requires c.active.None?
    ensures var c' := Iterate(c, o, Delivered(m), env);
            && |c'.log| > |c.log| && c'.active.None? && c'.socket == c.socket
            && (m.payload.DiagnosticMessage? ==> c'.log[|c'.log| - 1] == Buffered(m) && c'.buffered == Some(m))
            && (IsPositiveAck(m) ==> c'.log == c.log + [Received(m)])
            && (!m.payload.DiagnosticMessage? && !IsPositiveAck(m) ==> c'.log[|c'.log| - 1] == Forwarded(m))
            && (!m.payload.DiagnosticMessage? ==> c'.buffered == c.buffered)
  {
    hide HandleControl, Deliver, SendResult, AckReply, AliveCheckResponseMessage;
    var (noted, alive) := (c.Note(Received(m)), AliveCheckResponseMessage(o.version, o.address));
    var sent := SendResult(noted, alive, env).0;
    assert sent == noted || sent == noted.Note(Sent(alive)) by { SendingAddsAtMost(noted, alive, env); }
    UnclaimedDelivery(noted, m, env);
    UnclaimedDelivery(sent, m, env);
    IdleIsLeft(ProcessMessage(c, o, m, env).0, o, env);
  }

  lemma SendingAddsAtMost(c: Client, m: Message, env: Env)
    ensures SendResult(c, m, env).0 == c || SendResult(c, m, env).0 == c.Note(Sent(m))
  {
  }

  lemma UnclaimedDelivery(c: Client, m: Message, env: Env)
    requires c.active.None?
    ensures Deliver(c, m, env).0
            == if m.payload.DiagnosticMessage? then c.(buffered := Some(m)).Note(Buffered(m)) else c.Note(Forwarded(m))
  {
  }

  // ------------------------------------------------------------- the end of the loop

  /**
   * The loop ends exactly when its callers are gone: the control channel closes, the caller of a
   * completed wait has left, or a message for the update channel finds nobody there.
   */
  lemma LoopEndsIff(c: Client, o: Options, e: Event, env: Env)
    requires c.running
    ensures !Iterate(c, o, e, env).running <==>
              || e.ControlClosed?
              || (e.Delivered? && !IsPositiveAck(e.message) && env.callerGone
                  && c.active.Some? && c.active.value.AwaitResponse?)
              || (e.Delivered? && !IsPositiveAck(e.message) && !e.message.payload.DiagnosticMessage? && env.updatesGone
                  && c.active.None?)
  {
    hide AliveCheckResponseMessage, ResponseReply, DefaultMessage;
    match e
    case Delivered(m) =>
      ControlKeepsRunning(ProcessMessage(c, o, m, env).0, o, env);
    case Deadline => ControlKeepsRunning(ReachDeadline(c, env.now), o, env);
    case Control(request) => ControlKeepsRunning(Accept(c, request), o, env);
    case SocketError => ControlKeepsRunning(ProcessError(c), o, env);
    case ControlClosed =>
  }

  lemma ControlKeepsRunning(c: Client, o: Options, env: Env)
    ensures HandleControl(c, o, env).running == c.running
  {
    hide DefaultMessage;
  }

  // ------------------------------------------------------------- the outer client

  /** The outer client proceeds exactly without an answer or with one of the two success codes; an error is passed on. */
  lemma ProceedsIff(port: u16, answer: Option<Reply>)
    requires answer.Some? ==> answer.value.Got? || answer.value.Failed?
    ensures var r := ActivationDecision(port, answer);
            && (r.Port? <==>
                  || answer.None?
                  || (answer.value.Got? && answer.value.message.payload.RoutingActivationResponse?
                      && answer.value.message.payload.response.code in {RoutingSuccessfullyActivated, RoutingSuccessfullyActivatedConfirmationRequired}))
            && (r.Port? ==> r.port == port) && (r.Port? || r.Failed?)
            && (answer.Some? && answer.value.Failed? ==> r == answer.value)
  {
  }

  /** The activation request the outer client sends, byte by byte. */
  lemma ActivationRequestByBytes(version: ProtocolVersion, source: u16, activationType: ActivationType, tail: Option<Bytes4>)
    ensures var (v, size) := (version.Byte(), if tail.Some? then 0x0B else 0x07);
            EncodeMessage(ActivationRequestMessage(version, source, activationType, tail))
            == Ok([v, 0xFF - v, 0x00, 0x05, 0x00, 0x00, 0x00, size]
                  + (U16Bytes(source) + ([activationType.Byte()] + ([0x00, 0x00, 0x00, 0x00] + TailBytes(tail)))))
  {
    hide ActivationType.Byte;
    var m := ActivationRequestMessage(version, source, activationType, tail);
    var size: u8 := if tail.Some? then 0x0B else 0x07;
    ActivationHeaderBytes(version, size);
  }

  lemma ActivationHeaderBytes(version: ProtocolVersion, size: u8)
    ensures HeaderBytes(NewHeader(version, PayloadType.RoutingActivationRequest, size))
            == [version.Byte(), 0xFF - version.Byte(), 0x00, 0x05, 0x00, 0x00, 0x00, size]
  {
    PrintedHeaderByBytes(NewHeader(version, PayloadType.RoutingActivationRequest, size));
  }
}
