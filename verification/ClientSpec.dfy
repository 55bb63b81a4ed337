/**
 * The client's request loop on values. One iteration takes one of three events (a deadline, a control
 * message, something from the socket) and leaves at most one request waiting. Everything the loop
 * does is recorded in a log; the outcome of each operation outside it is part of the event.
 */
module ClientSpec {
  import opened Wire
  import opened Codes
  import opened Messages

  /** How long a routing activation may stay unanswered, in milliseconds. */
  const INITIAL_INACTIVITY: nat := 2000

  datatype Options = Options(version: ProtocolVersion, address: u16, diagnosticTimeout: nat)

  datatype ClientError =
    | SocketNotBound
    | ConnectionClosed
    | SocketClosedUnexpectedly
    | ResponseTimeoutExceeded
    | RequestSuperseded
    | DiagnosticMessageNack(code: DiagnosticAckCode)
    | UnexpectedMessageType(payloadType: PayloadType)
    | RoutingActivationDenied(activationCode: ActivationCode)
    | BindFailed

  /** What is sent into a request's reply channel. */
  datatype Reply =
    | Port(port: u16)
    | Done
    | Got(message: Message)
    | Failed(error: ClientError)

  /** What the outer client may ask for. */
  datatype Request =
    | Bind
    | Unbind
    | Activate(message: Message)
    | SendDiagnostic(message: Message)
    | ReceiveResponse(timeout: nat)

  /** A request in the loop; `id` names its reply channel. */
  datatype ControlMessage =
    | BindSocket(id: nat)
    | UnbindSocket(id: nat)
    | RoutingActivation(message: Message, id: nat)
    | AwaitResponse(message: Message, id: nat)
    | SendDiagnosticMessage(message: Message, id: nat)
    | ReceiveDiagnosticResponse(timeout: nat, id: nat)
    | AwaitAck(id: nat)

  function ControlOf(request: Request, id: nat): ControlMessage {
    match request
    case Bind => BindSocket(id)
    case Unbind => UnbindSocket(id)
    case Activate(m) => RoutingActivation(m, id)
    case SendDiagnostic(m) => SendDiagnosticMessage(m, id)
    case ReceiveResponse(timeout) => ReceiveDiagnosticResponse(timeout, id)
  }

  datatype Entry =
    | Accepted(id: nat, request: Request)
    | Received(message: Message)
    | SocketLost
    | DeadlineReached(now: int)
    | Sent(message: Message)
    | Armed(id: nat, at: int, deadline: int)
    | Buffered(message: Message)
    | Forwarded(message: Message)
    | Answered(id: nat, reply: Reply)

  type Log = seq<Entry>

  datatype Client = Client(
    active: Option<ControlMessage>, deadline: Option<int>, socket: bool, buffered: Option<Message>,
    accepted: nat, running: bool, log: Log)
  {
    function Note(e: Entry): Client {
      this.(log := log + [e])
    }

    function Answer(id: nat, reply: Reply): Client {
      Note(Answered(id, reply))
    }
  }

  function NewClient(): Client {
    Client(None, None, false, None, 0, true, [])
  }

  /** How operations outside the loop turn out during one iteration. */
  datatype Env = Env(now: int, bindResult: Option<u16>, sendWorks: bool, callerGone: bool, updatesGone: bool)

  datatype Event =
    | Deadline
    | Control(request: Request)
    | ControlClosed
    | Delivered(message: Message)
    | SocketError

  // ------------------------------------------------------------ control messages

  function BindResult(c: Client, env: Env): (Client, Reply) {
    match env.bindResult
    case Some(port) => (c.(socket := true), Port(port))
    case None => (c.(socket := false), Failed(BindFailed))
  }

  /** Hand a message to the socket; the error says why it was not accepted. */
  function SendResult(c: Client, m: Message, env: Env): (Client, Option<ClientError>) {
    if !c.socket then (c, Some(SocketNotBound))
    else if env.sendWorks then (c.Note(Sent(m)), None)
    else (c, Some(ConnectionClosed))
  }

  /** Leave a request waiting, with a deadline of its own. */
  function Wait(c: Client, waiting: ControlMessage, now: int, timeout: nat): Client {
    c.(active := Some(waiting), deadline := Some(now + timeout)).Note(Armed(waiting.id, now, now + timeout))
  }

  function HandleControl(c0: Client, o: Options, env: Env): Client {
    if c0.active.None? then c0
    else
      var c := c0.(active := None);
      match c0.active.value
      case BindSocket(id) => var (c', reply) := BindResult(c, env); c'.Answer(id, reply)
      case UnbindSocket(id) =>
        if c.socket then c.(socket := false).Answer(id, Done) else c.Answer(id, Failed(SocketNotBound))
      case RoutingActivation(m, id) =>
        (match SendResult(c, m, env)
         case (c', None) => Wait(c', AwaitResponse(m, id), env.now, INITIAL_INACTIVITY)
         case (c', Some(error)) => c'.Answer(id, Failed(error)))
      case SendDiagnosticMessage(m, id) =>
        (match SendResult(c, m, env)
         case (c', None) => Wait(c', AwaitAck(id), env.now, o.diagnosticTimeout)
         case (c', Some(error)) => c'.Answer(id, Failed(error)))
      case ReceiveDiagnosticResponse(timeout, id) =>
        if c.buffered.Some? then c.(buffered := None).Answer(id, Got(c.buffered.value))
        else if !c.socket then c.Answer(id, Failed(SocketNotBound))
        else Wait(c, AwaitResponse(DefaultMessage(), id), env.now, timeout)
      case AwaitResponse(_, _) => c0
      case AwaitAck(_) => c0
  }

  function Supersede(c: Client): Client {
    var c' := c.(active := None, deadline := None);
    if c.active.Some? then c'.Answer(c.active.value.id, Failed(RequestSuperseded)) else c'
  }

  // ----------------------------------------------------------- socket and timer

  /** Is this the ack that ends a send? */
  predicate IsAck(m: Message) {
    m.payload.DiagnosticMessageAck?
  }

  function AckReply(m: Message): Reply
    requires IsAck(m)
  {
    if m.payload.ack.code.IsPositive() then Done else Failed(ClientError.DiagnosticMessageNack(m.payload.ack.code))
  }

  function ResponseReply(request: Message, m: Message): Reply {
    if request.IsResponse(m.header.payloadType) then Got(m) else Failed(UnexpectedMessageType(m.header.payloadType))
  }

  /** A message nobody is waiting for: a diagnostic response is kept, anything else goes to the update channel. */
  function Unclaimed(c: Client, m: Message, env: Env): (Client, bool) {
    if m.payload.DiagnosticMessage? then (c.(buffered := Some(m)).Note(Buffered(m)), false)
    else (c.Note(Forwarded(m)), env.updatesGone)
  }

  /** A message that did not complete a send goes to whoever awaits a response. */
  function Deliver(c: Client, m: Message, env: Env): (Client, bool) {
    match c.active
    case Some(AwaitResponse(request, id)) =>
      (c.(active := None).Answer(id, ResponseReply(request, m)), env.callerGone)
    case Some(_) => (c, false)
    case None => Unclaimed(c, m, env)
  }

  /** One message from the socket; the flag says whether the loop must end. */
  function ProcessMessage(c0: Client, o: Options, m: Message, env: Env): (Client, bool) {
    var c := c0.Note(Received(m));
    match m.payload
    case AliveCheckRequest =>
      Deliver(SendResult(c, AliveCheckResponseMessage(o.version, o.address), env).0, m, env)
    case DiagnosticMessageAck(ack) =>
      if c.active.Some? && c.active.value.AwaitAck? then
        (c.(active := None, deadline := None).Answer(c.active.value.id, AckReply(m)), false)
      else if ack.code.IsPositive() then (c, false)
      else Deliver(c, m, env)
    case _ => Deliver(c, m, env)
  }

  /** Tell a waiting request that it will not be answered; other requests are put back. */
  function Abort(c: Client, error: ClientError): Client {
    match c.active
    case Some(AwaitResponse(_, id)) => c.(active := None).Answer(id, Failed(error))
    case Some(AwaitAck(id)) => c.(active := None).Answer(id, Failed(error))
    case _ => c
  }

  function ProcessError(c: Client): Client {
    var aborted := Abort(c.(socket := false, deadline := None).Note(SocketLost), SocketClosedUnexpectedly);
    aborted.(active := None)
  }

  function ReachDeadline(c: Client, now: int): Client {
    Abort(c.Note(DeadlineReached(now)), ResponseTimeoutExceeded).(deadline := None)
  }

  function Accept(c: Client, request: Request): Client {
    var id := c.accepted;
    Supersede(c.(accepted := id + 1).Note(Accepted(id, request))).(active := Some(ControlOf(request, id)))
  }

  // -------------------------------------------------------------------- the loop

  /** Which events the loop can see. */
  predicate Enabled(c: Client, e: Event, env: Env) {
    c.running &&
    match e
    case Deadline => c.active.Some? && c.deadline.Some? && env.now >= c.deadline.value
    case Delivered(_) => c.socket
    case SocketError => c.socket
    case _ => true
  }

  function Iterate(c: Client, o: Options, e: Event, env: Env): Client {
    match e
    case Deadline => HandleControl(ReachDeadline(c, env.now), o, env)
    case Control(request) => HandleControl(Accept(c, request), o, env)
    case ControlClosed => c.(running := false)
    case Delivered(m) =>
      var (c', exit) := ProcessMessage(c, o, m, env);
      if exit then c'.(running := false) else HandleControl(c', o, env)
    case SocketError => HandleControl(ProcessError(c), o, env)
  }

  /** A script of events, each with how the outside world behaved. */
  type Script = seq<(Event, Env)>

  function RunScript(c: Client, o: Options, script: Script): Client {
    if script == [] then c
    else
      var (e, env) := script[|script| - 1];
      Iterate(RunScript(c, o, script[..|script| - 1]), o, e, env)
  }

  /** Every event of the script was one the loop could see when it came. */
  predicate Possible(c: Client, o: Options, script: Script) {
    script != [] ==>
      var front, (e, env) := script[..|script| - 1], script[|script| - 1];
      Possible(c, o, front) && Enabled(RunScript(c, o, front), e, env)
  }
}
