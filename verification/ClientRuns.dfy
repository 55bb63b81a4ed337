/**
 * Safety over whole runs of the client's event loop. A monitor reads the loop's log alone and knows,
 * for every answer sent into a reply channel, which answers its cause permits; every reachable log
 * is accepted by it.
 */
module ClientRuns {
  import opened Wire
  import opened Messages
  import opened ClientSpec

  // ------------------------------------------------------------------ the monitor

  /** Entries that start something: everything else in the log is a consequence of the last of these. */
  predicate IsCause(e: Entry) {
    e.Accepted? || e.Received? || e.SocketLost? || e.DeadlineReached?
  }

  /** The message a waiting request wants to see answered. */
  function Awaited(request: Request): Message {
    if request.Activate? then request.message else DefaultMessage()
  }

  function TimeoutOf(o: Options, request: Request): nat {
    match request
    case SendDiagnostic(_) => o.diagnosticTimeout
    case ReceiveResponse(timeout) => timeout
    case _ => 2000
  }

  predicate IsPositiveAck(m: Message) {
    IsAck(m) && m.payload.ack.code.IsPositive()
  }

  /** Does this message end the wait of this request? */
  predicate Completes(request: Request, m: Message) {
    if request.SendDiagnostic? then IsAck(m) else !IsPositiveAck(m)
  }

  datatype Monitor = Monitor(
    accepted: nat, waiting: Option<(nat, Request)>, newest: Option<(nat, Request)>,
    deadline: int, bound: bool, buffered: Option<Message>, cause: Option<Entry>)
  {
    /** The waiting request has been given its cause and must be answered before anything else happens. */
    predicate Owed() {
      newest.None? && waiting.Some? && cause.Some? &&
      match cause.value
      case Received(m) => Completes(waiting.value.1, m)
      case SocketLost => true
      case DeadlineReached(_) => true
      case _ => false
    }

    predicate Idle() {
      newest.None? && !Owed()
    }
  }

  /** Answers to a request that was never left waiting. */
  predicate ImmediateReply(m: Monitor, request: Request, reply: Reply) {
    match request
    case Bind => reply.Port? || reply == Failed(BindFailed)
    case Unbind => reply == if m.bound then Done else Failed(SocketNotBound)
    case ReceiveResponse(_) =>
      if m.buffered.Some? then reply == Got(m.buffered.value) else !m.bound && reply == Failed(SocketNotBound)
    case _ => reply == Failed(if m.bound then ConnectionClosed else SocketNotBound)
  }

  /** Answers to a waiting request, by what ended its wait. */
  predicate CausedReply(cause: Entry, request: Request, reply: Reply) {
    match cause
    case Received(m) =>
      Completes(request, m)
      && reply == if request.SendDiagnostic? then AckReply(m) else ResponseReply(Awaited(request), m)
    case SocketLost => reply == Failed(SocketClosedUnexpectedly)
    case DeadlineReached(_) => reply == Failed(ResponseTimeoutExceeded)
    case Accepted(_, _) => reply == Failed(RequestSuperseded)
    case _ => false
  }

  predicate Allowed(o: Options, m: Monitor, e: Entry) {
    match e
    case Accepted(id, _) => m.Idle() && id == m.accepted
    case Received(_) => m.Idle() && m.bound
    case SocketLost => m.Idle() && m.bound
    case DeadlineReached(now) => m.Idle() && m.waiting.Some? && now >= m.deadline
    case Sent(message) =>
      if m.newest.Some? then
        m.waiting.None? && m.bound
        && (m.newest.value.1 == Activate(message) || m.newest.value.1 == SendDiagnostic(message))
      else
        m.bound && m.cause.Some? && m.cause.value.Received? && m.cause.value.message.payload.AliveCheckRequest?
        && message == AliveCheckResponseMessage(o.version, o.address)
    case Armed(id, at, deadline) =>
      && m.waiting.None? && m.newest.Some? && m.bound
      && m.newest.value.0 == id && deadline == at + TimeoutOf(o, m.newest.value.1)
      && !m.newest.value.1.Bind? && !m.newest.value.1.Unbind?
      && (m.newest.value.1.ReceiveResponse? ==> m.buffered.None?)
    case Buffered(message) =>
      m.newest.None? && m.waiting.None? && m.cause == Some(Received(message)) && message.payload.DiagnosticMessage?
    case Forwarded(message) =>
      m.newest.None? && m.waiting.None? && m.cause == Some(Received(message)) && !message.payload.DiagnosticMessage?
    case Answered(id, reply) =>
      if m.waiting.Some? then
        && m.waiting.value.0 == id && m.cause.Some? && CausedReply(m.cause.value, m.waiting.value.1, reply)
        && (m.cause.value.Accepted? ==> m.newest.Some?)
      else m.newest.Some? && m.newest.value.0 == id && ImmediateReply(m, m.newest.value.1, reply)
  }

  function Advance(m: Monitor, e: Entry): Monitor {
    match e
    case Accepted(id, request) => m.(accepted := id + 1, newest := Some((id, request)), cause := Some(e))
    case Received(_) => m.(cause := Some(e))
    case SocketLost => m.(bound := false, cause := Some(e))
    case DeadlineReached(_) => m.(cause := Some(e))
    case Sent(_) => m
    case Armed(_, _, deadline) => m.(waiting := m.newest, newest := None, deadline := deadline)
    case Buffered(message) => m.(buffered := Some(message))
    case Forwarded(_) => m
    case Answered(_, reply) =>
      if m.waiting.Some? then m.(waiting := None)
      else if m.newest.None? then m
      else
        match m.newest.value.1
        case Bind => m.(newest := None, bound := reply.Port?)
        case Unbind => m.(newest := None, bound := false)
        case ReceiveResponse(_) => m.(newest := None, buffered := None)
        case _ => m.(newest := None)
  }

  const START: Monitor := Monitor(0, None, None, 0, false, None, None)

  function Watch(log: Log): Monitor {
    if log == [] then START else Advance(Watch(log[..|log| - 1]), log[|log| - 1])
  }

  predicate Lawful(o: Options, log: Log) {
    log != [] ==> Lawful(o, log[..|log| - 1]) && Allowed(o, Watch(log[..|log| - 1]), log[|log| - 1])
  }

  lemma Extend(o: Options, log: Log, e: Entry)
    ensures Watch(log + [e]) == Advance(Watch(log), e)
    ensures Lawful(o, log + [e]) <==> Lawful(o, log) && Allowed(o, Watch(log), e)
  {
    assert (log + [e])[..|log|] == log;
  }

  // ----------------------------------------------------------- the loop stays in step

  /** The waiting request as the loop stores it. */
  predicate Stores(waiting: Option<(nat, Request)>, active: Option<ControlMessage>) {
    match active
    case None => waiting.None?
    case Some(AwaitAck(id)) => waiting.Some? && waiting.value.0 == id && waiting.value.1.SendDiagnostic?
    case Some(AwaitResponse(m, id)) =>
      waiting.Some? && waiting.value.0 == id && Awaited(waiting.value.1) == m
      && (waiting.value.1.Activate? || waiting.value.1.ReceiveResponse?)
    case _ => false
  }

  /** Monitor and loop agree, apart from which request is active. */
  predicate Agree(c: Client, m: Monitor) {
    m.accepted == c.accepted && m.bound == c.socket && m.buffered == c.buffered
  }

  /** Between iterations, and inside one before its consequences are drawn. */
  ghost predicate InStep(o: Options, c: Client) {
    var m := Watch(c.log);
    && Lawful(o, c.log) && Agree(c, m) && m.newest.None?
    && Stores(m.waiting, c.active)
    && (c.active.Some? ==> c.deadline == Some(m.deadline))
  }

  /** A loop top: nothing is owed, and only a request that waits is pending. */
  ghost predicate AtTop(o: Options, c: Client) {
    InStep(o, c) && !Watch(c.log).Owed()
  }

  lemma Answering(o: Options, c: Client, reply: Reply)
    requires InStep(o, c) && c.active.Some? && Watch(c.log).cause.Some?
    requires CausedReply(Watch(c.log).cause.value, Watch(c.log).waiting.value.1, reply)
    requires !Watch(c.log).cause.value.Accepted?
    ensures AtTop(o, c.(active := None).Answer(c.active.value.id, reply))
  {
    hide CausedReply, ImmediateReply;
    Extend(o, c.log, Answered(c.active.value.id, reply));
  }

  /** A cause has just been noted, and the waiting request, if any, is still there. */
  lemma Noting(o: Options, c: Client, e: Entry)
    requires AtTop(o, c) && (e.Received? || e.SocketLost?) && c.socket
    ensures var c' := c.Note(e).(socket := c.socket && !e.SocketLost?);
            InStep(o, c') && Watch(c'.log).cause == Some(e)
  {
    Extend(o, c.log, e);
  }

  lemma TimingOut(o: Options, c: Client, now: int)
    requires AtTop(o, c) && c.active.Some? && c.deadline.Some? && now >= c.deadline.value
    ensures AtTop(o, ReachDeadline(c, now))
  {
    hide Watch, Lawful;
    Extend(o, c.log, DeadlineReached(now));
    var noted := c.Note(DeadlineReached(now));
    Answering(o, noted, Failed(ResponseTimeoutExceeded));
  }

  lemma Losing(o: Options, c: Client)
    requires AtTop(o, c) && c.socket
    ensures AtTop(o, ProcessError(c))
  {
    hide Watch, Lawful;
    Noting(o, c, SocketLost);
    var noted := c.Note(SocketLost).(socket := false);
    if c.active.Some? {
      Answering(o, noted, Failed(SocketClosedUnexpectedly));
    }
  }

  /** A message that goes past the ack handling ends a wait for a response or is kept or passed on. */
  lemma Delivering(o: Options, c: Client, m: Message, env: Env)
    requires InStep(o, c) && Watch(c.log).cause == Some(Received(m)) && !IsPositiveAck(m)
    requires IsAck(m) ==> c.active.None? || !c.active.value.AwaitAck?
    ensures AtTop(o, Deliver(c, m, env).0)
  {
    hide Watch, Lawful, ResponseReply;
    if c.active.Some? {
      if c.active.value.AwaitResponse? {
        Answering(o, c, ResponseReply(c.active.value.message, m));
      }
    } else {
      Extend(o, c.log, Buffered(m));
      Extend(o, c.log, Forwarded(m));
    }
  }

  lemma Receiving(o: Options, c: Client, m: Message, env: Env)
    requires AtTop(o, c) && c.socket
    ensures AtTop(o, ProcessMessage(c, o, m, env).0)
  {
    hide Watch, Lawful, Deliver, AckReply, AliveCheckResponseMessage;
    Noting(o, c, Received(m));
    var noted := c.Note(Received(m));
    assert noted.(socket := true) == noted;
    match m.payload
    case AliveCheckRequest =>
      var alive := AliveCheckResponseMessage(o.version, o.address);
      Extend(o, noted.log, Sent(alive));
      Delivering(o, SendResult(noted, alive, env).0, m, env);
    case DiagnosticMessageAck(ack) =>
      if c.active.Some? && c.active.value.AwaitAck? {
        Answering(o, noted, AckReply(m));
      } else if !ack.code.IsPositive() {
        Delivering(o, noted, m, env);
      }
    case _ => Delivering(o, noted, m, env);
  }

  /** A request has been taken in and nothing older is waiting any more. */
  ghost predicate Admitted(o: Options, c: Client, id: nat, request: Request) {
    var m := Watch(c.log);
    && Lawful(o, c.log) && Agree(c, m)
    && m.newest == Some((id, request)) && m.waiting.None? && c.active == Some(ControlOf(request, id))
  }

  lemma Admitting(o: Options, c: Client, request: Request)
    requires AtTop(o, c)
    ensures Admitted(o, Accept(c, request), c.accepted, request)
  {
    hide Watch, Lawful;
    var id := c.accepted;
    Extend(o, c.log, Accepted(id, request));
    var log := c.log + [Accepted(id, request)];
    if c.active.Some? {
      Extend(o, log, Answered(c.active.value.id, Failed(RequestSuperseded)));
    }
  }

  lemma WaitingStarts(o: Options, c: Client, id: nat, request: Request, waiting: ControlMessage, now: int)
    requires Admitted(o, c, id, request) && c.socket && waiting.id == id
    requires if request.SendDiagnostic? then waiting.AwaitAck?
             else waiting == AwaitResponse(Awaited(request), id) && (request.Activate? || request.ReceiveResponse?)
    requires request.ReceiveResponse? ==> c.buffered.None?
    ensures AtTop(o, Wait(c, waiting, now, TimeoutOf(o, request)))
  {
    hide Watch, Lawful, ImmediateReply, CausedReply;
    Extend(o, c.log, Armed(id, now, now + TimeoutOf(o, request)));
    CauseOfNewest(o, c.log);
  }

  /** While a request is being taken in, taking it in is the last cause. */
  lemma {:induction false} CauseOfNewest(o: Options, log: Log)
    requires Lawful(o, log) && Watch(log).newest.Some?
    ensures Watch(log).cause.Some? && Watch(log).cause.value.Accepted?
  {
    hide CausedReply, ImmediateReply;
    if !log[|log| - 1].Accepted? {
      CauseOfNewest(o, log[..|log| - 1]);
    }
  }

  /** A request that is not left waiting is answered at once. */
  lemma AnsweringAtOnce(o: Options, c: Client, id: nat, request: Request, reply: Reply, c': Client)
    requires Admitted(o, c, id, request) && ImmediateReply(Watch(c.log), request, reply)
    requires c'.log == c.log + [Answered(id, reply)] && c'.active.None? && c'.accepted == c.accepted
    requires c'.socket == (match request case Bind => reply.Port? case Unbind => false case _ => c.socket)
    requires c'.buffered == if request.ReceiveResponse? then None else c.buffered
    ensures AtTop(o, c')
  {
    hide Watch, Lawful, CausedReply;
    Extend(o, c.log, Answered(id, reply));
  }

  lemma SendingFirst(o: Options, c: Client, id: nat, request: Request)
    requires Admitted(o, c, id, request) && c.socket && (request.Activate? || request.SendDiagnostic?)
    ensures Admitted(o, c.Note(Sent(request.message)), id, request)
  {
    hide Watch, Lawful;
    Extend(o, c.log, Sent(request.message));
  }

  lemma Taking(o: Options, c: Client, id: nat, request: Request, env: Env)
    requires Admitted(o, c, id, request)
    ensures AtTop(o, HandleControl(c, o, env))
  {
    hide Watch, Lawful, Admitted, AtTop, DefaultMessage;
    var c' := HandleControl(c, o, env);
    assert Agree(c, Watch(c.log)) by { AdmittedAgrees(o, c, id, request); }
    assert c.active == Some(ControlOf(request, id)) by { AdmittedAgrees(o, c, id, request); }
    match request
    case Bind => AnsweringAtOnce(o, c, id, request, BindResult(c.(active := None), env).1, c');
    case Unbind => AnsweringAtOnce(o, c, id, request, if c.socket then Done else Failed(SocketNotBound), c');
    case ReceiveResponse(timeout) =>
      if c.buffered.Some? {
        AnsweringAtOnce(o, c, id, request, Got(c.buffered.value), c');
      } else if !c.socket {
        AnsweringAtOnce(o, c, id, request, Failed(SocketNotBound), c');
      } else {
        WaitingStarts(o, c, id, request, AwaitResponse(DefaultMessage(), id), env.now);
      }
    case Activate(m) =>
      if c.socket && env.sendWorks {
        SendingFirst(o, c, id, request);
        WaitingStarts(o, c.Note(Sent(m)), id, request, AwaitResponse(m, id), env.now);
      } else {
        AnsweringAtOnce(o, c, id, request, Failed(if c.socket then ConnectionClosed else SocketNotBound), c');
      }
    case SendDiagnostic(m) =>
      if c.socket && env.sendWorks {
        SendingFirst(o, c, id, request);
        WaitingStarts(o, c.Note(Sent(m)), id, request, AwaitAck(id), env.now);
      } else {
        AnsweringAtOnce(o, c, id, request, Failed(if c.socket then ConnectionClosed else SocketNotBound), c');
      }
  }

  lemma AdmittedAgrees(o: Options, c: Client, id: nat, request: Request)
    requires Admitted(o, c, id, request)
    ensures Agree(c, Watch(c.log)) && c.active == Some(ControlOf(request, id))
  {
  }

  /** A request that is already waiting is left exactly as it is. */
  lemma WaitingIsRestored(o: Options, c: Client, env: Env)
    requires AtTop(o, c)
    ensures HandleControl(c, o, env) == c
  {
    hide Watch, Lawful;
  }

  lemma IterationKeepsStep(o: Options, c: Client, e: Event, env: Env)
    requires AtTop(o, c) && Enabled(c, e, env)
    ensures AtTop(o, Iterate(c, o, e, env))
  {
    hide AtTop, HandleControl, ReachDeadline, Accept, ProcessMessage, ProcessError;
    match e
    case Deadline =>
      TimingOut(o, c, env.now);
      WaitingIsRestored(o, ReachDeadline(c, env.now), env);
    case Control(request) =>
      Admitting(o, c, request);
      Taking(o, Accept(c, request), c.accepted, request, env);
    case ControlClosed => StoppingKeepsStep(o, c);
    case Delivered(m) =>
      Receiving(o, c, m, env);
      var c' := ProcessMessage(c, o, m, env).0;
      WaitingIsRestored(o, c', env);
      StoppingKeepsStep(o, c');
    case SocketError =>
      Losing(o, c);
      WaitingIsRestored(o, ProcessError(c), env);
  }

  lemma StoppingKeepsStep(o: Options, c: Client)
    requires AtTop(o, c)
    ensures AtTop(o, c.(running := false))
  {
  }

  /** Every run of the loop is lawful, and between iterations only a request that waits is pending. */
  lemma {:induction false} EveryScriptIsLawful(o: Options, script: Script)
    requires Possible(NewClient(), o, script)
    ensures AtTop(o, RunScript(NewClient(), o, script))
  {
    hide Iterate, Enabled;
    if script == [] {
      NewClientIsInStep(o);
    } else {
      hide AtTop;
      var (e, env) := script[|script| - 1];
      EveryScriptIsLawful(o, script[..|script| - 1]);
      IterationKeepsStep(o, RunScript(NewClient(), o, script[..|script| - 1]), e, env);
    }
  }

  lemma NewClientIsInStep(o: Options)
    ensures AtTop(o, NewClient())
  {
  }
}
