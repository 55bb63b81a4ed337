/**
 * What a pending request has been through, over every run of the client's loop, and what the client
 * has put on and taken off its connection.
 */
module ClientPending {
  import opened Wire
  import opened Messages
  import opened ClientSpec
  import opened ClientRuns

  // ------------------------------------------------------------ the connection's traffic

  /** The answer that hands out a new connection. */
  predicate Opens(e: Entry) {
    e.Answered? && e.reply.Port?
  }

  /** What a message is on the wire; nothing when it has no wire form. */
  function WireForm(m: Message): seq<Bytes> {
    match EncodeMessage(m)
    case Ok(bytes) => [bytes]
    case Err(_) => []
  }

  /** The frames sent since the connection was opened. */
  function SentFrames(log: Log): seq<Bytes> {
    if log == [] || Opens(log[|log| - 1]) then []
    else
      var front, e := log[..|log| - 1], log[|log| - 1];
      SentFrames(front) + (if e.Sent? then WireForm(e.message) else [])
  }

  /** The messages received since the connection was opened. */
  function ReceivedMessages(log: Log): seq<Message> {
    if log == [] || Opens(log[|log| - 1]) then []
    else
      var front, e := log[..|log| - 1], log[|log| - 1];
      ReceivedMessages(front) + (if e.Received? then [e.message] else [])
  }

  lemma TrafficExtends(log: Log, e: Entry)
    requires !Opens(e)
    ensures SentFrames(log + [e]) == SentFrames(log) + (if e.Sent? then WireForm(e.message) else [])
    ensures ReceivedMessages(log + [e]) == ReceivedMessages(log) + (if e.Received? then [e.message] else [])
  {
    assert (log + [e])[..|log|] == log;
  }

  predicate Plain(e: Entry) {
    !e.Received? && !Opens(e)
  }

  /** Entries that neither receive nor open add at most frames. */
  lemma {:induction false} PlainTraffic(log: Log, more: Log)
    requires forall i :: 0 <= i < |more| ==> Plain(more[i])
    ensures SentFrames(log) <= SentFrames(log + more) && ReceivedMessages(log + more) == ReceivedMessages(log)
  {
    hide WireForm;
    if more == [] {
      assert log + more == log;
    } else {
      var front, e := more[..|more| - 1], more[|more| - 1];
      PlainTraffic(log, front);
      TrafficExtends(log + front, e);
      assert (log + front) + [e] == log + more;
    }
  }

  lemma ControlAdds(c: Client, o: Options, env: Env) returns (more: Log)
    ensures HandleControl(c, o, env).log == c.log + more
    ensures forall i :: 0 <= i < |more| ==> !more[i].Received?
    ensures !(c.active.Some? && c.active.value.BindSocket?) || env.bindResult.None? ==>
              forall i :: 0 <= i < |more| ==> Plain(more[i])
  {
    hide DefaultMessage;
    more := [];
    if c.active.Some? {
      match c.active.value
      case BindSocket(id) => more := [Answered(id, BindResult(c, env).1)];
      case UnbindSocket(id) => more := [Answered(id, if c.socket then Done else Failed(SocketNotBound))];
      case RoutingActivation(m, id) => more := SendAdds(c.(active := None), m, id, env, INITIAL_INACTIVITY);
      case SendDiagnosticMessage(m, id) => more := SendAdds(c.(active := None), m, id, env, o.diagnosticTimeout);
      case ReceiveDiagnosticResponse(timeout, id) =>
        more := [if c.buffered.Some? then Answered(id, Got(c.buffered.value))
                 else if c.socket then Armed(id, env.now, env.now + timeout) else Answered(id, Failed(SocketNotBound))];
      case _ =>
    }
  }

  /** Sending a request's message and arming it, or reporting that it was not sent. */
  lemma SendAdds(c: Client, m: Message, id: nat, env: Env, timeout: nat) returns (more: Log)
    ensures forall i :: 0 <= i < |more| ==> Plain(more[i])
    ensures SendResult(c, m, env).1.None? ==>
              SendResult(c, m, env).0.Note(Armed(id, env.now, env.now + timeout)).log == c.log + more
    ensures SendResult(c, m, env).1.Some? ==>
              SendResult(c, m, env).0.Answer(id, Failed(SendResult(c, m, env).1.value)).log == c.log + more
  {
    var sent, armed := Sent(m), Armed(id, env.now, env.now + timeout);
    if SendResult(c, m, env).1.None? {
      more := [sent, armed];
      assert c.log + [sent] + [armed] == c.log + more;
    } else {
      more := [Answered(id, Failed(SendResult(c, m, env).1.value))];
    }
  }

  lemma MessageAdds(c: Client, o: Options, m: Message, env: Env) returns (more: Log)
    ensures ProcessMessage(c, o, m, env).0.log == (c.log + [Received(m)]) + more
    ensures forall i :: 0 <= i < |more| ==> Plain(more[i])
  {
    hide AliveCheckResponseMessage, Deliver, AckReply;
    var noted := c.Note(Received(m));
    more := [];
    match m.payload
    case AliveCheckRequest =>
      var alive := AliveCheckResponseMessage(o.version, o.address);
      var sent := SendResult(noted, alive, env).0;
      var late := DeliveryAdds(sent, m, env);
      var early := if c.socket && env.sendWorks then [Sent(alive)] else [];
      more := early + late;
      assert (noted.log + early) + late == noted.log + more;
    case DiagnosticMessageAck(ack) =>
      if c.active.Some? && c.active.value.AwaitAck? {
        more := [Answered(c.active.value.id, AckReply(m))];
        assert !Opens(more[0]) by { AckIsNoPort(m); }
      } else if !ack.code.IsPositive() {
        more := DeliveryAdds(noted, m, env);
      }
    case _ => more := DeliveryAdds(noted, m, env);
  }

  lemma AckIsNoPort(m: Message)
    requires IsAck(m)
    ensures !AckReply(m).Port?
  {
  }

  lemma DeliveryAdds(c: Client, m: Message, env: Env) returns (more: Log)
    ensures Deliver(c, m, env).0.log == c.log + more && forall i :: 0 <= i < |more| ==> Plain(more[i])
  {
    more := match c.active
            case Some(AwaitResponse(request, id)) => [Answered(id, ResponseReply(request, m))]
            case Some(_) => []
            case None => [if m.payload.DiagnosticMessage? then Buffered(m) else Forwarded(m)];
  }

  lemma TimerAdds(c: Client, now: int) returns (more: Log)
    ensures ReachDeadline(c, now).log == c.log + more && forall i :: 0 <= i < |more| ==> Plain(more[i])
  {
    more := ReachDeadline(c, now).log[|c.log|..];
  }

  lemma ErrorAdds(c: Client) returns (more: Log)
    ensures ProcessError(c).log == c.log + more && forall i :: 0 <= i < |more| ==> Plain(more[i])
  {
    more := ProcessError(c).log[|c.log|..];
  }

  lemma AcceptAdds(c: Client, request: Request) returns (more: Log)
    ensures Accept(c, request).log == c.log + more && forall i :: 0 <= i < |more| ==> Plain(more[i])
  {
    more := Accept(c, request).log[|c.log|..];
  }

  lemma PlainThenControl(before: Client, c: Client, o: Options, env: Env, more: Log)
    requires c.log == before.log + more && forall i :: 0 <= i < |more| ==> Plain(more[i])
    requires !(c.active.Some? && c.active.value.BindSocket?) || env.bindResult.None?
    ensures SentFrames(before.log) <= SentFrames(HandleControl(c, o, env).log)
    ensures ReceivedMessages(HandleControl(c, o, env).log) == ReceivedMessages(before.log)
  {
    hide HandleControl, SentFrames, ReceivedMessages;
    var last := ControlAdds(c, o, env);
    PlainTraffic(before.log, more);
    PlainTraffic(c.log, last);
  }

  predicate IsBind(e: Event, env: Env) {
    e.Control? && e.request.Bind? && env.bindResult.Some?
  }

  /** One iteration receives exactly the message it was given, and only adds to what was sent. */
  lemma IterationTraffic(c: Client, o: Options, e: Event, env: Env)
    requires !IsBind(e, env)
    requires c.active.Some? ==> !c.active.value.BindSocket?
    ensures SentFrames(c.log) <= SentFrames(Iterate(c, o, e, env).log)
    ensures ReceivedMessages(Iterate(c, o, e, env).log)
            == ReceivedMessages(c.log) + (if e.Delivered? then [e.message] else [])
  {
    hide HandleControl, ProcessMessage, SentFrames, ReceivedMessages;
    match e
    case Deadline =>
      var more := TimerAdds(c, env.now);
      PlainThenControl(c, ReachDeadline(c, env.now), o, env, more);
    case Control(request) =>
      var more := AcceptAdds(c, request);
      PlainThenControl(c, Accept(c, request), o, env, more);
    case ControlClosed =>
    case Delivered(m) =>
      var more := MessageAdds(c, o, m, env);
      var c' := ProcessMessage(c, o, m, env).0;
      TrafficExtends(c.log, Received(m));
      assert c'.active == c.active || c'.active.None? by { MessageKeepsActive(c, o, m, env); }
      PlainThenControl(c.Note(Received(m)), c', o, env, more);
      PlainTraffic(c.log + [Received(m)], more);
    case SocketError =>
      var more := ErrorAdds(c);
      PlainThenControl(c, ProcessError(c), o, env, more);
  }

  lemma MessageKeepsActive(c: Client, o: Options, m: Message, env: Env)
    ensures var active := ProcessMessage(c, o, m, env).0.active; active == c.active || active.None?
  {
    hide ResponseReply, AckReply, AliveCheckResponseMessage;
  }

  /** A successful bind opens a connection with nothing on it. */
  lemma BindingOpens(c: Client, o: Options, env: Env)
    requires env.bindResult.Some?
    ensures var c' := Iterate(c, o, Control(Bind), env);
            SentFrames(c'.log) == [] && ReceivedMessages(c'.log) == [] && c'.active.None?
  {
  }

  // --------------------------------------------------------------- a pending request

  /** Arriving or leaving while the request waits on: a message that does not end it, or the reply to an alive check. */
  predicate Passes(request: Request, log: Log, l: nat)
    requires l < |log|
  {
    || (log[l].Received? && !Completes(request, log[l].message))
    || (log[l].Sent? && l >= 1 && log[l - 1].Received? && log[l - 1].message.payload.AliveCheckRequest?)
  }

  /**
   * The pending request was accepted at `k` and armed at `a`, its message sent just before; nothing
   * was received in between, and since then only what does not end its wait has passed.
   */
  ghost predicate Outstanding(c: Client, request: Request, k: nat, a: nat) {
    && k < a < |c.log| && c.active.Some?
    && c.log[k] == Accepted(c.active.value.id, request)
    && c.log[a].Armed? && c.log[a].id == c.active.value.id
    && (match request
        case SendDiagnostic(_) => c.active.value.AwaitAck?
        case Activate(m) => c.active.value == AwaitResponse(m, c.active.value.id)
        case ReceiveResponse(_) => c.active.value == AwaitResponse(DefaultMessage(), c.active.value.id)
        case _ => false)
    && (!request.ReceiveResponse? ==> c.log[a - 1] == Sent(request.message))
    && (forall l :: k < l < a ==> Plain(c.log[l]))
    && (forall l :: a < l < |c.log| ==> Passes(request, c.log, l))
  }

  ghost predicate Tracked(c: Client) {
    c.active.Some? ==> exists request, k, a :: Outstanding(c, request, k, a)
  }

  /** What taking a request in leaves pending, and the entries it ends with. */
  lemma TakenIn(c: Client, o: Options, request: Request, id: nat, env: Env)
    requires c.active == Some(ControlOf(request, id)) && HandleControl(c, o, env).active.Some?
    ensures var c' := HandleControl(c, o, env);
            var n := |c'.log|;
            && n > |c.log| && c'.log[..|c.log|] == c.log
            && c'.log[n - 1].Armed? && c'.log[n - 1].id == id && c'.active.value.id == id
            && (match request
                case SendDiagnostic(_) => c'.active.value.AwaitAck?
                case Activate(m) => c'.active.value == AwaitResponse(m, id)
                case ReceiveResponse(_) => c'.active.value == AwaitResponse(DefaultMessage(), id)
                case _ => false)
            && (if request.ReceiveResponse? then n == |c.log| + 1
                else n == |c.log| + 2 && c'.log[n - 2] == Sent(request.message))
  {
    hide DefaultMessage;
  }

  lemma TakenInIsTracked(c: Client, o: Options, request: Request, env: Env)
    ensures Tracked(HandleControl(Accept(c, request), o, env))
  {
    hide HandleControl, DefaultMessage;
    var c1 := Accept(c, request);
    var c' := HandleControl(c1, o, env);
    if c'.active.Some? {
      TakenIn(c1, o, request, c.accepted, env);
      var (k, a) := (|c.log|, |c'.log| - 1);
      assert c1.log[k] == Accepted(c.accepted, request);
      assert forall l :: 0 <= l < |c1.log| ==> c'.log[l] == c1.log[l];
      assert Outstanding(c', request, k, a);
    }
  }

  /** A message that leaves a request pending does not end its wait, and at most answers an alive check. */
  lemma PassedBy(c: Client, o: Options, m: Message, env: Env, request: Request)
    requires c.active.Some? && ProcessMessage(c, o, m, env).0.active.Some?
    requires if request.SendDiagnostic? then c.active.value.AwaitAck? else c.active.value.AwaitResponse?
    ensures var (c', n) := (ProcessMessage(c, o, m, env).0, |c.log|);
            && c'.active == c.active && !Completes(request, m)
            && n < |c'.log| <= n + 2 && c'.log[..n] == c.log && c'.log[n] == Received(m)
            && (|c'.log| == n + 2 ==> m.payload.AliveCheckRequest? && c'.log[n + 1].Sent?)
  {
    hide AliveCheckResponseMessage;
  }

  lemma PassingIsTracked(c: Client, o: Options, m: Message, env: Env, request: Request, k: nat, a: nat)
    requires Outstanding(c, request, k, a) && ProcessMessage(c, o, m, env).0.active.Some?
    ensures Outstanding(ProcessMessage(c, o, m, env).0, request, k, a)
  {
    hide ProcessMessage, DefaultMessage, Completes;
    var c' := ProcessMessage(c, o, m, env).0;
    PassedBy(c, o, m, env, request);
    assert forall l :: 0 <= l < |c.log| ==> c'.log[l] == c.log[l];
    forall l | a < l < |c'.log| ensures Passes(request, c'.log, l) {
      if l < |c.log| {
        assert Passes(request, c.log, l);
      }
    }
  }

  lemma IterationTracks(c: Client, o: Options, e: Event, env: Env)
    requires Tracked(c)
    ensures Tracked(Iterate(c, o, e, env))
  {
    hide HandleControl, ProcessMessage, Outstanding;
    match e
    case Deadline => TimedOutIsIdle(c, o, env);
    case Control(request) => TakenInIsTracked(c, o, request, env);
    case ControlClosed =>
      if c.active.Some? {
        var request, k, a :| Outstanding(c, request, k, a);
        assert Outstanding(c.(running := false), request, k, a) by { SameClient(c, c.(running := false), request, k, a); }
      }
    case Delivered(m) =>
      var c' := ProcessMessage(c, o, m, env).0;
      MessageKeepsActive(c, o, m, env);
      if c'.active.Some? {
        var request, k, a :| Outstanding(c, request, k, a);
        PassingIsTracked(c, o, m, env, request, k, a);
        SameClient(c', c'.(running := false), request, k, a);
        WaitingIsLeft(c', o, env, request, k, a);
      } else {
        IdleIsLeft(c', o, env);
      }
    case SocketError => IdleIsLeft(ProcessError(c), o, env);
  }

  lemma SameClient(c: Client, c': Client, request: Request, k: nat, a: nat)
    requires Outstanding(c, request, k, a) && c'.active == c.active && c'.log == c.log
    ensures Outstanding(c', request, k, a)
  {
  }

  lemma WaitingIsLeft(c: Client, o: Options, env: Env, request: Request, k: nat, a: nat)
    requires Outstanding(c, request, k, a)
    ensures HandleControl(c, o, env) == c
  {
    hide DefaultMessage;
  }

  lemma IdleIsLeft(c: Client, o: Options, env: Env)
    requires c.active.None?
    ensures HandleControl(c, o, env) == c
  {
  }

  lemma TimedOutIsIdle(c: Client, o: Options, env: Env)
    requires Tracked(c)
    ensures Iterate(c, o, Deadline, env).active.None?
  {
    hide DefaultMessage;
    if c.active.Some? {
      var request, k, a :| Outstanding(c, request, k, a);
    }
  }

  /** In every run a pending request is tracked. */
  lemma {:induction false} PendingIsTracked(o: Options, script: Script)
    ensures Tracked(RunScript(NewClient(), o, script))
  {
    hide Iterate, Outstanding;
    if script != [] {
      var (e, env) := script[|script| - 1];
      PendingIsTracked(o, script[..|script| - 1]);
      IterationTracks(RunScript(NewClient(), o, script[..|script| - 1]), o, e, env);
    }
  }

  // ------------------------------------------------------------------ what can go wrong

  lemma SendingIsPending(c: Client, o: Options, m: Message, env: Env)
    requires c.socket && c.running && env.sendWorks
    ensures var c' := Iterate(c, o, Control(SendDiagnostic(m)), env);
            && c'.active == Some(AwaitAck(c.accepted)) && c'.accepted == c.accepted + 1 && c'.socket && c'.running
            && c.log <= c'.log
            && (c.active.Some? ==> Answered(c.active.value.id, Failed(RequestSuperseded)) in c'.log)
  {
    hide AliveCheckResponseMessage, DefaultMessage;
    var c1 := Accept(c, SendDiagnostic(m));
    if c.active.Some? {
      assert c1.log == c.log + [Accepted(c.accepted, SendDiagnostic(m))]
                       + [Answered(c.active.value.id, Failed(RequestSuperseded))];
      assert c1.log[|c1.log| - 1] == Answered(c.active.value.id, Failed(RequestSuperseded));
    }
    var c' := Iterate(c, o, Control(SendDiagnostic(m)), env);
    assert c'.log == c1.log + [Sent(m)] + [Armed(c.accepted, env.now, env.now + o.diagnosticTimeout)];
    assert forall e :: e in c1.log ==> e in c'.log;
  }

  lemma AckCompletes(c: Client, o: Options, ack: Message, env: Env)
    requires IsPositiveAck(ack) && c.active.Some? && c.active.value.AwaitAck?
    ensures Iterate(c, o, Delivered(ack), env).log == c.log + [Received(ack), Answered(c.active.value.id, Done)]
  {
  }

  /**
   * Acks carry no mark of the message they acknowledge: a positive ack that arrives after a send was
   * superseded is reported as the success of the send that superseded it.
   */
  lemma StaleAckIsSuccess(o: Options, m1: Message, m2: Message, ack: Message, port: u16, env: Env)
    requires IsPositiveAck(ack) && env.bindResult == Some(port) && env.sendWorks
    ensures var script := [(Control(Bind), env), (Control(SendDiagnostic(m1)), env),
                           (Control(SendDiagnostic(m2)), env), (Delivered(ack), env)];
            var log := RunScript(NewClient(), o, script).log;
            && Possible(NewClient(), o, script)
            && |log| >= 2 && log[|log| - 2..] == [Received(ack), Answered(2, Done)]
            && Answered(1, Failed(RequestSuperseded)) in log
  {
    hide Iterate;
    var bind, first, second := (Control(Bind), env), (Control(SendDiagnostic(m1)), env), (Control(SendDiagnostic(m2)), env);
    var script := [bind, first, second, (Delivered(ack), env)];
    assert script[..3] == [bind, first, second];
    assert [bind, first, second][..2] == [bind, first];
    assert [bind, first][..1] == [bind];
    assert [bind][..0] == [];
    var c1 := Iterate(NewClient(), o, Control(Bind), env);
    assert c1.socket && c1.running && c1.accepted == 1 by { BindingSucceeds(o, env); }
    assert RunScript(NewClient(), o, [bind]) == c1;
    SendingIsPending(c1, o, m1, env);
    var c2 := Iterate(c1, o, Control(SendDiagnostic(m1)), env);
    assert RunScript(NewClient(), o, [bind, first]) == c2;
    SendingIsPending(c2, o, m2, env);
    var c3 := Iterate(c2, o, Control(SendDiagnostic(m2)), env);
    assert RunScript(NewClient(), o, [bind, first, second]) == c3;
    AckCompletes(c3, o, ack, env);
    assert Possible(NewClient(), o, [bind]);
    assert Possible(NewClient(), o, [bind, first]);
    assert Possible(NewClient(), o, [bind, first, second]);
  }

  lemma BindingSucceeds(o: Options, env: Env)
    requires env.bindResult.Some?
    ensures var c := Iterate(NewClient(), o, Control(Bind), env); c.socket && c.running && c.accepted == 1
  {
  }
}
