/**
 * The client's background loop as it runs: four fields mutated by the three arms of an event loop, with
 * the take-or-restore discipline on the one waiting request.
 */
module ClientInner {
  import opened Wire
  import opened Messages
  import opened ClientSpec

  class Inner {
    const options: Options
    var activeRequest: Option<ControlMessage>
    var awaitResponseDeadline: Option<int>
    var tcpDataSocket: bool
    var pendingDiagnosticResponse: Option<Message>

    // What the loop has done, and how many requests it has accepted.
    var log: Log
    var accepted: nat
    var running: bool

    ghost function View(): Client
      reads this
    {
      Client(activeRequest, awaitResponseDeadline, tcpDataSocket, pendingDiagnosticResponse, accepted, running, log)
    }

    constructor (options: Options)
      ensures this.options == options && View() == NewClient()
    {
      this.options := options;
      activeRequest := None;
      awaitResponseDeadline := None;
      tcpDataSocket := false;
      pendingDiagnosticResponse := None;
      log := [];
      accepted := 0;
      running := true;
    }

    method Answer(id: nat, reply: Reply)
      modifies `log
      ensures View() == old(View()).Answer(id, reply)
    {
      log := log + [Answered(id, reply)];
    }

    /** Replace the socket, or lose it when the new connection cannot be made. */
    method BindSocket(env: Env) returns (reply: Reply)
      modifies `tcpDataSocket
      ensures (View(), reply) == BindResult(old(View()), env)
    {
      tcpDataSocket := false;
      if env.bindResult.None? {
        return Failed(BindFailed);
      }
      tcpDataSocket := true;
      return Port(env.bindResult.value);
    }

    method UnbindSocket() returns (reply: Reply)
      modifies `tcpDataSocket
      ensures View() == old(View()).(socket := false)
      ensures reply == if old(View()).socket then Done else Failed(SocketNotBound)
    {
      if tcpDataSocket {
        tcpDataSocket := false;
        return Done;
      }
      return Failed(SocketNotBound);
    }

    method SendToSocket(m: Message, env: Env) returns (error: Option<ClientError>)
      modifies `log
      ensures (View(), error) == SendResult(old(View()), m, env)
    {
      if !tcpDataSocket {
        return Some(SocketNotBound);
      }
      if !env.sendWorks {
        return Some(ConnectionClosed);
      }
      log := log + [Sent(m)];
      return None;
    }

    method Await(waiting: ControlMessage, now: int, timeout: nat)
      modifies `activeRequest, `awaitResponseDeadline, `log
      ensures View() == Wait(old(View()), waiting, now, timeout)
    {
      awaitResponseDeadline := Some(now + timeout);
      activeRequest := Some(waiting);
      log := log + [Armed(waiting.id, now, now + timeout)];
    }

    method HandleControlMessage(env: Env)
      modifies this
      ensures View() == HandleControl(old(View()), options, env)
    {
      if activeRequest.None? {
        return;
      }
      var request := activeRequest.value;
      activeRequest := None;
      match request
      case BindSocket(id) =>
        var reply := BindSocket(env);
        Answer(id, reply);
      case UnbindSocket(id) =>
        var reply := UnbindSocket();
        Answer(id, reply);
      case RoutingActivation(m, id) =>
        var error := SendToSocket(m, env);
        if error.None? {
          Await(AwaitResponse(m, id), env.now, INITIAL_INACTIVITY);
        } else {
          Answer(id, Failed(error.value));
        }
      case AwaitResponse(_, _) => activeRequest := Some(request);
      case SendDiagnosticMessage(m, id) =>
        if !tcpDataSocket {
          Answer(id, Failed(SocketNotBound));
          return;
        }
        var error := SendToSocket(m, env);
        if error.None? {
          Await(AwaitAck(id), env.now, options.diagnosticTimeout);
        } else {
          Answer(id, Failed(error.value));
        }
      case ReceiveDiagnosticResponse(timeout, id) =>
        var buffered := pendingDiagnosticResponse;
        pendingDiagnosticResponse := None;
        if buffered.Some? {
          Answer(id, Got(buffered.value));
          return;
        }
        if !tcpDataSocket {
          Answer(id, Failed(SocketNotBound));
          return;
        }
        Await(AwaitResponse(DefaultMessage(), id), env.now, timeout);
      case AwaitAck(_) => activeRequest := Some(request);
    }

    /** Take the waiting request only if it waits for an ack; otherwise leave it alone. */
    method TakeAwaitAck() returns (id: Option<nat>)
      modifies `activeRequest
      ensures id.Some? <==> old(activeRequest).Some? && old(activeRequest).value.AwaitAck?
      ensures id.Some? ==> id.value == old(activeRequest).value.id
      ensures View() == old(View()).(active := if id.Some? then None else old(View()).active)
    {
      var taken := activeRequest;
      activeRequest := None;
      if taken.Some? && taken.value.AwaitAck? {
        return Some(taken.value.id);
      }
      activeRequest := taken;
      return None;
    }

    /** Take the waiting request only if it waits for a response; otherwise leave it alone. */
    method TakeAwaitResponse() returns (r: Option<(Message, nat)>)
      modifies `activeRequest
      ensures r.Some? <==> old(activeRequest).Some? && old(activeRequest).value.AwaitResponse?
      ensures r.Some? ==> r.value == (old(activeRequest).value.message, old(activeRequest).value.id)
      ensures View() == old(View()).(active := if r.Some? then None else old(View()).active)
    {
      var taken := activeRequest;
      activeRequest := None;
      if taken.Some? && taken.value.AwaitResponse? {
        return Some((taken.value.message, taken.value.id));
      }
      activeRequest := taken;
      return None;
    }

    method SupersedeActiveRequest()
      modifies `activeRequest, `awaitResponseDeadline, `log
      ensures View() == Supersede(old(View()))
    {
      var displaced := activeRequest;
      activeRequest := None;
      if displaced.Some? {
        Answer(displaced.value.id, Failed(RequestSuperseded));
      }
      awaitResponseDeadline := None;
    }

    method ProcessReceivedMessage(m: Message, env: Env) returns (exit: bool)
      requires tcpDataSocket
      modifies this
      ensures (View(), exit) == ProcessMessage(old(View()), options, m, env)
    {
      log := log + [Received(m)];
      match m.payload {
        case AliveCheckRequest =>
          var ignored := SendToSocket(AliveCheckResponseMessage(options.version, options.address), env);
        case DiagnosticMessageAck(ack) =>
          var waiting := TakeAwaitAck();
          if waiting.Some? {
            awaitResponseDeadline := None;
            if ack.code.IsPositive() {
              Answer(waiting.value, Done);
            } else {
              Answer(waiting.value, Failed(ClientError.DiagnosticMessageNack(ack.code)));
            }
            return false;
          }
          if ack.code.IsPositive() {
            return false;
          }
        case _ =>
      }
      exit := DeliverMessage(m, env);
    }

    /** The part every received message falls through to unless it completed a send or is a positive ack. */
    method DeliverMessage(m: Message, env: Env) returns (exit: bool)
      modifies this
      ensures (View(), exit) == Deliver(old(View()), m, env)
    {
      var waiting := TakeAwaitResponse();
      if waiting.Some? {
        var (request, id) := waiting.value;
        if request.IsResponse(m.header.payloadType) {
          Answer(id, Got(m));
        } else {
          Answer(id, Failed(UnexpectedMessageType(m.header.payloadType)));
        }
        return env.callerGone;
      }
      if activeRequest.None? {
        if m.payload.DiagnosticMessage? {
          pendingDiagnosticResponse := Some(m);
          log := log + [Buffered(m)];
        } else {
          log := log + [Forwarded(m)];
          return env.updatesGone;
        }
      }
      return false;
    }

    method ProcessSocketError()
      modifies this
      ensures View() == ProcessError(old(View()))
    {
      log := log + [SocketLost];
      tcpDataSocket := false;
      awaitResponseDeadline := None;
      var taken := activeRequest;
      activeRequest := None;
      match taken
      case Some(AwaitResponse(_, id)) => Answer(id, Failed(SocketClosedUnexpectedly));
      case Some(AwaitAck(id)) => Answer(id, Failed(SocketClosedUnexpectedly));
      case _ =>
    }

    method DeadlineElapsed(now: int)
      modifies this
      ensures View() == ReachDeadline(old(View()), now)
    {
      log := log + [DeadlineReached(now)];
      var taken := activeRequest;
      activeRequest := None;
      match taken {
        case Some(AwaitResponse(_, id)) => Answer(id, Failed(ResponseTimeoutExceeded));
        case Some(AwaitAck(id)) => Answer(id, Failed(ResponseTimeoutExceeded));
        case other => activeRequest := other;
      }
      awaitResponseDeadline := None;
    }

    /** A control message displaces whatever is still waiting. */
    method AcceptRequest(request: Request)
      modifies this
      ensures View() == Accept(old(View()), request)
    {
      var id := accepted;
      accepted := accepted + 1;
      log := log + [Accepted(id, request)];
      SupersedeActiveRequest();
      activeRequest := Some(ControlOf(request, id));
    }

    /** One turn of the event loop. */
    method Turn(e: Event, env: Env)
      requires Enabled(View(), e, env)
      modifies this
      ensures View() == Iterate(old(View()), options, e, env)
    {
      hide HandleControl, ReachDeadline, Accept, ProcessMessage, ProcessError;
      match e {
        case Deadline => DeadlineElapsed(env.now);
        case Control(request) => AcceptRequest(request);
        case ControlClosed =>
          running := false;
          return;
        case Delivered(m) =>
          var exit := ProcessReceivedMessage(m, env);
          if exit {
            running := false;
            return;
          }
        case SocketError => ProcessSocketError();
      }
      HandleControlMessage(env);
    }

    /** The event loop, driven by a script of events it could see. */
    method RunLoop(script: Script)
      requires Possible(View(), options, script)
      modifies this
      ensures View() == RunScript(old(View()), options, script)
    {
      hide Iterate, Enabled;
      ghost var start := View();
      var i := 0;
      while i < |script|
        invariant 0 <= i <= |script|
        invariant View() == RunScript(start, options, script[..i])
      {
        PossibleAt(start, options, script, i);
        assert script[..i + 1][..i] == script[..i];
        var (e, env) := script[i];
        Turn(e, env);
        i := i + 1;
      }
      assert script[..i] == script;
    }
  }

  lemma {:induction false} PossibleAt(c: Client, o: Options, script: Script, i: nat)
    requires Possible(c, o, script) && i < |script|
    ensures Possible(c, o, script[..i]) && Enabled(RunScript(c, o, script[..i]), script[i].0, script[i].1)
  {
    hide Enabled, RunScript;
    var front := script[..|script| - 1];
    if i < |script| - 1 {
      PossibleAt(c, o, front, i);
      assert front[..i] == script[..i];
    }
  }
}
