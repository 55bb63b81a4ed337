/**
 * The two endpoints on one wire: what the client makes of the entity's replies, at any point of any
 * run of the entity.
 */
module EndToEnd {
  import opened Wire
  import opened Codes
  import opened Messages
  import opened RoundTrip
  import opened Hearing
  import Entity = EntitySpec
  import Trace = EntityTrace
  import Runs = EntityRuns
  import Client = ClientSpec
  import Loop = ClientRuns
  import Promises = ClientTheorems

  // ------------------------------------------------------- one verdict, one request

  /** What the client hears from the event after `i`, if that is a send. */
  function HeardAfter(tr: Entity.Trace, i: nat): Option<Message> {
    if i + 1 < |tr| && tr[i + 1].TcpSent? then Heard(tr[i + 1].data) else None
  }

  /** Was the frame taken in at `i` forwarded to the diagnostic application? */
  predicate Forwarded(tr: Entity.Trace, i: nat)
    requires i < |tr| && tr[i].Framed?
  {
    Runs.OwnAt(tr, i).Some? && Trace.Accepted(Runs.OwnAt(tr, i).value, Runs.ActiveAt(tr, i), tr[i].frame)
  }

  lemma ReplyIsHeard(inputs: seq<Entity.Input>, i: nat)
    requires i < |Runs.TraceOf(inputs)| && Runs.TraceOf(inputs)[i].Framed?
    requires Trace.IsDiagnostic(Runs.TraceOf(inputs)[i].frame)
    ensures var tr := Runs.TraceOf(inputs);
            var heard := HeardAfter(tr, i);
            && heard.Some? && CanonicalMessage(heard.value)
            && (if Forwarded(tr, i) then Loop.IsPositiveAck(heard.value) else heard.value.payload.DiagnosticMessageNack?)
  {
    hide Heard, Trace.ReplyTo, Trace.Accepted, Trace.Refused, Runs.TraceOf, Runs.OwnAt, Runs.ActiveAt, CanonicalMessage;
    Runs.FramesAreAnswered(inputs, i);
    var tr := Runs.TraceOf(inputs);
    VerdictIsHeard(Runs.OwnAt(tr, i).value, Runs.ActiveAt(tr, i), tr[i].frame);
  }

  /**
   * The verdict on any diagnostic frame, heard while any send is pending. The positive ack of a
   * forwarded frame completes the send. A refusal is not reported to it: the send stays pending until
   * its deadline or until the connection is lost, and the entity closes the connection exactly when
   * the frame's source is not the active tester.
   */
  lemma VerdictMeetsSend(
    inputs: seq<Entity.Input>, i: nat, o: Client.Options, c: Client.Client, id: nat, env: Client.Env, later: Client.Env)
    requires i < |Runs.TraceOf(inputs)| && Runs.TraceOf(inputs)[i].Framed?
    requires Trace.IsDiagnostic(Runs.TraceOf(inputs)[i].frame)
    requires c.active == Some(Client.AwaitAck(id))
    ensures HeardAfter(Runs.TraceOf(inputs), i).Some?
    ensures var tr := Runs.TraceOf(inputs);
            var m := HeardAfter(tr, i).value;
            var c' := Client.ProcessMessage(c, o, m, env).0;
            && (Forwarded(tr, i) ==> c'.active.None? && c'.log == c.log + [Client.Received(m), Client.Answered(id, Client.Done)])
            && (!Forwarded(tr, i) ==>
                  && c' == c.Note(Client.Received(m))
                  && Client.Iterate(c', o, Client.Deadline, later).log
                     == c'.log + [Client.DeadlineReached(later.now), Client.Answered(id, Client.Failed(Client.ResponseTimeoutExceeded))]
                  && Client.Iterate(c', o, Client.SocketError, later).log
                     == c'.log + [Client.SocketLost, Client.Answered(id, Client.Failed(Client.SocketClosedUnexpectedly))])
  {
    hide HeardAfter, Forwarded, CanonicalMessage, Runs.TraceOf, Trace.IsDiagnostic;
    ReplyIsHeard(inputs, i);
  }

  /** Which verdicts on a diagnostic frame cost the connection. */
  lemma RefusalCloses(inputs: seq<Entity.Input>, i: nat)
    requires i < |Runs.TraceOf(inputs)| && Runs.TraceOf(inputs)[i].Framed?
    requires Trace.IsDiagnostic(Runs.TraceOf(inputs)[i].frame)
    ensures var tr := Runs.TraceOf(inputs);
            i + 2 < |tr| && tr[i + 2] == Entity.Answered(Entity.Close)
            <==> Runs.ActiveAt(tr, i) != Some(Trace.SourceOf(tr[i].frame))
  {
    hide Entity.Run, Trace.ReplyTo, Trace.Watch, Trace.Lawful, Trace.WellFormed, Trace.Activates, Trace.NackFrame;
    Runs.FramesAreAnswered(inputs, i);
    var tr := Runs.TraceOf(inputs);
    if i + 2 < |tr| {
      Runs.EveryRunIsLawful(inputs);
      Runs.LawfulAt(tr, i);
      Runs.LawfulAt(tr, i + 1);
      Runs.LawfulAt(tr, i + 2);
    }
  }

  /**
   * The verdict on any diagnostic frame, heard while a receive is pending: a refusal is taken for the
   * response, the positive ack of a forwarded frame is passed over.
   */
  lemma ReceiveTakesRefusals(
    inputs: seq<Entity.Input>, i: nat, o: Client.Options, c: Client.Client, id: nat, env: Client.Env)
    requires i < |Runs.TraceOf(inputs)| && Runs.TraceOf(inputs)[i].Framed?
    requires Trace.IsDiagnostic(Runs.TraceOf(inputs)[i].frame)
    requires c.active == Some(Client.AwaitResponse(DefaultMessage(), id))
    ensures HeardAfter(Runs.TraceOf(inputs), i).Some?
    ensures var tr := Runs.TraceOf(inputs);
            var m := HeardAfter(tr, i).value;
            Client.ProcessMessage(c, o, m, env).0
            == if Forwarded(tr, i) then c.Note(Client.Received(m))
               else c.(active := None).Note(Client.Received(m)).Answer(id, Client.Got(m))
  {
    hide HeardAfter, Forwarded, CanonicalMessage, Runs.TraceOf, Trace.IsDiagnostic, DefaultMessage;
    ReplyIsHeard(inputs, i);
    Promises.RejectionArrivesAsSuccess(o, c, id, HeardAfter(Runs.TraceOf(inputs), i).value, env);
  }

  /** A forwarded frame is dispatched, and the response it gets is heard with exactly the reported bytes. */
  lemma ResponseIsHeard(inputs: seq<Entity.Input>, i: nat)
    requires i < |Runs.TraceOf(inputs)| && Runs.TraceOf(inputs)[i].Framed? && Forwarded(Runs.TraceOf(inputs), i)
    ensures var tr := Runs.TraceOf(inputs);
            && i + 2 < |tr| && tr[i + 2].UdsCalled? && tr[i + 2].request == tr[i].frame.payload[4..]
            && var reply := tr[i + 2].reply;
               reply.returned > 0 ==>
                 HeardAfter(tr, i + 2)
                 == Some(DiagnosticMessageOf(V2012, Runs.OwnAt(tr, i).value, Trace.SourceOf(tr[i].frame), Trace.Reported(reply)))
  {
    hide Heard, Trace.ReplyTo, Trace.DiagnosticFrame, Runs.TraceOf;
    Runs.FramesAreAnswered(inputs, i);
    var tr := Runs.TraceOf(inputs);
    var own, reply := Runs.OwnAt(tr, i).value, tr[i + 2].reply;
    if reply.returned > 0 {
      DiagnosticIsHeard(own, Trace.SourceOf(tr[i].frame), Trace.Reported(reply));
    }
  }

  /** What the caller gets is the response the diagnostic application left. */
  predicate HoldsResponse(m: Message, reply: Entity.UdsReply) {
    var n := if reply.returned < 1024 then reply.returned else 1024;
    && m.payload.DiagnosticMessage? && reply.returned > 0
    && |m.payload.diagnostic.userData| == n
    && forall k :: 0 <= k < n ==> m.payload.diagnostic.userData[k] == reply.buffer[k]
  }

  /** A response heard while a receive is pending is handed to it. */
  lemma ResponseReachesTheCaller(
    inputs: seq<Entity.Input>, i: nat, o: Client.Options, c: Client.Client, id: nat, env: Client.Env)
    requires i < |Runs.TraceOf(inputs)| && Runs.TraceOf(inputs)[i].Framed? && Forwarded(Runs.TraceOf(inputs), i)
    requires c.active == Some(Client.AwaitResponse(DefaultMessage(), id))
    ensures var tr := Runs.TraceOf(inputs);
            && i + 2 < |tr| && tr[i + 2].UdsCalled?
            && (tr[i + 2].reply.returned > 0 ==>
                  && HeardAfter(tr, i + 2).Some? && HoldsResponse(HeardAfter(tr, i + 2).value, tr[i + 2].reply)
                  && var m := HeardAfter(tr, i + 2).value;
                     Client.ProcessMessage(c, o, m, env).0
                     == c.(active := None).Note(Client.Received(m)).Answer(id, Client.Got(m)))
  {
    hide HeardAfter, Forwarded, Runs.TraceOf, DefaultMessage;
    ResponseIsHeard(inputs, i);
    var tr := Runs.TraceOf(inputs);
    if tr[i + 2].reply.returned > 0 {
      Promises.RejectionArrivesAsSuccess(o, c, id, HeardAfter(tr, i + 2).value, env);
    }
  }

  /**
   * A response heard while nothing is pending, as after the ack of its own send, is kept and handed to
   * the next receive, unless another receive or another unclaimed response comes first.
   */
  lemma ResponseWaitsForTheCaller(
    inputs: seq<Entity.Input>, i: nat, o: Client.Options, c: Client.Client, env: Client.Env,
    between: Client.Script, timeout: nat, later: Client.Env)
    requires i < |Runs.TraceOf(inputs)| && Runs.TraceOf(inputs)[i].Framed? && Forwarded(Runs.TraceOf(inputs), i)
    requires Loop.AtTop(o, c) && c.active.None? && c.socket
    requires HeardAfter(Runs.TraceOf(inputs), i + 2).Some? ==>
               var kept := Client.Iterate(c, o, Client.Delivered(HeardAfter(Runs.TraceOf(inputs), i + 2).value), env);
               Client.Possible(kept, o, between) && Promises.Spared(kept, o, between)
    ensures var tr := Runs.TraceOf(inputs);
            && i + 2 < |tr| && tr[i + 2].UdsCalled?
            && (tr[i + 2].reply.returned > 0 ==>
                  && HeardAfter(tr, i + 2).Some? && HoldsResponse(HeardAfter(tr, i + 2).value, tr[i + 2].reply)
                  && var m := HeardAfter(tr, i + 2).value;
                     var before := Client.RunScript(Client.Iterate(c, o, Client.Delivered(m), env), o, between);
                     var log := Client.Iterate(before, o, Client.Control(Client.ReceiveResponse(timeout)), later).log;
                     |log| > 0 && log[|log| - 1] == Client.Answered(before.accepted, Client.Got(m)))
  {
    hide HeardAfter, Forwarded, Runs.TraceOf, Client.RunScript, Client.Possible, Promises.Spared, Loop.AtTop;
    ResponseIsHeard(inputs, i);
    var tr := Runs.TraceOf(inputs);
    if tr[i + 2].reply.returned > 0 {
      var m := HeardAfter(tr, i + 2).value;
      Loop.Receiving(o, c, m, env);
      var kept := Client.Iterate(c, o, Client.Delivered(m), env);
      assert kept == Client.ProcessMessage(c, o, m, env).0 && kept.buffered == Some(m) by { UnclaimedIsKept(o, c, m, env); }
      Promises.BufferedResponseIsDelivered(o, kept, between, timeout, later);
    }
  }

  lemma UnclaimedIsKept(o: Client.Options, c: Client.Client, m: Message, env: Client.Env)
    requires c.active.None? && m.payload.DiagnosticMessage?
    ensures Client.Iterate(c, o, Client.Delivered(m), env) == Client.ProcessMessage(c, o, m, env).0
    ensures Client.ProcessMessage(c, o, m, env).0.buffered == Some(m)
  {
  }

  /**
   * The answer to any activation request, heard while any activation is pending, completes it, and the
   * outer client then proceeds exactly when that answer grants the slot. When nothing reaches the
   * outer client in time it proceeds without a grant; when the loop's own deadline comes first it fails.
   */
  lemma VerdictMeetsActivation(
    inputs: seq<Entity.Input>, i: nat, o: Client.Options, c: Client.Client, id: nat, env: Client.Env,
    request: Message, port: u16)
    requires i < |Runs.TraceOf(inputs)| && Runs.TraceOf(inputs)[i].Framed?
    requires Trace.IsActivation(Runs.TraceOf(inputs)[i].frame)
    requires c.active == Some(Client.AwaitResponse(request, id)) && request.header.payloadType.RoutingActivationRequest?
    ensures HeardAfter(Runs.TraceOf(inputs), i).Some?
    ensures var tr := Runs.TraceOf(inputs);
            var m := HeardAfter(tr, i).value;
            var code := Trace.ActivationVerdict(Runs.ActiveAt(tr, i), tr[i].frame);
            && Client.ProcessMessage(c, o, m, env).0
               == c.(active := None).Note(Client.Received(m)).Answer(id, Client.Got(m))
            && Promises.ActivationDecision(port, Some(Client.Got(m)))
               == (if code == Trace.SUCCESS then Client.Port(port)
                   else Client.Failed(Client.RoutingActivationDenied(ActivationCodeOf(code))))
            && Promises.ActivationDecision(port, None) == Client.Port(port)
            && Promises.ActivationDecision(port, Some(Client.Failed(Client.ResponseTimeoutExceeded)))
               == Client.Failed(Client.ResponseTimeoutExceeded)
  {
    hide Heard, Runs.TraceOf, Runs.OwnAt, Runs.ActiveAt, Trace.ActivationFrame;
    Runs.FramesAreAnswered(inputs, i);
    var tr := Runs.TraceOf(inputs);
    var f := tr[i].frame;
    ActivationIsHeard(Runs.OwnAt(tr, i).value, Trace.SourceOf(f), Trace.ActivationVerdict(Runs.ActiveAt(tr, i), f));
  }
}
