/**
 * What callers of the client may rely on, over every run of its event loop.
 */
module ClientTheorems {
  import opened Wire
  import opened Codes
  import opened Messages
  import opened RoundTrip
  import opened ClientSpec
  import opened ClientRuns
  import Codec

  function LogOf(o: Options, script: Script): Log {
    RunScript(NewClient(), o, script).log
  }

  // -------------------------------------------------------- exactly once, in order

  function AnsweredIds(log: Log): seq<nat> {
    if log == [] then []
    else AnsweredIds(log[..|log| - 1]) + (if log[|log| - 1].Answered? then [log[|log| - 1].id] else [])
  }

  function AcceptedIds(log: Log): seq<nat> {
    if log == [] then []
    else AcceptedIds(log[..|log| - 1]) + (if log[|log| - 1].Accepted? then [log[|log| - 1].id] else [])
  }

  function UpTo(n: nat): seq<nat> {
    if n == 0 then [] else UpTo(n - 1) + [n - 1]
  }

  function Open(m: Monitor): nat {
    (if m.waiting.Some? then 1 else 0) + (if m.newest.Some? then 1 else 0)
  }

  /** The waiting request is the oldest unanswered one, the one being taken in the youngest. */
  predicate Numbered(m: Monitor) {
    && Open(m) <= m.accepted
    && (m.waiting.Some? ==> m.waiting.value.0 == m.accepted - Open(m))
    && (m.newest.Some? ==> m.newest.value.0 == m.accepted - 1)
  }

  lemma NumberingStep(o: Options, m: Monitor, e: Entry)
    requires Numbered(m) && Allowed(o, m, e)
    ensures var m' := Advance(m, e);
            && Numbered(m')
            && m'.accepted == m.accepted + (if e.Accepted? then 1 else 0)
            && m'.accepted - Open(m') == m.accepted - Open(m) + (if e.Answered? then 1 else 0)
            && (e.Accepted? ==> e.id == m.accepted) && (e.Answered? ==> e.id == m.accepted - Open(m))
  {
    hide CausedReply, ImmediateReply;
  }

  lemma {:induction false} AnswersAreOrdered(o: Options, log: Log)
    requires Lawful(o, log)
    ensures var m := Watch(log);
            && Numbered(m)
            && AcceptedIds(log) == UpTo(m.accepted)
            && AnsweredIds(log) == UpTo(m.accepted - Open(m))
  {
    hide Allowed, Advance, Numbered, Open, UpTo;
    if log == [] {
      StartIsNumbered();
    } else {
      var front, e := log[..|log| - 1], log[|log| - 1];
      AnswersAreOrdered(o, front);
      var m := Watch(front);
      NumberingStep(o, m, e);
      NumberedIsOpen(m);
      UpToNext(m.accepted);
      UpToNext(m.accepted - Open(m));
    }
  }

  lemma NumberedIsOpen(m: Monitor)
    requires Numbered(m)
    ensures Open(m) <= m.accepted
  {
  }

  lemma UpToNext(n: nat)
    ensures UpTo(n + 1) == UpTo(n) + [n]
  {
  }

  lemma StartIsNumbered()
    ensures Numbered(START) && Open(START) == 0 && UpTo(0) == []
  {
  }

  /**
   * Between iterations the channels answered are exactly those of the accepted requests, each once
   * and in order of acceptance, except that the last is still unanswered when and only when a
   * request is pending; a pending request is that last one and waits for an ack or a response.
   */
  lemma ExactlyOnceInOrder(o: Options, script: Script)
    requires Possible(NewClient(), o, script)
    ensures var c := RunScript(NewClient(), o, script);
            && AcceptedIds(c.log) == UpTo(c.accepted)
            && (c.active.None? ==> AnsweredIds(c.log) == UpTo(c.accepted))
            && (c.active.Some? ==>
                  && c.accepted > 0 && AnsweredIds(c.log) == UpTo(c.accepted - 1)
                  && c.active.value.id == c.accepted - 1
                  && (c.active.value.AwaitAck? || c.active.value.AwaitResponse?))
  {
    hide RunScript, Possible, Watch, Lawful;
    EveryScriptIsLawful(o, script);
    AnswersAreOrdered(o, LogOf(o, script));
  }

  // ------------------------------------------------------------ causes of answers

  lemma {:induction false} LawfulAt(o: Options, log: Log, i: nat)
    requires Lawful(o, log) && i < |log|
    ensures Lawful(o, log[..i]) && Allowed(o, Watch(log[..i]), log[i])
  {
    hide Allowed, Advance, Watch;
    var front := log[..|log| - 1];
    if i < |log| - 1 {
      LawfulAt(o, front, i);
      assert front[..i] == log[..i];
    }
  }

  /** A request being taken in is the last cause in the log. */
  lemma {:induction false} NewestStory(o: Options, log: Log) returns (k: nat)
    requires Lawful(o, log) && Watch(log).newest.Some?
    ensures k < |log| && log[k] == Accepted(Watch(log).newest.value.0, Watch(log).newest.value.1)
    ensures Watch(log).cause == Some(log[k]) && forall l :: k < l < |log| ==> !IsCause(log[l])
  {
    hide CausedReply, ImmediateReply;
    var last := |log| - 1;
    if log[last].Accepted? {
      k := last;
    } else {
      k := NewestStory(o, log[..last]);
    }
  }

  /**
   * How a waiting request came to wait, and what has happened to it: it was accepted at `k` and
   * armed at `a` with its own timeout; no other deadline was set since. The last cause `c` is either
   * its own acceptance or came after it was armed, and a reached deadline is its own.
   */
  lemma {:induction false} WaitingStory(o: Options, log: Log) returns (k: nat, a: nat, c: nat)
    requires Lawful(o, log) && Watch(log).waiting.Some?
    ensures var m := Watch(log);
            var (id, request) := m.waiting.value;
            && k < a < |log| && c < |log|
            && log[k] == Accepted(id, request)
            && log[a].Armed? && log[a].id == id && log[a].deadline == m.deadline
            && m.deadline == log[a].at + TimeoutOf(o, request)
            && (forall l :: a < l < |log| ==> !log[l].Armed?)
            && m.cause == Some(log[c]) && (forall l :: c < l < |log| ==> !IsCause(log[l]))
            && ((c == k && m.newest.None?) || a < c)
            && (log[c].DeadlineReached? ==> log[c].now >= m.deadline)
  {
    hide CausedReply, ImmediateReply, TimeoutOf;
    var last := |log| - 1;
    var front := log[..last];
    if log[last].Armed? {
      k := NewestStory(o, front);
      a, c := last, k;
    } else {
      k, a, c := WaitingStory(o, front);
      if IsCause(log[last]) {
        c := last;
      }
    }
  }

  /**
   * Every answer to a request that was left waiting: it was accepted, then armed with a deadline its
   * own timeout after that moment, and the last thing that happened before the answer is what the
   * answer says: the message, the loss of the socket, the reached deadline, or a newer request.
   */
  lemma AnswersHaveCauses(o: Options, script: Script, i: nat) returns (request: Request, k: nat, a: nat, c: nat)
    requires Possible(NewClient(), o, script)
    requires i < |LogOf(o, script)| && LogOf(o, script)[i].Answered?
    requires Watch(LogOf(o, script)[..i]).waiting.Some?
    ensures var log := LogOf(o, script);
            && k < a < c < i
            && log[k] == Accepted(log[i].id, request)
            && log[a].Armed? && log[a].id == log[i].id && log[a].deadline == log[a].at + TimeoutOf(o, request)
            && IsCause(log[c]) && (forall l :: c < l < i ==> !IsCause(log[l]))
            && CausedReply(log[c], request, log[i].reply)
            && (log[c].DeadlineReached? ==> log[c].now >= log[a].deadline)
  {
    hide RunScript, Possible, Watch, Lawful, CausedReply, TimeoutOf;
    var log := LogOf(o, script);
    EveryScriptIsLawful(o, script);
    LawfulAt(o, log, i);
    k, a, c := WaitingStory(o, log[..i]);
    request := Watch(log[..i]).waiting.value.1;
    var _ := CauseStory(log[..i]);
  }

  lemma {:induction false} CauseStory(log: Log) returns (c: nat)
    requires Watch(log).cause.Some?
    ensures c < |log| && Watch(log).cause == Some(log[c]) && IsCause(log[c])
    ensures forall l :: c < l < |log| ==> !IsCause(log[l])
  {
    c := |log| - 1;
    if !IsCause(log[c]) {
      c := CauseStory(log[..c]);
    }
  }

  /** Every other answer is given while its request is being taken in, and says how that went. */
  lemma ImmediateAnswers(o: Options, script: Script, i: nat) returns (request: Request, k: nat)
    requires Possible(NewClient(), o, script)
    requires i < |LogOf(o, script)| && LogOf(o, script)[i].Answered?
    requires Watch(LogOf(o, script)[..i]).waiting.None?
    ensures var log := LogOf(o, script);
            && k < i && log[k] == Accepted(log[i].id, request) && (forall l :: k < l < i ==> !IsCause(log[l]))
            && ImmediateReply(Watch(log[..i]), request, log[i].reply)
  {
    hide RunScript, Possible, Watch, Lawful, ImmediateReply;
    var log := LogOf(o, script);
    EveryScriptIsLawful(o, script);
    LawfulAt(o, log, i);
    k := NewestStory(o, log[..i]);
    request := Watch(log[..i]).newest.value.1;
  }

  // -------------------------------------------------------------------- deadlines

  /**
   * A pending request always has a deadline, the one set when it was itself sent or registered; no
   * deadline left over from an earlier request can fire for it.
   */
  lemma PendingHasItsOwnDeadline(o: Options, script: Script) returns (request: Request, k: nat, a: nat)
    requires Possible(NewClient(), o, script) && RunScript(NewClient(), o, script).active.Some?
    ensures var c := RunScript(NewClient(), o, script);
            && c.deadline.Some?
            && k < a < |c.log| && c.log[k] == Accepted(c.active.value.id, request)
            && c.log[a] == Armed(c.active.value.id, c.deadline.value - TimeoutOf(o, request), c.deadline.value)
            && (forall l :: a < l < |c.log| ==> !c.log[l].Armed?)
  {
    hide RunScript, Possible, Watch, Lawful, TimeoutOf;
    EveryScriptIsLawful(o, script);
    var c := RunScript(NewClient(), o, script);
    var cause;
    k, a, cause := WaitingStory(o, c.log);
    request := Watch(c.log).waiting.value.1;
  }

  // -------------------------------------------------------------- answer soundness

  predicate AcceptsReceive(e: Entry) {
    e.Accepted? && e.request.ReceiveResponse?
  }

  /**
   * A message was received at `r`, kept at `b` as a consequence, and up to `k` neither replaced nor
   * asked for.
   */
  predicate Kept(log: Log, m: Message, r: nat, b: nat, k: nat) {
    && r < b < k <= |log|
    && log[r] == Received(m) && (forall l :: r < l < b ==> !IsCause(log[l]))
    && log[b] == Buffered(m) && m.payload.DiagnosticMessage?
    && (forall l :: b < l < k ==> !log[l].Buffered? && !AcceptsReceive(log[l]))
  }

  lemma KeptIsLocal(log: Log, m: Message, r: nat, b: nat, k: nat, i: nat)
    requires i <= |log| && Kept(log[..i], m, r, b, k)
    ensures Kept(log, m, r, b, k)
  {
    assert forall l :: 0 <= l < i ==> log[..i][l] == log[l];
  }

  lemma KeepingStory(o: Options, log: Log) returns (r: nat)
    requires Lawful(o, log) && log != [] && log[|log| - 1].Buffered?
    ensures Kept(log, log[|log| - 1].message, r, |log| - 1, |log|)
  {
    hide Watch, Lawful;
    LawfulAt(o, log, |log| - 1);
    r := CauseStory(log[..|log| - 1]);
  }

  /** What one entry does to the buffer, and to a receive that is being taken in. */
  lemma BufferAdvances(o: Options, m: Monitor, e: Entry)
    requires Allowed(o, m, e) && Advance(m, e).buffered.Some?
    ensures Advance(m, e).buffered == if e.Buffered? then Some(e.message) else m.buffered
    ensures IsCause(e) ==> m.newest.None?
    ensures AcceptsReceive(e) ==> Advance(m, e).newest == Some((e.id, e.request))
    ensures !e.Buffered? && m.newest.Some? && m.newest.value.1.ReceiveResponse? ==> Advance(m, e).newest == m.newest
  {
    hide CausedReply, ImmediateReply, TimeoutOf;
  }

  /** How a kept message came to be kept; only a receive that is still being taken in may have asked for it. */
  lemma {:induction false} BufferStory(o: Options, log: Log) returns (r: nat, b: nat)
    requires Lawful(o, log) && Watch(log).buffered.Some?
    ensures b < |log| && Kept(log, Watch(log).buffered.value, r, b, b + 1)
    ensures forall l :: b < l < |log| ==> !log[l].Buffered?
    ensures forall l :: b < l < |log| && AcceptsReceive(log[l]) ==>
                          && Watch(log).newest.Some? && Watch(log).newest.value.1.ReceiveResponse?
                          && forall n :: l < n < |log| ==> !IsCause(log[n])
  {
    hide Allowed, Advance, Kept;
    var last := |log| - 1;
    var front := log[..last];
    BufferAdvances(o, Watch(front), log[last]);
    if log[last].Buffered? {
      b := last;
      r := KeepingStory(o, log);
    } else {
      r, b := BufferStory(o, front);
      KeptIsLocal(log, Watch(log).buffered.value, r, b, b + 1, last);
    }
  }

  /** What a receive being taken in finds in the buffer was kept before, and no receive came between. */
  lemma FoundWasKept(o: Options, log: Log, k: nat) returns (r: nat, b: nat)
    requires Lawful(o, log) && Watch(log).buffered.Some?
    requires k < |log| && log[k].Accepted? && forall l :: k < l < |log| ==> !IsCause(log[l])
    ensures Kept(log, Watch(log).buffered.value, r, b, k)
  {
    hide Watch, Lawful;
    r, b := BufferStory(o, log);
    assert IsCause(log[k]);
    assert r < k;
    assert b < k;
  }

  /** What a successful answer promises to each kind of caller, by what led to it. */
  ghost predicate Promised(log: Log, request: Request, reply: Reply, k: nat, cause: Entry) {
    && (request.SendDiagnostic? && reply == Done ==> cause.Received? && IsPositiveAck(cause.message))
    && (request.SendDiagnostic? ==> reply == Done || reply.Failed?)
    && (request.Activate? ==> reply.Got? || reply.Failed?)
    && (request.Activate? && reply.Got? ==>
          cause == Received(reply.message) && request.message.IsResponse(reply.message.header.payloadType))
    && (request.ReceiveResponse? ==> reply.Got? || reply.Failed?)
    && (request.ReceiveResponse? && reply.Got? ==>
          || (cause.Accepted? && exists r, b :: Kept(log, reply.message, r, b, k))
          || (cause == Received(reply.message) && DefaultMessage().IsResponse(reply.message.header.payloadType)
              && !IsPositiveAck(reply.message)))
  }

  /**
   * Every success is earned: a send by a positive ack that arrived after it was armed, an activation
   * by a message of a type that answers its request, a receive by a message that arrived while it was
   * pending and counts as a diagnostic response, or by a diagnostic message that was received and
   * kept earlier, was not replaced since, and was not handed to any other receive.
   */
  lemma SuccessIsEarned(o: Options, script: Script, i: nat) returns (request: Request, k: nat, c: nat)
    requires Possible(NewClient(), o, script)
    requires i < |LogOf(o, script)| && LogOf(o, script)[i].Answered?
    ensures var log := LogOf(o, script);
            && k <= c < i && log[k] == Accepted(log[i].id, request) && IsCause(log[c])
            && (forall l :: c < l < i ==> !IsCause(log[l]))
            && Promised(log, request, log[i].reply, k, log[c])
  {
    hide RunScript, Possible, Watch, Lawful, DefaultMessage, Kept;
    var log := LogOf(o, script);
    if Watch(log[..i]).waiting.Some? {
      var a;
      request, k, a, c := AnswersHaveCauses(o, script, i);
    } else {
      request, k := ImmediateAnswers(o, script, i);
      c := k;
      if request.ReceiveResponse? && log[i].reply.Got? {
        EveryScriptIsLawful(o, script);
        LawfulAt(o, log, i);
        var r, b := FoundWasKept(o, log[..i], k);
        KeptIsLocal(log, log[i].reply.message, r, b, k, i);
      }
    }
  }

  // ---------------------------------------------- typed messages, as the codec delivers them

  predicate TypedScript(script: Script) {
    forall i :: 0 <= i < |script| ==> (script[i].0.Delivered? ==> CanonicalMessage(script[i].0.message))
  }

  /** Some stream, in some chunks, makes the codec deliver this message. */
  ghost predicate FromCodec(m: Message) {
    exists chunks :: m in Codec.ReadChunks(chunks).messages
  }

  /** Every message of the script came out of the codec, on this connection or an earlier one. */
  ghost predicate CodecScript(script: Script) {
    forall i :: 0 <= i < |script| ==> (script[i].0.Delivered? ==> FromCodec(script[i].0.message))
  }

  lemma CodecScriptsAreTyped(script: Script)
    requires CodecScript(script)
    ensures TypedScript(script)
  {
    hide Codec.ReadChunks, CanonicalMessage;
    forall i | 0 <= i < |script| && script[i].0.Delivered? ensures CanonicalMessage(script[i].0.message) {
      var m := script[i].0.message;
      assert FromCodec(m);
      var chunks :| m in Codec.ReadChunks(chunks).messages;
      Codec.ReadMessagesAreTyped(chunks);
    }
  }

  predicate TypedLog(log: Log) {
    forall i :: 0 <= i < |log| ==> (log[i].Received? ==> CanonicalMessage(log[i].message))
  }

  lemma ControlReceivesNothing(c: Client, o: Options, env: Env)
    requires TypedLog(c.log)
    ensures TypedLog(HandleControl(c, o, env).log)
  {
    hide CanonicalMessage, DefaultMessage;
  }

  lemma DeliveryReceivesNothing(c: Client, m: Message, env: Env)
    requires TypedLog(c.log)
    ensures TypedLog(Deliver(c, m, env).0.log)
  {
    hide CanonicalMessage, ResponseReply;
  }

  lemma MessageIsReceived(c: Client, o: Options, m: Message, env: Env)
    requires TypedLog(c.log) && CanonicalMessage(m)
    ensures TypedLog(ProcessMessage(c, o, m, env).0.log)
  {
    hide CanonicalMessage, Deliver, AckReply, AliveCheckResponseMessage;
    var noted := c.Note(Received(m));
    DeliveryReceivesNothing(noted, m, env);
    DeliveryReceivesNothing(SendResult(noted, AliveCheckResponseMessage(o.version, o.address), env).0, m, env);
  }

  lemma IterationKeepsTypes(c: Client, o: Options, e: Event, env: Env)
    requires TypedLog(c.log) && (e.Delivered? ==> CanonicalMessage(e.message))
    ensures TypedLog(Iterate(c, o, e, env).log)
  {
    hide CanonicalMessage, HandleControl, ProcessMessage;
    match e
    case Deadline => ControlReceivesNothing(ReachDeadline(c, env.now), o, env);
    case Control(request) => ControlReceivesNothing(Accept(c, request), o, env);
    case ControlClosed =>
    case Delivered(m) =>
      MessageIsReceived(c, o, m, env);
      ControlReceivesNothing(ProcessMessage(c, o, m, env).0, o, env);
    case SocketError => ControlReceivesNothing(ProcessError(c), o, env);
  }

  lemma {:induction false} ReceivedIsTyped(o: Options, script: Script)
    requires TypedScript(script)
    ensures TypedLog(LogOf(o, script))
  {
    hide Iterate, CanonicalMessage;
    if script != [] {
      var (e, env) := script[|script| - 1];
      ReceivedIsTyped(o, script[..|script| - 1]);
      IterationKeepsTypes(RunScript(NewClient(), o, script[..|script| - 1]), o, e, env);
    }
  }

  /** How the outer client reads the answer to its activation request; `None` is a timeout or a closed channel. */
  function ActivationDecision(port: u16, answer: Option<Reply>): Reply
    requires answer.Some? ==> answer.value.Got? || answer.value.Failed?
  {
    match answer
    case None => Port(port)
    case Some(Failed(e)) => Failed(e)
    case Some(Got(m)) =>
      if !m.payload.RoutingActivationResponse? then Failed(UnexpectedMessageType(m.header.payloadType))
      else
        var code := m.payload.response.code;
        if code.RoutingSuccessfullyActivated? || code.RoutingSuccessfullyActivatedConfirmationRequired?
        then Port(port) else Failed(RoutingActivationDenied(code))
  }

  /**
   * The activation request built by the outer client, over connections read by the codec: a
   * successful answer carries an activation response, so the decision is the port exactly for the
   * two success codes and the denial otherwise; the mismatch branch is dead.
   */
  lemma ActivationMismatchIsDead(
    o: Options, script: Script, i: nat, source: u16, activationType: ActivationType, tail: Option<Bytes4>, port: u16)
    returns (request: Request, k: nat)
    requires Possible(NewClient(), o, script) && CodecScript(script)
    requires i < |LogOf(o, script)| && LogOf(o, script)[i].Answered?
    ensures var log := LogOf(o, script);
            && k < i && log[k] == Accepted(log[i].id, request)
            && (request == Activate(ActivationRequestMessage(o.version, source, activationType, tail)) && log[i].reply.Got? ==>
                  && log[i].reply.message.payload.RoutingActivationResponse?
                  && var code := log[i].reply.message.payload.response.code;
                     ActivationDecision(port, Some(log[i].reply))
                     == if code.Byte() == 0x10 || code.Byte() == 0x11 then ActivationDecision(port, None)
                        else Failed(RoutingActivationDenied(code)))
  {
    hide RunScript, Possible, CodecScript, Kept;
    var c;
    request, k, c := SuccessIsEarned(o, script, i);
    CodecScriptsAreTyped(script);
    ReceivedIsTyped(o, script);
    var log := LogOf(o, script);
    if request == Activate(ActivationRequestMessage(o.version, source, activationType, tail)) && log[i].reply.Got? {
      assert CanonicalMessage(log[c].message);
      var m := log[i].reply.message;
      assert m.header.payloadType.RoutingActivationResponse?;
      assert m.payload.RoutingActivationResponse?;
    }
  }

  /** Which types answer which, by number: the next one for the four plain pairs, one for three, and any of three. */
  lemma ResponseTypes(request: Message, t: PayloadType)
    requires CanonicalPayloadType(request.header.payloadType) && CanonicalPayloadType(t)
    ensures var (q, r) := (PayloadTypeWord(request.header.payloadType), PayloadTypeWord(t));
            request.IsResponse(t) <==>
              || (q in {0x0005, 0x0007, 0x4001, 0x4003} && r == q + 1)
              || (0x0001 <= q <= 0x0003 && r == 0x0004)
              || (q == 0x8001 && 0x8001 <= r <= 0x8003)
  {
  }

  // ------------------------------------------------------------- what ends a wait

  /**
   * Exactly which messages end a wait. A send is ended by any ack and by nothing else, so a
   * diagnostic response or a bodyless negative ack that arrives first is dropped; a wait for a
   * response is ended by every message but a positive ack, an alive check request included.
   */
  lemma WaitEndsIff(o: Options, c: Client, m: Message, env: Env)
    requires AtTop(o, c) && c.active.Some? && c.socket
    ensures var request := Watch(c.log).waiting;
            var c' := ProcessMessage(c, o, m, env).0;
            && request.Some?
            && (c'.active.None? <==> Completes(request.value.1, m))
            && (c'.active.Some? ==>
                  && c' == c.(log := c'.log)
                  && c'.log[|c.log|..] <= [Received(m), Sent(AliveCheckResponseMessage(o.version, o.address))])
  {
    hide Watch, Lawful, ResponseReply, AckReply, AliveCheckResponseMessage;
    var c' := ProcessMessage(c, o, m, env).0;
    var sent := [Received(m), Sent(AliveCheckResponseMessage(o.version, o.address))];
    if c'.active.Some? {
      assert c'.log == c.log + [Received(m)] || c'.log == c.log + [Received(m)] + [sent[1]];
      assert c'.log[|c.log|..] == sent[..1] || c'.log[|c.log|..] == sent;
    }
  }

  /** An alive check request is answered, and also fails the request that was waiting for a response. */
  lemma AliveCheckFailsTheWait(o: Options, c: Client, m: Message, env: Env)
    requires AtTop(o, c) && c.socket && c.active.Some? && c.active.value.AwaitResponse?
    requires m.payload.AliveCheckRequest? && CanonicalMessage(m)
    ensures var c' := ProcessMessage(c, o, m, env).0;
            && (env.sendWorks ==> Sent(AliveCheckResponseMessage(o.version, o.address)) in c'.log)
            && |c'.log| > |c.log|
            && c'.log[|c'.log| - 1]
               == Answered(c.active.value.id, Failed(UnexpectedMessageType(PayloadType.AliveCheckRequest)))
  {
    hide Watch, Lawful, AliveCheckResponseMessage;
  }

  /** The peer refused a diagnostic message: a bodyless negative ack, or an ack with a negative code. */
  predicate IsRejection(m: Message) {
    m.payload.DiagnosticMessageNack? || (IsAck(m) && !IsPositiveAck(m))
  }

  lemma ResponsesAreTyped(m: Message)
    requires CanonicalMessage(m)
    ensures DefaultMessage().IsResponse(m.header.payloadType)
            <==> m.payload.DiagnosticMessage? || m.payload.DiagnosticMessageNack? || IsAck(m)
  {
    hide CanonicalPayload, CanonicalPayloadType;
  }

  /**
   * Exactly which messages a waiting receive takes for its response: diagnostic messages, and every
   * rejection, whichever of the two ack types it travels under.
   */
  lemma RejectionArrivesAsSuccess(o: Options, c: Client, id: nat, m: Message, env: Env)
    requires c.active == Some(AwaitResponse(DefaultMessage(), id)) && CanonicalMessage(m)
    ensures var c' := ProcessMessage(c, o, m, env).0;
            && |c'.log| > |c.log|
            && (c'.log[|c'.log| - 1] == Answered(id, Got(m)) <==> m.payload.DiagnosticMessage? || IsRejection(m))
            && (m.payload.DiagnosticMessage? || IsRejection(m) ==>
                  c' == c.(active := None).Note(Received(m)).Answer(id, Got(m)))
  {
    hide AliveCheckResponseMessage, DefaultMessage, CanonicalMessage;
    ResponsesAreTyped(m);
  }

  // --------------------------------------------------------- the response buffer

  lemma ControlBuffer(c: Client, o: Options, env: Env)
    ensures HandleControl(c, o, env).buffered
            == if c.active.Some? && c.active.value.ReceiveDiagnosticResponse? then None else c.buffered
  {
    hide DefaultMessage;
  }

  lemma MessageBuffer(c: Client, o: Options, m: Message, env: Env)
    ensures ProcessMessage(c, o, m, env).0.buffered
            == if m.payload.DiagnosticMessage? && c.active.None? then Some(m) else c.buffered
    ensures var active := ProcessMessage(c, o, m, env).0.active; active == c.active || active.None?
  {
    hide ResponseReply, AckReply, AliveCheckResponseMessage;
    var noted := c.Note(Received(m));
    if m.payload.AliveCheckRequest? {
      var alive := SendResult(noted, AliveCheckResponseMessage(o.version, o.address), env).0;
      assert alive.active == c.active && alive.buffered == c.buffered;
    }
  }

  /** The one-slot buffer changes only when a receive takes it or when an unclaimed diagnostic message fills it. */
  lemma BufferStep(o: Options, c: Client, e: Event, env: Env)
    requires AtTop(o, c) && Enabled(c, e, env)
    ensures Iterate(c, o, e, env).buffered ==
            if e.Control? && e.request.ReceiveResponse? then None
            else if e.Delivered? && e.message.payload.DiagnosticMessage? && c.active.None? then Some(e.message)
            else c.buffered
  {
    hide Watch, Lawful, HandleControl, ProcessMessage;
    match e
    case Deadline => ControlBuffer(ReachDeadline(c, env.now), o, env);
    case Control(request) => ControlBuffer(Accept(c, request), o, env);
    case ControlClosed =>
    case Delivered(m) =>
      MessageBuffer(c, o, m, env);
      ControlBuffer(ProcessMessage(c, o, m, env).0, o, env);
    case SocketError => ControlBuffer(ProcessError(c), o, env);
  }

  /** No receive asks for the buffered message and no later unclaimed one replaces it. */
  predicate Spared(c: Client, o: Options, script: Script) {
    script != [] ==>
      var front, e := script[..|script| - 1], script[|script| - 1].0;
      Spared(c, o, front)
      && !(e.Control? && e.request.ReceiveResponse?)
      && !(e.Delivered? && e.message.payload.DiagnosticMessage? && RunScript(c, o, front).active.None?)
  }

  lemma {:induction false} BufferSurvives(o: Options, c: Client, script: Script)
    requires AtTop(o, c) && Possible(c, o, script) && Spared(c, o, script)
    ensures AtTop(o, RunScript(c, o, script)) && RunScript(c, o, script).buffered == c.buffered
  {
    hide Iterate, Enabled, AtTop;
    if script != [] {
      var front := script[..|script| - 1];
      var (e, env) := script[|script| - 1];
      BufferSurvives(o, c, front);
      IterationKeepsStep(o, RunScript(c, o, front), e, env);
      BufferStep(o, RunScript(c, o, front), e, env);
    }
  }

  /**
   * A diagnostic response that arrived with nobody waiting is handed to the next receive, across any
   * number of socket errors, unbinds and rebinds in between, whether or not a socket is left.
   */
  lemma BufferedResponseIsDelivered(o: Options, c: Client, script: Script, timeout: nat, env: Env)
    requires AtTop(o, c) && c.buffered.Some? && Possible(c, o, script) && Spared(c, o, script)
    ensures var before := RunScript(c, o, script);
            var after := Iterate(before, o, Control(ReceiveResponse(timeout)), env);
            && |after.log| > 0
            && after.log[|after.log| - 1] == Answered(before.accepted, Got(c.buffered.value))
            && after.buffered.None? && after.active.None?
  {
    hide RunScript, Possible, Spared, AtTop;
    BufferSurvives(o, c, script);
  }
}
