/**
 * Client and entity joined by connections: any interleaving of caller requests, deadlines, lost
 * sockets, starts, stops, datagrams and connections, with the client's bytes carried to the entity in
 * chunks of any size and the entity's replies heard one by one, each at any later time.
 */
module OneConnection {
  import opened Wire
  import opened Messages
  import opened Framer
  import opened Hearing
  import opened Correlation
  import opened ClientPending
  import opened EntityConservation
  import Refinement = EntityRefinement
  import Entity = EntitySpec
  import Trace = EntityTrace
  import Runs = EntityRuns
  import Client = ClientSpec

  /** `taken` counts the client's bytes the entity has been given, `heard` the replies the client has been given. */
  datatype World = World(client: Client.Client, entity: Entity.State, connected: bool, taken: nat, heard: nat) {
    function Past(): Entity.Trace {
      entity.session.trace
    }

    /** The bytes the client has put on the connection. */
    function Outgoing(): Bytes {
      Joined(SentFrames(client.log))
    }
  }

  function PowerUp(): World {
    World(Client.NewClient(), Entity.NewEntity(), false, 0, 0)
  }

  datatype Step =
    | Platform(input: Entity.Input)
    | Connect(env: Client.Env)
    | Act(event: Client.Event, env: Client.Env)
    | Carry(n: nat)
    | Hear(env: Client.Env)

  /**
   * A connection is opened by a bind that works, on an entity that has dropped the last one; it ends
   * with a reset. The platform gives the entity no more bytes after a verdict to close.
   */
  predicate CanTake(w: World, step: Step) {
    match step
    case Platform(input) => !input.TcpRx?
    case Connect(env) => !w.connected && Client.Enabled(w.client, Client.Control(Client.Bind), env) && env.bindResult.Some?
    case Act(event, env) => Client.Enabled(w.client, event, env) && !event.Delivered? && !IsBind(event, env)
    case Carry(n) => w.connected && !GivenUp(w.Past()) && w.taken + n <= |w.Outgoing()|
    case Hear(env) => w.connected && w.client.running && w.client.socket && w.heard < |Replies(w.Past())|
  }

  function Take(w: World, o: Client.Options, step: Step): World
    requires CanTake(w, step)
  {
    match step
    case Platform(input) =>
      w.(entity := Entity.Apply(w.entity, input), connected := w.connected && input.UdpRx?)
    case Connect(env) =>
      w.(client := Client.Iterate(w.client, o, Client.Control(Client.Bind), env), connected := true, taken := 0, heard := 0)
    case Act(event, env) => w.(client := Client.Iterate(w.client, o, event, env))
    case Carry(n) =>
      w.(entity := Entity.Apply(w.entity, Entity.TcpRx(w.Outgoing()[w.taken..w.taken + n])), taken := w.taken + n)
    case Hear(env) =>
      w.(client := Client.Iterate(w.client, o, Client.Delivered(Replies(w.Past())[w.heard]), env), heard := w.heard + 1)
  }

  /** The steps lead from power-up through these worlds. */
  ghost predicate History(o: Client.Options, worlds: seq<World>, steps: seq<Step>) {
    && |worlds| == |steps| + 1 && worlds[0] == PowerUp()
    && forall i :: 0 <= i < |steps| ==> CanTake(worlds[i], steps[i]) && worlds[i + 1] == Take(worlds[i], o, steps[i])
  }

  ghost predicate Reachable(o: Client.Options, w: World) {
    exists worlds, steps :: History(o, worlds, steps) && worlds[|steps|] == w
  }

  // ------------------------------------------------------------- what holds throughout

  /** The two ends agree on what passed between them: received is heard, taken in is sent, in order. */
  ghost predicate Connected(w: World) {
    && w.heard <= |Replies(w.Past())| && ReceivedMessages(w.client.log) == Replies(w.Past())[..w.heard]
    && w.taken <= |w.Outgoing()| && HandledFrames(w.Past()) <= SentFrames(w.client.log)
    && (!GivenUp(w.Past()) ==> Balanced(w.entity, w.Outgoing()[..w.taken]))
  }

  /** Nothing has passed on the entity's side since the last reset. */
  ghost predicate Idle(st: Entity.State) {
    Replies(st.session.trace) == [] && !GivenUp(st.session.trace) && st.rx == [] && Balanced(st, [])
    && HandledFrames(st.session.trace) == []
  }

  ghost predicate Linked(w: World) {
    && Tracked(w.client) && Runs.Faithful(w.entity)
    && (if w.connected then Connected(w) else Idle(w.entity))
  }

  lemma PowerUpIsLinked()
    ensures Linked(PowerUp())
  {
    hide Refinement.Settled;
    PowerUpIsBalanced();
    assert Runs.Faithful(Entity.NewEntity());
  }

  lemma PrefixJoins(a: seq<Bytes>, b: seq<Bytes>)
    requires a <= b
    ensures Joined(a) <= Joined(b)
  {
    assert b == a + b[|a|..];
    JoinedConcat(a, b[|a|..]);
  }

  /** Sending more changes nothing about what was carried. */
  lemma MoreIsSent(w: World, c: Client.Client)
    requires Connected(w) && SentFrames(w.client.log) <= SentFrames(c.log) && ReceivedMessages(c.log) == ReceivedMessages(w.client.log)
    ensures Connected(w.(client := c))
  {
    hide Replies, GivenUp, Balanced, SentFrames, ReceivedMessages, HandledFrames;
    var w' := w.(client := c);
    PrefixJoins(SentFrames(w.client.log), SentFrames(c.log));
    assert w'.Outgoing()[..w.taken] == w.Outgoing()[..w.taken];
  }

  lemma TrackedIsNoBind(c: Client.Client)
    requires Tracked(c)
    ensures c.active.Some? ==> !c.active.value.BindSocket?
  {
    if c.active.Some? {
      var request, k, a :| Outstanding(c, request, k, a);
    }
  }

  lemma ActIsLinked(w: World, o: Client.Options, event: Client.Event, env: Client.Env)
    requires Linked(w) && CanTake(w, Act(event, env))
    ensures Linked(Take(w, o, Act(event, env)))
  {
    hide Tracked, Runs.Faithful, Connected, Idle, Client.Iterate;
    IterationTracks(w.client, o, event, env);
    TrackedIsNoBind(w.client);
    IterationTraffic(w.client, o, event, env);
    if w.connected {
      MoreIsSent(w, Client.Iterate(w.client, o, event, env));
    }
  }

  lemma HearIsLinked(w: World, o: Client.Options, env: Client.Env)
    requires Linked(w) && CanTake(w, Hear(env))
    ensures Linked(Take(w, o, Hear(env)))
  {
    hide Tracked, Runs.Faithful, Client.Iterate, Replies, GivenUp, Balanced, SentFrames, ReceivedMessages, HandledFrames, Idle;
    var m := Replies(w.Past())[w.heard];
    var c := Client.Iterate(w.client, o, Client.Delivered(m), env);
    IterationTracks(w.client, o, Client.Delivered(m), env);
    TrackedIsNoBind(w.client);
    IterationTraffic(w.client, o, Client.Delivered(m), env);
    PrefixJoins(SentFrames(w.client.log), SentFrames(c.log));
    assert w.(client := c).Outgoing()[..w.taken] == w.Outgoing()[..w.taken];
    assert Replies(w.Past())[..w.heard + 1] == Replies(w.Past())[..w.heard] + [m];
  }

  lemma ConnectIsLinked(w: World, o: Client.Options, env: Client.Env)
    requires Linked(w) && CanTake(w, Connect(env))
    ensures Linked(Take(w, o, Connect(env)))
  {
    hide Tracked, Runs.Faithful, Client.Iterate, Replies, GivenUp, Balanced, SentFrames, ReceivedMessages, HandledFrames;
    IterationTracks(w.client, o, Client.Control(Client.Bind), env);
    BindingOpens(w.client, o, env);
  }

  lemma ResetIsLinked(w: World, o: Client.Options, input: Entity.Input)
    requires Linked(w) && CanTake(w, Platform(input)) && !input.UdpRx?
    ensures Linked(Take(w, o, Platform(input)))
  {
    hide Tracked, Runs.Faithful, Connected, Refinement.Settled, Entity.ReceiveTcp, Entity.ReceiveUdp;
    Runs.ApplyKeepsFaith(w.entity, input);
    var st := Entity.Apply(w.entity, input);
    assert Runs.Resets(st.session.trace[|st.session.trace| - 1]);
    Refinement.EmptyIsSettled();
  }

  lemma DatagramIsQuiet(tr: Entity.Trace, e: Entity.Event)
    requires e.UdpSent?
    ensures Replies(tr + [e]) == Replies(tr) && HandledFrames(tr + [e]) == HandledFrames(tr)
    ensures GivenUp(tr + [e]) <==> GivenUp(tr)
  {
    hide Replies, HandledFrames, GivenUp, Sources, Earned;
    TraceExtends(Ack, tr, e, 0);
    HandledExtend(tr, e);
  }

  lemma DatagramIsLinked(w: World, o: Client.Options, input: Entity.Input)
    requires Linked(w) && input.UdpRx?
    ensures Linked(Take(w, o, Platform(input)))
  {
    hide Tracked, Runs.Faithful, Replies, GivenUp, Balanced, SentFrames, ReceivedMessages, HandledFrames, Entity.Apply;
    Runs.ApplyKeepsFaith(w.entity, input);
    UdpIsBalanced(w.entity, input, if w.connected then w.Outgoing()[..w.taken] else []);
    var more := DatagramAdds(w.entity, input);
    if more == [] {
      assert w.Past() + more == w.Past();
    } else {
      assert more == [more[0]];
      DatagramIsQuiet(w.Past(), more[0]);
    }
  }

  // -------------------------------------------------------- frames arrive as they were sent

  lemma {:induction false} SentAreFrames(log: Client.Log)
    ensures forall i :: 0 <= i < |SentFrames(log)| ==> IsFrame(SentFrames(log)[i])
  {
    hide EncodeMessage, IsFrame;
    if log != [] && !Opens(log[|log| - 1]) {
      SentAreFrames(log[..|log| - 1]);
      var e := log[|log| - 1];
      if e.Sent? && EncodeMessage(e.message).Ok? {
        PrintedIsFrame(e.message);
      }
    }
  }

  lemma PrintedIsFrame(m: Message)
    requires EncodeMessage(m).Ok?
    ensures IsFrame(EncodeMessage(m).value)
  {
    hide EncodeMessage, TryFrame;
    PrintedMessageFrames(m, []);
    assert EncodeMessage(m).value + [] == EncodeMessage(m).value;
  }

  /** There is one way only to cut a stream into frames. */
  lemma {:induction false} FramesAreUnique(frames: seq<Bytes>, tail: Bytes, sent: seq<Bytes>)
    requires Joined(frames) + tail <= Joined(sent)
    requires forall i :: 0 <= i < |frames| ==> IsFrame(frames[i])
    requires forall i :: 0 <= i < |sent| ==> IsFrame(sent[i])
    ensures frames <= sent
  {
    hide TryFrame;
    if frames != [] {
      var all := Joined(sent);
      var f := frames[0];
      assert f <= all;
      assert sent != [];
      var g := sent[0];
      FramingIsStable(f, all[|f|..]);
      FramingIsStable(g, all[|g|..]);
      assert f + all[|f|..] == all && g + all[|g|..] == all;
      assert f == g;
      assert Joined(frames[1..]) + tail == (Joined(frames) + tail)[|f|..];
      assert Joined(sent[1..]) == all[|f|..];
      FramesAreUnique(frames[1..], tail, sent[1..]);
      assert frames == [f] + frames[1..] && sent == [f] + sent[1..];
    }
  }

  lemma {:induction false} RepliesGrow(tr: Entity.Trace, more: Entity.Trace)
    requires forall i :: 0 <= i < |more| ==> !Runs.Resets(more[i])
    ensures Replies(tr) <= Replies(tr + more)
  {
    hide Heard, Sources, Earned;
    if more == [] {
      assert tr + more == tr;
    } else {
      var (front, e) := (more[..|more| - 1], more[|more| - 1]);
      RepliesGrow(tr, front);
      assert (tr + front) + [e] == tr + more;
      TraceExtends(Ack, tr + front, e, 0);
    }
  }

  lemma CarryIsLinked(w: World, o: Client.Options, n: nat)
    ensures Linked(w) && CanTake(w, Carry(n)) ==> Linked(Take(w, o, Carry(n)))
  {
    hide Tracked, Runs.Faithful, Replies, GivenUp, Balanced, SentFrames, ReceivedMessages, HandledFrames, IsFrame, Idle, Entity.Apply, Entity.ReceiveTcp;
    if !(Linked(w) && CanTake(w, Carry(n))) {
      return;
    }
    var (all, given) := (w.Outgoing(), w.Outgoing()[..w.taken]);
    var data := all[w.taken..w.taken + n];
    var after := Entity.Apply(w.entity, Entity.TcpRx(data));
    assert given + data == all[..w.taken + n];
    Runs.ApplyKeepsFaith(w.entity, Entity.TcpRx(data));
    TcpIsBalanced(w.entity, data, given);
    var more := ChunkAdds(w.entity, data);
    RepliesGrow(w.Past(), more + [Entity.Answered(Entity.ReceiveTcp(w.entity, data).1)]);
    CarriedFrames(w.entity, given, data, w.client.log);
  }

  lemma CarriedFrames(st: Entity.State, given: Bytes, data: Bytes, log: Client.Log)
    requires Balanced(st, given) && given + data <= Joined(SentFrames(log))
    ensures HandledFrames(Entity.Apply(st, Entity.TcpRx(data)).session.trace) <= SentFrames(log)
  {
    hide HandledFrames, SentFrames, IsFrame, Refinement.Settled, Entity.Apply, Joined;
    var frames := HandledFrames(st.session.trace);
    var later, tail := ChunkFrames(st, data);
    JoinedConcat(frames, later);
    SentAreFrames(log);
    assert (Joined(frames) + st.rx) + data == Joined(frames) + (st.rx + data);
    Regroup([], Joined(frames), Joined(later), tail);
    assert given + data == Joined(frames + later) + tail;
    FramesAreUnique(frames + later, tail, SentFrames(log));
  }

  lemma {:induction false} HistoryIsLinked(o: Client.Options, worlds: seq<World>, steps: seq<Step>)
    requires History(o, worlds, steps)
    ensures Linked(worlds[|steps|])
  {
    hide CanTake, Take, Linked, PowerUp;
    if steps == [] {
      PowerUpIsLinked();
    } else {
      var n := |steps| - 1;
      HistoryIsLinked(o, worlds[..n + 1], steps[..n]);
      StepIsLinked(worlds[n], o, steps[n]);
    }
  }

  /** In every world the two can reach, they agree on what passed between them. */
  lemma EveryWorldIsLinked(o: Client.Options, w: World)
    requires Reachable(o, w)
    ensures Linked(w)
  {
    hide Linked;
    var worlds, steps :| History(o, worlds, steps) && worlds[|steps|] == w;
    HistoryIsLinked(o, worlds, steps);
  }

  lemma StepIsLinked(w: World, o: Client.Options, step: Step)
    requires Linked(w) && CanTake(w, step)
    ensures Linked(Take(w, o, step))
  {
    hide CanTake, Take, Linked;
    match step
    case Platform(input) => if input.UdpRx? { DatagramIsLinked(w, o, input); } else { ResetIsLinked(w, o, input); }
    case Connect(env) => ConnectIsLinked(w, o, env);
    case Act(event, env) => ActIsLinked(w, o, event, env);
    case Carry(n) => CarryIsLinked(w, o, n);
    case Hear(env) => HearIsLinked(w, o, env);
  }

  // ------------------------------------------------------------------ whose answer it is

  /** The kind of reply that ends the wait of a request that was sent. */
  predicate WaitsFor(kind: Kind, request: Client.Request) {
    match kind
    case Ack => request.SendDiagnostic?
    case Activation => request.Activate?
  }

  ghost predicate AllExpected(ms: seq<Message>) {
    forall i :: 0 <= i < |ms| ==> Expected(ms[i])
  }

  /** While a request waits, nothing more is sent and no reply of its kind is received. */
  lemma {:induction false} WaitingIsQuiet(kind: Kind, request: Client.Request, log: Client.Log, a: nat, n: nat)
    requires WaitsFor(kind, request) && a < n <= |log| && log[a].Armed?
    requires forall l :: a < l < n ==> Passes(request, log, l)
    requires AllExpected(ReceivedMessages(log[..n]))
    ensures SentFrames(log[..n]) == SentFrames(log[..a])
    ensures Count(kind, ReceivedMessages(log[..n])) == Count(kind, ReceivedMessages(log[..a]))
    decreases n
  {
    hide WireForm, SentFrames, ReceivedMessages, Count;
    var (front, e) := (log[..n - 1], log[n - 1]);
    assert log[..n] == front + [e];
    assert !Opens(e) by { if n - 1 > a { assert Passes(request, log, n - 1); } }
    TrafficExtends(front, e);
    if n - 1 == a {
      assert SentFrames(front) + [] == SentFrames(front) && ReceivedMessages(front) + [] == ReceivedMessages(front);
    } else {
      assert Passes(request, log, n - 1);
      assert AllExpected(ReceivedMessages(front)) by {
        assert forall i :: 0 <= i < |ReceivedMessages(front)| ==> ReceivedMessages(log[..n])[i] == ReceivedMessages(front)[i];
      }
      WaitingIsQuiet(kind, request, log, a, n - 1);
      if e.Received? {
        CountExtends(kind, ReceivedMessages(front), e.message);
      } else {
        NoAliveCheck(log, n - 1);
      }
    }
  }

  lemma NoAliveCheck(log: Client.Log, n: nat)
    requires 1 <= n <= |log| && log[n - 1].Received? && AllExpected(ReceivedMessages(log[..n]))
    ensures !log[n - 1].message.payload.AliveCheckRequest?
  {
    hide SentFrames, WireForm;
    var ms := ReceivedMessages(log[..n]);
    assert log[..n][n - 1] == log[n - 1];
    assert ms[|ms| - 1] == log[n - 1].message;
  }

  /** The number a request's own frame has on its connection. */
  function OwnNumber(log: Client.Log, a: nat): nat
    requires 1 <= a <= |log|
  {
    |SentFrames(log[..a - 1])|
  }

  /** Of what the client has sent, a pending request's own message is the last. */
  lemma OwnIsLast(kind: Kind, c: Client.Client, request: Client.Request, k: nat, a: nat)
    requires Outstanding(c, request, k, a) && WaitsFor(kind, request) && AllExpected(ReceivedMessages(c.log))
    ensures SentFrames(c.log) == SentFrames(c.log[..a - 1]) + WireForm(request.message)
    ensures Count(kind, ReceivedMessages(c.log)) == Count(kind, ReceivedMessages(c.log[..a]))
  {
    hide WireForm, SentFrames, ReceivedMessages, Count;
    var log := c.log;
    assert log[..|log|] == log;
    WaitingIsQuiet(kind, request, log, a, |log|);
    assert log[..a] == log[..a - 1] + [log[a - 1]];
    TrafficExtends(log[..a - 1], log[a - 1]);
  }

  lemma HeardIsExpected(w: World)
    requires Linked(w) && w.connected
    ensures AllExpected(ReceivedMessages(w.client.log)) && AllExpected(Replies(w.Past()))
  {
    hide Replies, Sources, Earned, HandledFrames, Count, SentFrames, ReceivedMessages, GivenUp, Balanced, Answers, Tracked;
    RepliesAreAttributed(Ack, w.Past());
  }

  /**
   * Whose answer it is. Client and entity run in any interleaving, over any number of connections. A
   * request is pending, armed at `a`; the next reply the client will hear is of the kind that ends its
   * wait, and answers the connection's frame number `q`. That frame is the one the client sent as
   * number `q`, it earned the reply, and it is never younger than the request's own frame, number `p`.
   * It is the request's own exactly when, at the moment the request was armed, the client had received
   * as many replies of the kind as frames sent before its own have earned.
   */
  lemma AnswerIsOwnIff(o: Client.Options, w: World, kind: Kind, request: Client.Request, k: nat, a: nat) returns (q: nat)
    requires Reachable(o, w) && w.connected && w.heard < |Replies(w.Past())| && OfKind(kind, Replies(w.Past())[w.heard])
    requires Outstanding(w.client, request, k, a) && WaitsFor(kind, request)
    ensures |Sources(w.Past())| == |Replies(w.Past())| && q == Sources(w.Past())[w.heard]
    ensures q < |HandledFrames(w.Past())| && HandledFrames(w.Past()) <= SentFrames(w.client.log)
    ensures Earned(kind, w.Past(), q + 1) == Earned(kind, w.Past(), q) + 1
    ensures var p := OwnNumber(w.client.log, a);
            && q <= p && p <= |SentFrames(w.client.log)| && SentFrames(w.client.log)[p..] == WireForm(request.message)
            && (q == p <==> Earned(kind, w.Past(), p) == Count(kind, ReceivedMessages(w.client.log[..a])))
  {
    hide Replies, Sources, Earned, HandledFrames, Count, SentFrames, ReceivedMessages, GivenUp, Balanced, WireForm, Reachable,
      Tracked, Trace.Lawful, Trace.Watch, AllExpected;
    var (tr, log) := (w.Past(), w.client.log);
    EveryWorldIsLinked(o, w);
    HeardIsExpected(w);
    OwnIsLast(kind, w.client, request, k, a);
    CountingDecides(kind, tr, w.heard, OwnNumber(log, a));
    q := Sources(tr)[w.heard];
    OneFrameAtMost(request.message);
  }

  lemma OneFrameAtMost(m: Message)
    ensures |WireForm(m)| <= 1
  {
  }

  /** Does a frame, by its type bytes, ask for a reply of this kind? */
  predicate Asks(kind: Kind, b: Bytes) {
    |b| >= HEADER_SIZE && (if kind.Ack? then b[2] == 0x80 && b[3] == 0x01 else b[2] == 0x00 && b[3] == 0x05)
  }

  function Asked(kind: Kind, frames: seq<Bytes>): nat {
    if frames == [] then 0
    else Asked(kind, frames[..|frames| - 1]) + (if Asks(kind, frames[|frames| - 1]) then 1 else 0)
  }

  lemma EarningAsks(kind: Kind, before: Entity.Trace, e: Entity.Event)
    requires Earns(kind, before, e)
    ensures Asks(kind, FrameBytes(e.frame))
  {
    hide Trace.Watch;
    PrintedHeaderByBytes(e.frame.header);
  }

  lemma {:induction false} AskedGrows(kind: Kind, frames: seq<Bytes>, n: nat)
    requires n <= |frames|
    ensures Asked(kind, frames[..n]) <= Asked(kind, frames)
  {
    hide Asks;
    if n < |frames| {
      AskedGrows(kind, frames[..|frames| - 1], n);
      assert frames[..|frames| - 1][..n] == frames[..n];
    } else {
      assert frames[..n] == frames;
    }
  }

  function First(p: nat, frames: seq<Bytes>): seq<Bytes> {
    if p < |frames| then frames[..p] else frames
  }

  /** Frames earn no more replies than they ask for. */
  lemma {:induction false} EarnedIsAsked(kind: Kind, tr: Entity.Trace, p: nat)
    ensures var frames := HandledFrames(tr);
            Earned(kind, tr, p) <= Asked(kind, First(p, frames))
  {
    hide Earns, Asks, FrameBytes;
    if tr != [] && !Runs.Resets(tr[|tr| - 1]) {
      var (front, e) := (tr[..|tr| - 1], tr[|tr| - 1]);
      EarnedIsAsked(kind, front, p);
      var (frames, after) := (HandledFrames(front), HandledFrames(tr));
      OnlyFramesEarn(kind, front, e);
      if e.Framed? {
        assert after[..|frames|] == frames;
        if |frames| < p {
          assert First(p, after) == after && First(p, frames) == frames;
          if Earns(kind, front, e) {
            EarningAsks(kind, front, e);
          }
        } else {
          assert First(p, after) == First(p, frames);
        }
      } else {
        assert after == frames;
      }
    }
  }

  /**
   * What a caller can see to: if every frame sent before on the connection that asked for a reply of
   * the kind had got it when the request was armed, the next such reply is the request's own. The ack
   * that then completes a send says that this very message was forwarded.
   */
  lemma AnsweredSoFarIsOwn(o: Client.Options, w: World, kind: Kind, request: Client.Request, k: nat, a: nat) returns (q: nat)
    requires Reachable(o, w) && w.connected && w.heard < |Replies(w.Past())| && OfKind(kind, Replies(w.Past())[w.heard])
    requires Outstanding(w.client, request, k, a) && WaitsFor(kind, request)
    requires Count(kind, ReceivedMessages(w.client.log[..a])) == Asked(kind, SentFrames(w.client.log[..a - 1]))
    ensures q == OwnNumber(w.client.log, a)
    ensures q < |HandledFrames(w.Past())| && WireForm(request.message) == [HandledFrames(w.Past())[q]]
    ensures Earned(kind, w.Past(), q + 1) == Earned(kind, w.Past(), q) + 1
  {
    hide Replies, Sources, Earned, HandledFrames, Count, SentFrames, ReceivedMessages, WireForm, Reachable, Asked;
    var (tr, log) := (w.Past(), w.client.log);
    q := AnswerIsOwnIff(o, w, kind, request, k, a);
    var p := OwnNumber(log, a);
    CountIsEarned(o, w, kind, request, k, a, q);
    EarnedIsAsked(kind, tr, p);
    var frames := HandledFrames(tr);
    var some := First(p, frames);
    SentBefore(o, w, kind, request, k, a);
    assert some == SentFrames(log[..a - 1])[..|some|];
    AskedGrows(kind, SentFrames(log[..a - 1]), |some|);
    OneFrameAtMost(request.message);
  }

  lemma SentBefore(o: Client.Options, w: World, kind: Kind, request: Client.Request, k: nat, a: nat)
    requires Reachable(o, w) && w.connected && Outstanding(w.client, request, k, a) && WaitsFor(kind, request)
    ensures SentFrames(w.client.log) == SentFrames(w.client.log[..a - 1]) + WireForm(request.message)
  {
    hide Reachable, Linked, SentFrames, ReceivedMessages, WireForm, Outstanding;
    EveryWorldIsLinked(o, w);
    HeardIsExpected(w);
    OwnIsLast(kind, w.client, request, k, a);
  }

  /** The replies received before the request was armed are no more than the frames before its own earned. */
  lemma CountIsEarned(o: Client.Options, w: World, kind: Kind, request: Client.Request, k: nat, a: nat, q: nat)
    requires Reachable(o, w) && w.connected && w.heard < |Replies(w.Past())| && OfKind(kind, Replies(w.Past())[w.heard])
    requires Outstanding(w.client, request, k, a) && WaitsFor(kind, request)
    requires |Sources(w.Past())| == |Replies(w.Past())| && q == Sources(w.Past())[w.heard] && q <= OwnNumber(w.client.log, a)
    ensures Count(kind, ReceivedMessages(w.client.log[..a])) <= Earned(kind, w.Past(), OwnNumber(w.client.log, a))
  {
    hide Replies, Sources, Earned, HandledFrames, Count, SentFrames, ReceivedMessages, GivenUp, Balanced, WireForm, Reachable,
      Tracked, Trace.Lawful, Trace.Watch, AllExpected;
    EveryWorldIsLinked(o, w);
    HeardIsExpected(w);
    OwnIsLast(kind, w.client, request, k, a);
    CountingDecides(kind, w.Past(), w.heard, q);
    EarnedGrows(kind, w.Past(), q, OwnNumber(w.client.log, a));
  }

  /** And hearing it answers the request: a send succeeds, an activation gets the entity's reply. */
  lemma HearingAnswers(
    o: Client.Options, w: World, kind: Kind, request: Client.Request, k: nat, a: nat, env: Client.Env)
    requires Reachable(o, w) && CanTake(w, Hear(env)) && OfKind(kind, Replies(w.Past())[w.heard])
    requires Outstanding(w.client, request, k, a) && WaitsFor(kind, request)
    ensures var m := Replies(w.Past())[w.heard];
            var c' := Take(w, o, Hear(env)).client;
            && c'.active.None? && |c'.log| > |w.client.log|
            && c'.log[|c'.log| - 1]
               == Client.Answered(w.client.active.value.id,
                                  if kind.Ack? then Client.Done else Client.ResponseReply(request.message, m))
  {
    hide Replies, Reachable, Linked, Client.ResponseReply, Client.Iterate;
    EveryWorldIsLinked(o, w);
    HeardIsExpected(w);
    var m := Replies(w.Past())[w.heard];
    assert Expected(m);
    KindAnswers(o, w.client, kind, request, k, a, m, env);
  }

  lemma KindAnswers(
    o: Client.Options, c: Client.Client, kind: Kind, request: Client.Request, k: nat, a: nat, m: Message, env: Client.Env)
    requires Outstanding(c, request, k, a) && WaitsFor(kind, request) && OfKind(kind, m) && Expected(m)
    ensures var c' := Client.Iterate(c, o, Client.Delivered(m), env);
            && c'.active.None? && |c'.log| > |c.log|
            && c'.log[|c'.log| - 1]
               == Client.Answered(c.active.value.id,
                                  if kind.Ack? then Client.Done else Client.ResponseReply(request.message, m))
  {
    hide Client.ResponseReply, DefaultMessage;
  }
}
