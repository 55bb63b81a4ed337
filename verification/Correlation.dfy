/**
 * Which reply belongs to which frame of a connection, read off the entity's trace: replies carry no
 * mark of the frame they answer, so a listener can only count.
 */
module Correlation {
  import opened Wire
  import opened Messages
  import opened EntitySpec
  import opened EntityTrace
  import opened EntityRuns
  import opened EntityConservation
  import opened Hearing
  import Codec

  /** The replies a client waits for: the ack of a diagnostic message, the answer to an activation request. */
  datatype Kind = Ack | Activation

  predicate OfKind(kind: Kind, m: Message) {
    match kind
    case Ack => m.payload.DiagnosticMessageAck?
    case Activation => m.payload.RoutingActivationResponse?
  }

  /** A frame that is answered by a reply of this kind: one that is forwarded, or a request for activation. */
  predicate Earns(kind: Kind, before: Trace, e: Event) {
    e.Framed? &&
    match kind
    case Ack => Watch(before).own.Some? && Accepted(Watch(before).own.value, Watch(before).active, e.frame)
    case Activation => IsActivation(e.frame)
  }

  /** Everything but what an entity never says: an alive check request, or an ack with a negative code. */
  predicate Expected(m: Message) {
    !m.payload.AliveCheckRequest? && (m.payload.DiagnosticMessageAck? ==> m.payload.ack.code.IsPositive())
  }

  function Count(kind: Kind, ms: seq<Message>): nat {
    if ms == [] then 0 else Count(kind, ms[..|ms| - 1]) + (if OfKind(kind, ms[|ms| - 1]) then 1 else 0)
  }

  /** What a listener hears on the connection, since the last reset. */
  function Replies(tr: Trace): seq<Message> {
    if tr == [] || Resets(tr[|tr| - 1]) then []
    else
      var front, e := tr[..|tr| - 1], tr[|tr| - 1];
      Replies(front) + (if e.TcpSent? && Heard(e.data).Some? then [Heard(e.data).value] else [])
  }

  /** For each of these the number of the frame it follows; the frames of a connection are numbered from zero. */
  function Sources(tr: Trace): seq<int> {
    if tr == [] || Resets(tr[|tr| - 1]) then []
    else
      var front, e := tr[..|tr| - 1], tr[|tr| - 1];
      Sources(front) + (if e.TcpSent? && Heard(e.data).Some? then [|HandledFrames(front)| - 1] else [])
  }

  /** How many of the connection's first `p` frames earn a reply of this kind. */
  function Earned(kind: Kind, tr: Trace, p: int): nat {
    if tr == [] || Resets(tr[|tr| - 1]) then 0
    else
      var front, e := tr[..|tr| - 1], tr[|tr| - 1];
      Earned(kind, front, p) + (if Earns(kind, front, e) && |HandledFrames(front)| < p then 1 else 0)
  }

  lemma CountExtends(kind: Kind, ms: seq<Message>, m: Message)
    ensures Count(kind, ms + [m]) == Count(kind, ms) + (if OfKind(kind, m) then 1 else 0)
  {
    assert (ms + [m])[..|ms|] == ms;
  }

  lemma TraceExtends(kind: Kind, tr: Trace, e: Event, p: int)
    requires !Resets(e)
    ensures Replies(tr + [e]) == Replies(tr) + (if e.TcpSent? && Heard(e.data).Some? then [Heard(e.data).value] else [])
    ensures Sources(tr + [e]) == Sources(tr) + (if e.TcpSent? && Heard(e.data).Some? then [|HandledFrames(tr)| - 1] else [])
    ensures Earned(kind, tr + [e], p)
            == Earned(kind, tr, p) + (if Earns(kind, tr, e) && |HandledFrames(tr)| < p then 1 else 0)
  {
    hide Heard, Earns, HandledFrames;
    assert (tr + [e])[..|tr|] == tr;
  }

  /** More frames earn no less, and frames not yet taken in earn nothing. */
  lemma {:induction false} EarnedGrows(kind: Kind, tr: Trace, p: int, p': int)
    requires p <= p'
    ensures Earned(kind, tr, p) <= Earned(kind, tr, p')
    ensures |HandledFrames(tr)| <= p ==> Earned(kind, tr, p) == Earned(kind, tr, p')
  {
    hide Earns, FrameBytes;
    if tr != [] && !Resets(tr[|tr| - 1]) {
      EarnedGrows(kind, tr[..|tr| - 1], p, p');
      assert Earns(kind, tr[..|tr| - 1], tr[|tr| - 1]) ==> tr[|tr| - 1].Framed? by { OnlyFramesEarn(kind, tr[..|tr| - 1], tr[|tr| - 1]); }
    }
  }

  lemma OnlyFramesEarn(kind: Kind, before: Trace, e: Event)
    ensures Earns(kind, before, e) ==> e.Framed?
  {
  }

  // ------------------------------------------------------------- what a send sounds like

  /** The trace ends with a frame that is still to be answered. */
  predicate Unanswered(kind: Kind, tr: Trace) {
    tr != [] && Earns(kind, tr[..|tr| - 1], tr[|tr| - 1])
  }

  /** The monitor waits for a reply exactly after a frame, and judges it by the state before the frame. */
  lemma PhaseStory(tr: Trace)
    requires Lawful(tr)
    ensures Watch(tr).phase.MustReply? <==> tr != [] && tr[|tr| - 1].Framed?
    ensures Watch(tr).phase.MustReply? ==>
              var before := Watch(tr[..|tr| - 1]);
              && Watch(tr).phase.frame == tr[|tr| - 1].frame
              && Watch(tr).own == before.own && Watch(tr).active == before.active
              && before.phase.Quiet? && before.own.Some?
  {
    hide WellFormed, ReplyTo, Accepted, Refused, Activates, NackFrame, DiagnosticFrame;
  }

  /** Any allowed send is heard, and is of a kind exactly when it answers a frame that earns it. */
  lemma SendKind(kind: Kind, tr: Trace, d: Bytes)
    requires Lawful(tr) && Allowed(Watch(tr), TcpSent(d))
    ensures Heard(d).Some? && Expected(Heard(d).value)
    ensures OfKind(kind, Heard(d).value) <==> Unanswered(kind, tr)
  {
    hide Heard, Watch, Lawful, NackFrame, DiagnosticFrame, ActivationFrame, PositiveAckFrame, NegativeAckFrame,
      ActivationVerdict;
    var m := Watch(tr);
    PhaseStory(tr);
    match m.phase
    case MustReply(f) =>
      if IsActivation(f) {
        ActivationIsHeard(m.own.value, SourceOf(f), ActivationVerdict(m.active, f));
      } else if IsDiagnostic(f) {
        VerdictIsHeard(m.own.value, m.active, f);
      } else {
        NackIsHeard(0x01);
      }
    case MustRespond(tester, response) => DiagnosticIsHeard(m.own.value, tester, response);
    case Quiet =>
      NackIsHeard(0x00);
      NackIsHeard(0x02);
      NackIsHeard(0x03);
  }

  // ----------------------------------------------------------------- counting is exact

  /** The reply after `earlier` ones answers frame `q`: as many replies of its kind came before as frames that earn one. */
  predicate Answers(kind: Kind, tr: Trace, earlier: seq<Message>, q: int) {
    && 0 <= q < |HandledFrames(tr)|
    && Earned(kind, tr, q) == Count(kind, earlier) && Earned(kind, tr, q + 1) == Count(kind, earlier) + 1
  }

  ghost predicate Attributed(kind: Kind, tr: Trace) {
    var (replies, sources, n) := (Replies(tr), Sources(tr), |HandledFrames(tr)|);
    && |sources| == |replies|
    && (forall h :: 0 <= h < |replies| && OfKind(kind, replies[h]) ==> Answers(kind, tr, replies[..h], sources[h]))
    && (forall h :: 0 <= h < |replies| ==> Expected(replies[h]))
    && (if Unanswered(kind, tr) then Answers(kind, tr, replies, n - 1) else Earned(kind, tr, n) == Count(kind, replies))
  }

  /** A later event takes no answer away. */
  lemma AnswersStay(kind: Kind, tr: Trace, e: Event, earlier: seq<Message>, q: int)
    requires Answers(kind, tr, earlier, q) && !Resets(e)
    ensures Answers(kind, tr + [e], earlier, q)
  {
    hide Earned, HandledFrames, Count, Earns;
    TraceExtends(kind, tr, e, q);
    TraceExtends(kind, tr, e, q + 1);
    HandledExtend(tr, e);
  }

  lemma ExtendUnanswered(kind: Kind, tr: Trace, e: Event)
    ensures Unanswered(kind, tr + [e]) <==> Earns(kind, tr, e)
  {
    hide Earns;
    assert (tr + [e])[..|tr|] == tr;
  }

  /** The replies so far keep their frames when an event follows that is not a send. */
  lemma AttributedAfter(kind: Kind, tr: Trace, e: Event)
    requires Attributed(kind, tr) && !Unanswered(kind, tr) && !Resets(e) && !e.TcpSent?
    ensures Attributed(kind, tr + [e])
  {
    hide Replies, Sources, Earned, HandledFrames, Count, Earns, OfKind, Answers, FrameBytes, Unanswered;
    var (replies, n) := (Replies(tr), |HandledFrames(tr)|);
    TraceExtends(kind, tr, e, n);
    TraceExtends(kind, tr, e, n + 1);
    HandledExtend(tr, e);
    ExtendUnanswered(kind, tr, e);
    OnlyFramesEarn(kind, tr, e);
    EarnedGrows(kind, tr, n, n + 1);
    assert Replies(tr + [e]) == replies && Sources(tr + [e]) == Sources(tr);
    assert HandledFrames(tr) + [] == HandledFrames(tr);
    forall h | 0 <= h < |replies| && OfKind(kind, replies[h]) ensures Answers(kind, tr + [e], replies[..h], Sources(tr)[h]) {
      AnswersStay(kind, tr, e, replies[..h], Sources(tr)[h]);
    }
    if Earns(kind, tr, e) {
      assert Answers(kind, tr + [e], replies, n) by { NewlyEarned(kind, tr, e); }
    }
  }

  lemma NewlyEarned(kind: Kind, tr: Trace, e: Event)
    requires Earns(kind, tr, e) && !Resets(e) && Earned(kind, tr, |HandledFrames(tr)|) == Count(kind, Replies(tr))
    ensures Answers(kind, tr + [e], Replies(tr), |HandledFrames(tr)|)
  {
    hide Replies, Sources, Earned, HandledFrames, Count, Earns, FrameBytes;
    var n := |HandledFrames(tr)|;
    TraceExtends(kind, tr, e, n);
    TraceExtends(kind, tr, e, n + 1);
    HandledExtend(tr, e);
    OnlyFramesEarn(kind, tr, e);
    EarnedGrows(kind, tr, n, n + 1);
  }

  /** A send is attributed to the frame it answers. */
  lemma AttributedSend(kind: Kind, tr: Trace, d: Bytes)
    requires Attributed(kind, tr) && Lawful(tr) && Allowed(Watch(tr), TcpSent(d))
    ensures Attributed(kind, tr + [TcpSent(d)])
  {
    hide Replies, Sources, Earned, HandledFrames, Count, Earns, OfKind, Answers, Unanswered, Heard, Watch, Lawful, Allowed, Expected;
    SendKind(kind, tr, d);
    var (e, m) := (TcpSent(d), Heard(d).value);
    var (replies, sources, n) := (Replies(tr), Sources(tr), |HandledFrames(tr)|);
    TraceExtends(kind, tr, e, n);
    HandledExtend(tr, e);
    assert HandledFrames(tr) + [] == HandledFrames(tr);
    ExtendUnanswered(kind, tr, e);
    OnlyFramesEarn(kind, tr, e);
    CountExtends(kind, replies, m);
    var after := Replies(tr + [e]);
    assert after == replies + [m] && Sources(tr + [e]) == sources + [n - 1];
    forall h | 0 <= h < |after| && OfKind(kind, after[h])
      ensures Answers(kind, tr + [e], after[..h], Sources(tr + [e])[h])
    {
      assert after[..h] == replies[..h];
      if h == |replies| {
        assert replies[..h] == replies;
      }
      AnswersStay(kind, tr, e, replies[..h], Sources(tr + [e])[h]);
    }
    if Unanswered(kind, tr) {
      assert Earned(kind, tr, n) == Count(kind, replies) + 1 by { UnfoldAnswers(kind, tr, replies, n - 1); }
    }
  }

  lemma UnfoldAnswers(kind: Kind, tr: Trace, earlier: seq<Message>, q: int)
    requires Answers(kind, tr, earlier, q)
    ensures Earned(kind, tr, q + 1) == Count(kind, earlier) + 1
  {
  }

  /** In every lawful trace every reply of a kind belongs to the frame that counting finds. */
  lemma {:induction false} RepliesAreAttributed(kind: Kind, tr: Trace)
    requires Lawful(tr)
    ensures Attributed(kind, tr)
  {
    hide Replies, Sources, Earned, HandledFrames, Count, Attributed, Allowed, Watch;
    if tr == [] || Resets(tr[|tr| - 1]) {
      FreshIsAttributed(kind, tr);
    } else {
      var (front, e) := (tr[..|tr| - 1], tr[|tr| - 1]);
      RepliesAreAttributed(kind, front);
      assert front + [e] == tr;
      if e.TcpSent? {
        AttributedSend(kind, front, e.data);
      } else {
        OnlySendsFollowFrames(kind, front, e);
        AttributedAfter(kind, front, e);
      }
    }
  }

  lemma FreshIsAttributed(kind: Kind, tr: Trace)
    requires tr == [] || Resets(tr[|tr| - 1])
    ensures Attributed(kind, tr)
  {
  }

  lemma OnlySendsFollowFrames(kind: Kind, tr: Trace, e: Event)
    requires Lawful(tr) && Allowed(Watch(tr), e) && !e.TcpSent?
    ensures !Unanswered(kind, tr)
  {
    hide Watch, Lawful, WellFormed, Accepted, IsActivation;
    PhaseStory(tr);
  }

  /**
   * Counting decides: a reply of a kind that is not younger than frame `p` answers that frame exactly
   * when as many replies of its kind were heard before as frames before `p` earn one.
   */
  lemma CountingDecides(kind: Kind, tr: Trace, h: nat, p: int)
    requires Lawful(tr) && h < |Replies(tr)| && OfKind(kind, Replies(tr)[h])
    ensures |Sources(tr)| == |Replies(tr)| && 0 <= Sources(tr)[h] < |HandledFrames(tr)|
    ensures Sources(tr)[h] <= p ==>
              (Sources(tr)[h] == p <==> Earned(kind, tr, p) == Count(kind, Replies(tr)[..h]))
    ensures Earned(kind, tr, Sources(tr)[h] + 1) == Earned(kind, tr, Sources(tr)[h]) + 1
  {
    hide Replies, Sources, Earned, HandledFrames, Count, Lawful;
    RepliesAreAttributed(kind, tr);
    var q := Sources(tr)[h];
    assert Answers(kind, tr, Replies(tr)[..h], q);
    if q < p {
      EarnedGrows(kind, tr, q + 1, p);
    }
  }

  // -------------------------------------------------- replies are what the codec delivers

  /** The byte strings sent on the connection, since the last reset. */
  function SentStrings(tr: Trace): seq<Bytes> {
    if tr == [] || Resets(tr[|tr| - 1]) then []
    else SentStrings(tr[..|tr| - 1]) + (if tr[|tr| - 1].TcpSent? then [tr[|tr| - 1].data] else [])
  }

  predicate HeardAs(sends: seq<Bytes>, ms: seq<Message>) {
    |sends| == |ms| && forall i :: 0 <= i < |sends| ==> Heard(sends[i]) == Some(ms[i])
  }

  lemma {:induction false} EverySendIsHeard(tr: Trace)
    requires Lawful(tr)
    ensures HeardAs(SentStrings(tr), Replies(tr))
  {
    hide Heard, Watch, Allowed;
    if tr != [] && !Resets(tr[|tr| - 1]) {
      var (front, e) := (tr[..|tr| - 1], tr[|tr| - 1]);
      EverySendIsHeard(front);
      if e.TcpSent? {
        SendKind(Ack, front, e.data);
      }
    }
  }

  lemma {:induction false} HeardIsDelivered(sends: seq<Bytes>, ms: seq<Message>)
    requires HeardAs(sends, ms)
    ensures Codec.AllConsumable(sends) && Codec.DeliveredBy(sends) == ms
  {
    hide Codec.HeadOf;
    if sends != [] {
      assert Heard(sends[0]) == Some(ms[0]);
      HeardIsDelivered(sends[1..], ms[1..]);
      assert ms == [ms[0]] + ms[1..];
    }
  }

  /** However the first `k` sends of a connection are cut into chunks, the codec reads the first `k` replies from them. */
  lemma RepliesAreRead(tr: Trace, k: nat, chunks: seq<Bytes>)
    requires Lawful(tr) && k <= |SentStrings(tr)| && Joined(chunks) == Joined(SentStrings(tr)[..k])
    ensures k <= |Replies(tr)| && Codec.ReadChunks(chunks) == Codec.Reader(Replies(tr)[..k], [], None)
  {
    hide Heard, Codec.HeadOf, SentStrings, Replies, Joined, Lawful, Codec.ReadChunks;
    EverySendIsHeard(tr);
    var sends := SentStrings(tr)[..k];
    HeardIsDelivered(sends, Replies(tr)[..k]);
    Codec.EmptyNeedsMore();
    Codec.SegmentsDetermineParse(sends, []);
    assert Joined(sends) + [] == Joined(sends);
    Codec.ChunkedDecodeIsParse(chunks);
  }
}
