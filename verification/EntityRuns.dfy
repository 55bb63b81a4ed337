/**
 * Safety over whole runs of the entity: any sequence of starts, stops, datagrams, stream chunks and
 * disconnects, from power-up on.
 */
module EntityRuns {
  import opened Wire
  import opened Codes
  import opened Messages
  import opened RoundTrip
  import opened Framer
  import opened EntitySpec
  import opened EntityTrace

  // --------------------------------------------------- replies are well-formed frames

  /** A staged reply is one whole frame of the deployed version that the receiver's parser accepts. */
  lemma PrintedReplyIsWellFormed(t: PayloadType, p: Payload)
    requires EncodedSize(p) <= U32_MAX && CanonicalPayloadType(t)
    requires Carries(t, p) || t.DiagnosticMessageNegativeAcknowledge?
    ensures WellFormed(EncodeMessage(Message(NewHeader(V2012, t, EncodedSize(p)), p)).value)
  {
    hide TryFrame, PayloadBytes, EncodeMessage;
    var m := Message(NewHeader(V2012, t, EncodedSize(p)), p);
    PrintedMessageFrames(m, []);
    assert EncodeMessage(m).value + [] == EncodeMessage(m).value;
    PayloadTypeBack(t);
    if Carries(t, p) {
      hide DecodePayload;
      PayloadBack(t, p);
    }
  }

  lemma UdpReplyIsWellFormed(c: Config, tester: Option<u16>, data: Bytes)
    requires UdpReply(c, tester, data).Some?
    ensures var m := UdpReply(c, tester, data).value;
            StagedBytes(m).Some? && WellFormed(StagedBytes(m).value)
  {
    hide TryFrame, DecodePayload, PayloadBytes, WellFormed;
    var m := UdpReply(c, tester, data).value;
    assert m.header == NewHeader(V2012, m.header.payloadType, EncodedSize(m.payload));
    PrintedReplyIsWellFormed(m.header.payloadType, m.payload);
  }

  // ------------------------------------------------------------ every run is lawful

  /** Between inputs the monitor knows the entity's address and tester from the trace alone. */
  ghost predicate Faithful(st: State) {
    && Lawful(st.session.trace)
    && Watch(st.session.trace)
       == Monitor(if st.handler.Some? then Some(st.config.address) else None, st.session.tester, Quiet)
  }

  lemma UdpKeepsFaith(st: State, source: u32, port: u16, data: Bytes)
    requires Faithful(st)
    ensures Faithful(ReceiveUdp(st, source, port, data))
  {
    hide UdpReply, StagedBytes, WellFormed, ReplyTo;
    var reply := UdpReply(st.config, st.session.tester, data);
    if st.handler.Some? && reply.Some? {
      UdpReplyIsWellFormed(st.config, st.session.tester, data);
      Extend(st.session.trace, UdpSent(source, port, StagedBytes(reply.value).value));
    }
  }

  lemma TcpKeepsFaith(st: State, data: Bytes)
    requires Faithful(st)
    ensures Faithful(Apply(st, TcpRx(data)))
  {
    hide Process, SendNack, WellFormed, ReplyTo;
    var (st', verdict) := ReceiveTcp(st, data);
    if st.handler.Some? && data != [] {
      if Fits(st.rx, data) {
        ProcessInStep(st.session, st.config.address, st.handler.value, st.rx + data);
      } else {
        RefusalInStep(st.session, st.config.address, NackCode.OutOfMemory);
      }
    }
    Extend(st'.session.trace, Answered(verdict));
  }

  lemma ApplyKeepsFaith(st: State, input: Input)
    requires Faithful(st)
    ensures Faithful(Apply(st, input))
  {
    hide WellFormed, ReplyTo, ReceiveTcp, ReceiveUdp;
    match input
    case Init(config, _) => Extend(st.session.trace, Started(config.address));
    case Deinit => Extend(st.session.trace, Stopped);
    case TcpDisconnect => Extend(st.session.trace, Disconnected);
    case UdpRx(source, port, data) => UdpKeepsFaith(st, source, port, data);
    case TcpRx(data) => TcpKeepsFaith(st, data);
  }

  function TraceOf(inputs: seq<Input>): Trace {
    Run(NewEntity(), inputs).session.trace
  }

  /** Every run, whatever the platform feeds in and whatever its dispatch answers, is lawful. */
  lemma {:induction false} EveryRunIsLawful(inputs: seq<Input>)
    ensures Faithful(Run(NewEntity(), inputs))
  {
    hide Apply;
    if inputs != [] {
      EveryRunIsLawful(inputs[..|inputs| - 1]);
      ApplyKeepsFaith(Run(NewEntity(), inputs[..|inputs| - 1]), inputs[|inputs| - 1]);
    }
  }

  // -------------------------------------------------------- reading a lawful trace

  function OwnAt(tr: Trace, i: nat): Option<u16>
    requires i <= |tr|
  {
    Watch(tr[..i]).own
  }

  function ActiveAt(tr: Trace, i: nat): Option<u16>
    requires i <= |tr|
  {
    Watch(tr[..i]).active
  }

  function PhaseAt(tr: Trace, i: nat): Phase
    requires i <= |tr|
  {
    Watch(tr[..i]).phase
  }

  lemma {:induction false} LawfulAt(tr: Trace, i: nat)
    requires Lawful(tr) && i < |tr|
    ensures Allowed(Watch(tr[..i]), tr[i]) && Watch(tr[..i + 1]) == Advance(Watch(tr[..i]), tr[i])
  {
    hide Allowed, Advance;
    var front := tr[..|tr| - 1];
    assert tr[..i + 1][..i] == tr[..i];
    if i < |tr| - 1 {
      LawfulAt(front, i);
      assert front[..i] == tr[..i];
    } else {
      assert tr[..i] == front;
    }
  }

  /** Starts and stops decide which address the entity answers for. */
  predicate Addressing(e: Event) {
    e.Started? || e.Stopped?
  }

  /** Events that end a connection. */
  predicate Resets(e: Event) {
    e.Started? || e.Stopped? || e.Disconnected?
  }

  /** The address is that of the last start, with no stop since. */
  lemma {:induction false} OwnIsLastStart(tr: Trace) returns (k: nat)
    requires Watch(tr).own.Some?
    ensures k < |tr| && tr[k] == Started(Watch(tr).own.value)
    ensures forall l :: k < l < |tr| ==> !Addressing(tr[l])
  {
    hide ReplyTo, Accepted, Refused, Activates;
    var last := |tr| - 1;
    if Addressing(tr[last]) {
      k := last;
    } else {
      k := OwnIsLastStart(tr[..last]);
    }
  }

  /** A tester is active only because a success response to it went out on this very connection. */
  lemma {:induction false} ActiveWasActivated(tr: Trace) returns (j: nat)
    requires Lawful(tr) && Watch(tr).active.Some? && Watch(tr).own.Some?
    ensures j < |tr| && tr[j] == TcpSent(ActivationFrame(Watch(tr).own.value, Watch(tr).active.value, SUCCESS))
    ensures forall l :: j < l < |tr| ==> !Resets(tr[l])
    ensures 0x0E00 <= Watch(tr).active.value <= 0x0FFF
  {
    hide Accepted, Refused, WellFormed, ActivationFrame;
    var last := |tr| - 1;
    var front := tr[..last];
    var m := Watch(front);
    if tr[last].TcpSent? && m.phase.MustReply? {
      OnlySuccessActivates(m.own.value, m.active, m.phase.frame);
      if Activates(tr[last].data).Some? {
        j := last;
        return;
      }
    }
    j := ActiveWasActivated(front);
  }

  lemma StartIsQuiet(tr: Trace)
    ensures Watch(tr[..0]) == Monitor(None, None, Quiet)
  {
  }

  /** Nothing is owed when a run ends, so an obligation at `i` is met by the event at `i`. */
  lemma ObligationIsMet(tr: Trace, i: nat)
    requires Lawful(tr) && i <= |tr| && Watch(tr).phase.Quiet? && !PhaseAt(tr, i).Quiet?
    ensures i < |tr| && Allowed(Watch(tr[..i]), tr[i])
  {
    hide Allowed, Watch, Lawful;
    assert tr[..|tr|] == tr;
    if i < |tr| {
      LawfulAt(tr, i);
    }
  }

  /** A call is owed only right after the positive ack to an accepted diagnostic message. */
  lemma CallIsOwed(tr: Trace, i: nat)
    requires Lawful(tr) && i <= |tr| && PhaseAt(tr, i).MustCall?
    ensures 2 <= i && tr[i - 2].Framed? && OwnAt(tr, i - 2).Some?
    ensures var f := tr[i - 2].frame;
            Accepted(OwnAt(tr, i - 2).value, ActiveAt(tr, i - 2), f)
            && tr[i - 1] == TcpSent(ReplyTo(OwnAt(tr, i - 2).value, ActiveAt(tr, i - 2), f))
            && PhaseAt(tr, i) == MustCall(SourceOf(f), f.payload[4..])
  {
    hide ReplyTo, Accepted, Refused, WellFormed, Activates, Watch, Lawful;
    StartIsQuiet(tr);
    LawfulAt(tr, i - 1);
    LawfulAt(tr, i - 2);
  }

  // -------------------------------------------------------------- dispatch safety

  /**
   * Every UDS call of every run: the entity was started with some address and not stopped since; a
   * success activation response to some tester went out and the connection was not reset since; the
   * frame just handled came from that tester to that address and carried exactly this request; and
   * the event right before the call is the positive ack to that tester.
   */
  lemma DispatchIsAuthorised(inputs: seq<Input>, i: nat) returns (own: u16, tester: u16, k: nat, j: nat)
    requires i < |TraceOf(inputs)| && TraceOf(inputs)[i].UdsCalled?
    ensures 2 <= i && k < i && j < i
    ensures var tr := TraceOf(inputs);
            && tr[k] == Started(own) && (forall l :: k < l < i ==> !Addressing(tr[l]))
            && tr[j] == TcpSent(ActivationFrame(own, tester, SUCCESS)) && (forall l :: j < l < i ==> !Resets(tr[l]))
            && tr[i - 1] == TcpSent(PositiveAckFrame(own, tester))
            && tr[i - 2].Framed?
            && var f := tr[i - 2].frame;
               IsDiagnostic(f) && SourceOf(f) == tester && U16At(f.payload, 2) == own
               && f.payload[4..] == tr[i].request
  {
    hide WellFormed, Run, ActivationFrame, PositiveAckFrame, Watch, Lawful;
    var tr := TraceOf(inputs);
    EveryRunIsLawful(inputs);
    StartIsQuiet(tr);
    LawfulAt(tr, i);
    CallIsOwed(tr, i);
    PrefixIsLawful(tr, i - 2);
    var before := tr[..i - 2];
    own := Watch(before).own.value;
    tester := Watch(before).active.value;
    k := OwnIsLastStart(before);
    j := ActiveWasActivated(before);
  }

  lemma {:induction false} PrefixIsLawful(tr: Trace, i: nat)
    requires Lawful(tr) && i <= |tr|
    ensures Lawful(tr[..i])
  {
    hide Allowed, Watch;
    if i == |tr| {
      assert tr[..i] == tr;
    } else {
      PrefixIsLawful(tr[..|tr| - 1], i);
      assert tr[..|tr| - 1][..i] == tr[..i];
    }
  }

  predicate IsPositiveAck(d: Bytes) {
    |d| == 13 && d[2..4] == [0x80, 0x02]
  }

  lemma OnlyAcceptanceIsAcked(m: Monitor, d: Bytes)
    requires Allowed(m, TcpSent(d))
    ensures IsPositiveAck(d) <==> m.phase.MustReply? && Accepted(m.own.value, m.active, m.phase.frame)
  {
    hide WellFormed;
    if |d| == 13 {
      assert d[2..4] == [d[2], d[3]];
    }
  }

  /** Positive acks and UDS calls come in adjacent pairs: each ack is followed by its call, each call preceded by its ack. */
  lemma AcksAndCallsPair(inputs: seq<Input>, i: nat)
    requires i < |TraceOf(inputs)|
    ensures var tr := TraceOf(inputs);
            tr[i].TcpSent? && IsPositiveAck(tr[i].data) <==> i + 1 < |tr| && tr[i + 1].UdsCalled?
  {
    hide WellFormed, Run, IsPositiveAck, ReplyTo, Activates, Refused, Watch, Lawful;
    var tr := TraceOf(inputs);
    EveryRunIsLawful(inputs);
    StartIsQuiet(tr);
    LawfulAt(tr, i);
    if tr[i].TcpSent? {
      OnlyAcceptanceIsAcked(Watch(tr[..i]), tr[i].data);
      if IsPositiveAck(tr[i].data) {
        ObligationIsMet(tr, i + 1);
      }
    }
    if i + 1 < |tr| && tr[i + 1].UdsCalled? {
      LawfulAt(tr, i + 1);
      CallIsOwed(tr, i + 1);
    }
  }

  // ------------------------------------------------------------- reply accounting

  /**
   * Every complete frame is answered at once as the decision table says. An accepted diagnostic
   * message is then dispatched and, when the dispatch reports a length, answered a second time with
   * exactly the reported bytes; a refused frame is followed by the verdict to close.
   */
  lemma FramesAreAnswered(inputs: seq<Input>, i: nat)
    requires i < |TraceOf(inputs)| && TraceOf(inputs)[i].Framed?
    ensures var tr := TraceOf(inputs);
            var f := tr[i].frame;
            var own, active := OwnAt(tr, i), ActiveAt(tr, i);
            && own.Some?
            && i + 1 < |tr| && tr[i + 1] == TcpSent(ReplyTo(own.value, active, f))
            && (Refused(active, f) ==> i + 2 < |tr| && tr[i + 2] == Answered(Close))
            && (Accepted(own.value, active, f) ==>
                  && i + 2 < |tr| && tr[i + 2].UdsCalled? && tr[i + 2].request == f.payload[4..]
                  && (tr[i + 2].reply.returned > 0 ==>
                        i + 3 < |tr|
                        && tr[i + 3] == TcpSent(DiagnosticFrame(own.value, SourceOf(f), Reported(tr[i + 2].reply)))))
  {
    hide WellFormed, Run, ReplyTo, Activates, DiagnosticFrame, NackFrame, Watch, Lawful;
    var tr := TraceOf(inputs);
    EveryRunIsLawful(inputs);
    StartIsQuiet(tr);
    LawfulAt(tr, i);
    ObligationIsMet(tr, i + 1);
    LawfulAt(tr, i + 1);
    var f := tr[i].frame;
    var own, active := OwnAt(tr, i), ActiveAt(tr, i);
    if Accepted(own.value, active, f) || Refused(active, f) {
      ObligationIsMet(tr, i + 2);
      LawfulAt(tr, i + 2);
      if tr[i + 2].UdsCalled? && tr[i + 2].reply.returned > 0 {
        ObligationIsMet(tr, i + 3);
      }
    }
  }

  /** A nack that ends the connection without a frame having been handled. */
  predicate IsFramingRefusal(d: Bytes) {
    d == NackFrame(0x00) || d == NackFrame(0x02) || d == NackFrame(0x03)
  }

  /** Every send is the reply to the frame before it, the response of the call before it, or a framing refusal. */
  lemma SendsAreAccountedFor(inputs: seq<Input>, i: nat)
    requires i < |TraceOf(inputs)| && TraceOf(inputs)[i].TcpSent?
    ensures var tr := TraceOf(inputs);
            || (i >= 1 && tr[i - 1].Framed? && OwnAt(tr, i - 1).Some?
                && tr[i].data == ReplyTo(OwnAt(tr, i - 1).value, ActiveAt(tr, i - 1), tr[i - 1].frame))
            || (i >= 1 && tr[i - 1].UdsCalled? && tr[i - 1].reply.returned > 0)
            || (IsFramingRefusal(tr[i].data) && i + 1 < |tr| && tr[i + 1] == Answered(Close))
  {
    hide WellFormed, Run, ReplyTo, Activates, DiagnosticFrame, NackFrame, Watch, Lawful;
    var tr := TraceOf(inputs);
    EveryRunIsLawful(inputs);
    StartIsQuiet(tr);
    LawfulAt(tr, i);
    if PhaseAt(tr, i).Quiet? {
      ObligationIsMet(tr, i + 1);
    } else {
      LawfulAt(tr, i - 1);
    }
  }

  /** Whatever the entity hands to the platform for sending is one well-formed frame. */
  lemma RepliesAreWellFormed(inputs: seq<Input>, i: nat)
    requires i < |TraceOf(inputs)|
    ensures var e := TraceOf(inputs)[i];
            e.TcpSent? || e.UdpSent? ==> WellFormed(e.data)
  {
    hide WellFormed, Run, ReplyTo, Activates, DiagnosticFrame, Watch, Lawful;
    var tr := TraceOf(inputs);
    EveryRunIsLawful(inputs);
    StartIsQuiet(tr);
    LawfulAt(tr, i);
    var m := Watch(tr[..i]);
    if tr[i].TcpSent? {
      match m.phase
      case MustReply(f) => TableIsWellFormed(m.own.value, m.active, f);
      case MustRespond(tester, response) => ResponseIsWellFormed(m.own.value, tester, response);
      case Quiet =>
        NackIsWellFormed(0x00);
        NackIsWellFormed(0x02);
        NackIsWellFormed(0x03);
      case _ =>
    }
  }

  lemma NackIsWellFormed(code: u8)
    ensures WellFormed(NackFrame(code))
  {
    hide WellFormed, EncodeMessage, NackFrame;
    NackPrinted(NackCodeOf(code));
    PrintedReplyIsWellFormed(NegativeAcknowledge, DoIPNack(NackCodeOf(code)));
  }

  lemma ResponseIsWellFormed(own: u16, tester: u16, data: Bytes)
    requires |data| <= UDS_RESP_CAP
    ensures WellFormed(DiagnosticFrame(own, tester, data))
  {
    hide WellFormed, EncodeMessage, DiagnosticFrame;
    DiagnosticPrinted(own, tester, data);
    PrintedReplyIsWellFormed(PayloadType.DiagnosticMessage,
                             Payload.DiagnosticMessage(DiagnosticBody(own, tester, data)));
  }

  lemma TableIsWellFormed(own: u16, active: Option<u16>, f: RawFrame)
    ensures WellFormed(ReplyTo(own, active, f))
  {
    hide WellFormed, EncodeMessage, NackFrame, AckFrame, PositiveAckFrame, NegativeAckFrame, ActivationFrame;
    if IsActivation(f) {
      var code := ActivationCodeOf(ActivationVerdict(active, f));
      ActivationPrinted(own, SourceOf(f), code);
      PrintedReplyIsWellFormed(PayloadType.RoutingActivationResponse,
        Payload.RoutingActivationResponse(ActivationResponse(SourceOf(f), own, code, [0, 0, 0, 0], None)));
    } else if IsDiagnostic(f) {
      var positive := Accepted(own, active, f);
      var t := if positive then DiagnosticMessagePositiveAcknowledge else DiagnosticMessageNegativeAcknowledge;
      var tester := if active.Some? then active.value else SourceOf(f);
      var code := if positive then RoutingConfirmationAck
                  else if active == Some(SourceOf(f)) then UnknownTargetAddress else InvalidSourceAddress;
      AckPrinted(t, own, tester, code);
      AckFrames(own, tester, code.Byte());
      PrintedReplyIsWellFormed(t, DiagnosticMessageAck(AckBody(own, tester, code, [])));
    } else {
      NackIsWellFormed(0x01);
    }
  }

  // --------------------------------------------------------------- the tester slot

  /** In every reachable state the slot is empty or holds a tester address, and is what the wire last granted. */
  lemma SlotIsATesterAddress(inputs: seq<Input>)
    ensures var st := Run(NewEntity(), inputs);
            st.session.tester.Some? ==>
              st.handler.Some? && 0x0E00 <= st.session.tester.value <= 0x0FFF
  {
    hide Run, WellFormed, ReplyTo;
    EveryRunIsLawful(inputs);
    var st := Run(NewEntity(), inputs);
    if st.session.tester.Some? {
      StoppedHasNoTester(st.session.trace);
      var j := ActiveWasActivated(st.session.trace);
    }
  }

  lemma {:induction false} StoppedHasNoTester(tr: Trace)
    requires Lawful(tr)
    ensures Watch(tr).own.None? ==> Watch(tr).active.None?
  {
    hide WellFormed, ReplyTo, Activates, Accepted, Refused;
    if tr != [] {
      StoppedHasNoTester(tr[..|tr| - 1]);
    }
  }

  lemma {:induction false} ProcessKeepsTester(s: Session, own: u16, h: UdsHandler, buf: Bytes)
    requires s.tester.Some?
    ensures Process(s, own, h, buf).session.tester == s.tester
    decreases |buf|
  {
    hide HandleFrame, TryFrame, Oversize, SendNack;
    NackIsSent(s, MessageTooLarge);
    NackIsSent(s, IncorrectPatternFormat);
    match TryFrame(buf)
    case Ok(Some((f, n))) =>
      FrameKeepsTester(s, own, h, f);
      var (s', v) := HandleFrame(s, own, h, f);
      ProcessKeepsTester(s', own, h, buf[n..]);
    case _ =>
  }

  lemma FrameKeepsTester(s: Session, own: u16, h: UdsHandler, f: RawFrame)
    requires s.tester.Some?
    ensures HandleFrame(s, own, h, f).0.tester == s.tester
  {
    hide HandleFrame, ReplyTo, Dispatch, DiagnosticFrame;
    if IsActivation(f) {
      HandledActivation(s, own, h, f);
    } else if IsDiagnostic(f) {
      HandledDiagnostic(s, own, h, f);
      var replied := s.Log(Framed(f)).Log(TcpSent(ReplyTo(own, s.tester, f)));
      Dispatched(replied, own, h, SourceOf(f), f.payload[4..]);
    } else {
      HandledOther(s, own, h, f);
    }
  }

  /** Once taken, the slot changes only by a disconnect, a start or a stop. */
  lemma SlotIsSticky(st: State, input: Input)
    requires st.session.tester.Some? && (input.TcpRx? || input.UdpRx?)
    ensures Apply(st, input).session.tester == st.session.tester
  {
    hide Process, SendNack, UdpReply, StagedBytes;
    if input.TcpRx? && st.handler.Some? {
      ProcessKeepsTester(st.session, st.config.address, st.handler.value, st.rx + input.data);
      NackIsSent(st.session, NackCode.OutOfMemory);
    }
  }

  /** An activation request from any other address is denied and costs the connection, at any point of any run. */
  lemma SecondTesterIsDenied(inputs: seq<Input>, i: nat)
    requires i < |TraceOf(inputs)| && TraceOf(inputs)[i].Framed? && IsActivation(TraceOf(inputs)[i].frame)
    requires ActiveAt(TraceOf(inputs), i).Some?
    requires SourceOf(TraceOf(inputs)[i].frame) != ActiveAt(TraceOf(inputs), i).value
    ensures var tr := TraceOf(inputs);
            var source := SourceOf(tr[i].frame);
            && OwnAt(tr, i).Some? && i + 2 < |tr|
            && (exists code: u8 :: code in {0x00, 0x02, 0x06} && tr[i + 1] == TcpSent(ActivationFrame(OwnAt(tr, i).value, source, code)))
            && tr[i + 2] == Answered(Close)
            && ActiveAt(tr, i + 2) == ActiveAt(tr, i)
  {
    hide WellFormed, Run, ActivationFrame, Watch, Lawful;
    var tr := TraceOf(inputs);
    var f := tr[i].frame;
    EveryRunIsLawful(inputs);
    StartIsQuiet(tr);
    FramesAreAnswered(inputs, i);
    LawfulAt(tr, i);
    LawfulAt(tr, i + 1);
    OnlySuccessActivates(OwnAt(tr, i).value, ActiveAt(tr, i), f);
    var code := ActivationVerdict(ActiveAt(tr, i), f);
    assert code in {0x00, 0x02, 0x06};
  }

  // --------------------------------------------------------------------- datagrams

  /** The answer to a datagram, by its bytes: complement, type number, length field and body length decide. */
  function DatagramAnswer(c: Config, tester: Option<u16>, data: Bytes): Option<Bytes> {
    if |data| < 8 then None
    else if data[1] != 0xFF - data[0] then Some(NackFrame(0x00))
    else
      var (w, n) := (U16At(data, 2), U32At(data, 4));
      if |data| < 8 + n then None
      else if ShortestBody(w).None? || n < ShortestBody(w).value then Some(NackFrame(0x01))
      else if 0x0001 <= w <= 0x0003 then Some(AnnouncementFrame(c))
      else if w == 0x4001 then Some(StatusFrame(tester))
      else None
  }

  function AnnouncementFrame(c: Config): Bytes {
    [0x02, 0xFD, 0x00, 0x04, 0x00, 0x00, 0x00, 0x21]
    + (c.vin + (U16Bytes(c.address) + (c.eid + (c.gid + [0x00, 0x00]))))
  }

  function StatusFrame(tester: Option<u16>): Bytes {
    [0x02, 0xFD, 0x40, 0x02, 0x00, 0x00, 0x00, 0x07]
    + [0x01, 0x01, if tester.Some? then 0x01 else 0x00, 0x00, 0x00, 0x07, 0xF8]
  }

  lemma AnswerIsStaged(c: Config, tester: Option<u16>, data: Bytes)
    ensures var r := UdpReply(c, tester, data);
            (if r.Some? then StagedBytes(r.value) else None) == DatagramAnswer(c, tester, data)
  {
    hide StagedBytes, EncodeMessage, NackFrame, Announcement, StatusReport, AnnouncementFrame, StatusFrame,
      TryFrame, DecodePayload, ShortestBody, PayloadTypeOf;
    NackIsStaged(IncorrectPatternFormat);
    NackIsStaged(UnknownPayloadType);
    AnnouncementIsSent(c);
    StatusIsReported(tester);
    FramingByBytes(data);
    if StartsWithFrame(data) {
      AcceptedBodies(FirstFrame(data).payload, U16At(data, 2));
      RequestBodies(FirstFrame(data).payload, U16At(data, 2));
    } else if data == [] {
      EmptyNeedsMoreBytes();
    }
  }

  /** Every datagram to a running entity gets exactly that answer, back to where it came from; a stopped one is silent. */
  lemma DatagramReplies(st: State, source: u32, port: u16, data: Bytes)
    ensures var answer := DatagramAnswer(st.config, st.session.tester, data);
            Apply(st, UdpRx(source, port, data))
            == if st.handler.Some? && answer.Some? then st.Log(UdpSent(source, port, answer.value)) else st
  {
    hide UdpReply, StagedBytes, DatagramAnswer;
    AnswerIsStaged(st.config, st.session.tester, data);
  }

  lemma NackIsStaged(code: NackCode)
    ensures var m := FramedMessage(NegativeAcknowledge, DoIPNack(code));
            m.Some? && StagedBytes(m.value) == Some(NackFrame(code.Byte()))
  {
    hide EncodeMessage;
    NackPrinted(code);
  }

  lemma EmptyNeedsMoreBytes()
    ensures TryFrame([]) == Ok(None)
  {
  }

  lemma RequestBodies(p: Bytes, w: u16)
    ensures 0x0001 <= w <= 0x0003 <==> DecodePayload(p, PayloadTypeOf(w)) == Ok(Payload.VehicleIdentificationRequest)
    ensures w == 0x4001 <==> DecodePayload(p, PayloadTypeOf(w)) == Ok(Payload.EntityStatusRequest)
  {
  }

  /** What a tester reads out of the announcement: the configured identity, with an all-zero or all-ones group id absent. */
  lemma AnnouncementIsHeard(c: Config)
    ensures Announcement(c).Some?
    ensures DecodePayload(PayloadBytes(Announcement(c).value.payload), PayloadType.VehicleAnnouncement)
            == Ok(Payload.VehicleAnnouncement(
                 Identification(c.vin, c.address, c.eid,
                                if c.gid == ZEROS6 || c.gid == ONES6 then None else Some(c.gid),
                                NoFurtherAction, Synchronized)))
  {
    hide PayloadBytes, DecodePayload;
    PayloadBack(PayloadType.VehicleAnnouncement, Announcement(c).value.payload);
  }

  lemma AnnouncementHeader()
    ensures HeaderBytes(NewHeader(V2012, PayloadType.VehicleAnnouncement, 33))
            == [0x02, 0xFD, 0x00, 0x04, 0x00, 0x00, 0x00, 0x21]
  {
  }

  /** The announcement, byte by byte: the configured identity as it stands, no further action, synchronised. */
  lemma AnnouncementIsSent(c: Config)
    ensures Announcement(c).Some? && StagedBytes(Announcement(c).value) == Some(AnnouncementFrame(c))
  {
    hide HeaderBytes, U16Bytes;
    AnnouncementHeader();
    var x := Announcement(c).value.payload.identification;
    assert GroupIdField(x.groupId) == c.gid;
    assert [x.furtherAction.Byte()] + [x.syncStatus.Byte()] == [0x00, 0x00];
  }

  lemma StatusParts(open: u8)
    ensures HeaderBytes(NewHeader(V2012, PayloadType.EntityStatusResponse, 7))
            == [0x02, 0xFD, 0x40, 0x02, 0x00, 0x00, 0x00, 0x07]
    ensures EntityStatusBytes(EntityStatus(Node, 1, open, 2040)) == [0x01, 0x01, open, 0x00, 0x00, 0x07, 0xF8]
  {
  }

  /** The status report, byte by byte: a node with one socket, open exactly when the slot is taken, taking 2040 bytes. */
  lemma StatusIsReported(tester: Option<u16>)
    ensures StatusReport(tester).Some?
    ensures StagedBytes(StatusReport(tester).value)
            == Some(StatusFrame(tester))
  {
    hide HeaderBytes, EntityStatusBytes;
    StatusParts(if tester.Some? then 1 else 0);
  }
}
