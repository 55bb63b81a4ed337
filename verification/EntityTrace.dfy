/**
 * What every run of the entity looks like from outside. A monitor reads the platform's trace alone,
 * in raw bytes: from the last start and the last successful activation response on the wire it knows
 * the one event that may come next. Every reachable trace is accepted by it.
 */
module EntityTrace {
  import opened Wire
  import opened Codes
  import opened Messages
  import opened Framer
  import opened EntitySpec

  // ---------------------------------------------------------- replies, byte by byte

  const SUCCESS: u8 := 0x10

  function NackFrame(code: u8): Bytes {
    [0x02, 0xFD, 0x00, 0x00, 0x00, 0x00, 0x00, 0x01, code]
  }

  function ActivationFrame(own: u16, tester: u16, code: u8): Bytes {
    [0x02, 0xFD, 0x00, 0x06, 0x00, 0x00, 0x00, 0x09]
    + U16Bytes(tester) + U16Bytes(own) + [code, 0x00, 0x00, 0x00, 0x00]
  }

  function PositiveAckFrame(own: u16, tester: u16): Bytes {
    [0x02, 0xFD, 0x80, 0x02, 0x00, 0x00, 0x00, 0x05] + U16Bytes(own) + U16Bytes(tester) + [0x00]
  }

  function NegativeAckFrame(own: u16, tester: u16, code: u8): Bytes {
    [0x02, 0xFD, 0x80, 0x03, 0x00, 0x00, 0x00, 0x05] + U16Bytes(own) + U16Bytes(tester) + [code]
  }

  function DiagnosticFrame(own: u16, tester: u16, data: Bytes): Bytes
    requires |data| <= UDS_RESP_CAP
  {
    [0x02, 0xFD, 0x80, 0x01] + U32Bytes(4 + |data|) + U16Bytes(own) + U16Bytes(tester) + data
  }

  /** How much of the response buffer goes out: the reported length, at most 1024 bytes. */
  function ReportedLength(returned: i32): nat {
    if returned <= 0 then 0 else if returned < 1024 then returned else 1024
  }

  function Reported(reply: UdsReply): (r: Bytes)
    ensures |r| <= UDS_RESP_CAP
  {
    reply.buffer[..ReportedLength(reply.returned)]
  }

  lemma ResponseIsReported(reply: UdsReply)
    ensures reply.Response() == Reported(reply)
  {
  }

  // ---------------------------------------------------- the protocol's decision table

  predicate IsActivation(f: RawFrame) {
    f.header.payloadType.RoutingActivationRequest? && |f.payload| >= 7
  }

  predicate IsDiagnostic(f: RawFrame) {
    f.header.payloadType.DiagnosticMessage? && |f.payload| >= 4
  }

  function SourceOf(f: RawFrame): u16
    requires |f.payload| >= 2
  {
    U16At(f.payload, 0)
  }

  function ActivationVerdict(active: Option<u16>, f: RawFrame): u8
    requires IsActivation(f)
  {
    if !(0x0E00 <= SourceOf(f) <= 0x0FFF) then 0x00
    else if f.payload[2] > 0x01 then 0x06
    else if active.Some? && active.value != SourceOf(f) then 0x02
    else SUCCESS
  }

  /** A diagnostic message that is forwarded: from the active tester, to this entity. */
  predicate Accepted(own: u16, active: Option<u16>, f: RawFrame) {
    IsDiagnostic(f) && active == Some(SourceOf(f)) && U16At(f.payload, 2) == own
  }

  /** A frame that costs its sender the connection. */
  predicate Refused(active: Option<u16>, f: RawFrame) {
    || (IsActivation(f) && ActivationVerdict(active, f) != SUCCESS)
    || (IsDiagnostic(f) && active != Some(SourceOf(f)))
  }

  /** The first reply to a complete frame. */
  function ReplyTo(own: u16, active: Option<u16>, f: RawFrame): Bytes {
    if IsActivation(f) then ActivationFrame(own, SourceOf(f), ActivationVerdict(active, f))
    else if IsDiagnostic(f) then
      if active == None then NegativeAckFrame(own, SourceOf(f), 0x02)
      else if active.value != SourceOf(f) then NegativeAckFrame(own, active.value, 0x02)
      else if Accepted(own, active, f) then PositiveAckFrame(own, active.value)
      else NegativeAckFrame(own, active.value, 0x03)
    else NackFrame(0x01)
  }

  // ------------------------------------------------------------------- the monitor

  datatype Phase =
    | Quiet
    | MustReply(frame: RawFrame)
    | MustCall(tester: u16, request: Bytes)
    | MustRespond(tester: u16, response: Bytes)
    | MustClose

  datatype Monitor = Monitor(own: Option<u16>, active: Option<u16>, phase: Phase)

  /** A reply that is exactly one frame of the deployed version with a body its type accepts. */
  predicate WellFormed(d: Bytes) {
    IsFrame(d) && FirstFrame(d).header.version == V2012
    && DecodePayload(FirstFrame(d).payload, FirstFrame(d).header.payloadType).Ok?
  }

  predicate Allowed(m: Monitor, e: Event) {
    match e
    case Started(_) => m.phase.Quiet?
    case Stopped => m.phase.Quiet?
    case Disconnected => m.phase.Quiet?
    case Framed(_) => m.own.Some? && m.phase.Quiet?
    case UdpSent(_, _, d) => m.own.Some? && m.phase.Quiet? && WellFormed(d)
    case UdsCalled(request, _) => m.phase.MustCall? && request == m.phase.request
    case Answered(KeepOpen) => m.own.Some? && m.phase.Quiet?
    case Answered(Close) => m.phase == if m.own.Some? then MustClose else Quiet
    case TcpSent(d) =>
      m.own.Some? &&
      match m.phase
      case MustReply(f) => d == ReplyTo(m.own.value, m.active, f)
      case MustRespond(tester, response) =>
        |response| <= UDS_RESP_CAP && d == DiagnosticFrame(m.own.value, tester, response)
      case Quiet => d == NackFrame(0x00) || d == NackFrame(0x02) || d == NackFrame(0x03)
      case _ => false
  }

  /** The tester a sent frame activates, read off its bytes. */
  function Activates(d: Bytes): Option<u16> {
    if |d| == 17 && d[..4] == [0x02, 0xFD, 0x00, 0x06] && d[12] == SUCCESS then Some(U16At(d, 8)) else None
  }

  function Advance(m: Monitor, e: Event): Monitor {
    match e
    case Started(address) => Monitor(Some(address), None, Quiet)
    case Stopped => Monitor(None, None, Quiet)
    case Disconnected => Monitor(m.own, None, Quiet)
    case Framed(f) => m.(phase := MustReply(f))
    case UdpSent(_, _, _) => m
    case UdsCalled(_, reply) =>
      m.(phase := if m.phase.MustCall? && reply.returned > 0
                  then MustRespond(m.phase.tester, Reported(reply)) else Quiet)
    case Answered(_) => m.(phase := Quiet)
    case TcpSent(d) =>
      match m.phase
      case MustReply(f) =>
        var active := if Activates(d).Some? then Activates(d) else m.active;
        var phase :=
          if m.own.Some? && Accepted(m.own.value, m.active, f) then MustCall(SourceOf(f), f.payload[4..])
          else if Refused(m.active, f) then MustClose
          else Quiet;
        Monitor(m.own, active, phase)
      case MustRespond(_, _) => m.(phase := Quiet)
      case _ => m.(phase := MustClose)
  }

  function Watch(tr: Trace): Monitor {
    if tr == [] then Monitor(None, None, Quiet)
    else Advance(Watch(tr[..|tr| - 1]), tr[|tr| - 1])
  }

  predicate Lawful(tr: Trace) {
    tr != [] ==> Lawful(tr[..|tr| - 1]) && Allowed(Watch(tr[..|tr| - 1]), tr[|tr| - 1])
  }

  lemma Extend(tr: Trace, e: Event)
    ensures Watch(tr + [e]) == Advance(Watch(tr), e)
    ensures Lawful(tr + [e]) <==> Lawful(tr) && Allowed(Watch(tr), e)
  {
    assert (tr + [e])[..|tr|] == tr;
  }

  // --------------------------------------- what is sent is what the table says, always

  lemma NackPrinted(code: NackCode)
    ensures var m := Message(NewHeader(V2012, NegativeAcknowledge, 1), DoIPNack(code));
            FramedMessage(NegativeAcknowledge, DoIPNack(code)) == Some(m)
            && EncodeMessage(m) == Ok(NackFrame(code.Byte()))
  {
    var h := NewHeader(V2012, NegativeAcknowledge, 1);
    assert HeaderBytes(h) == [0x02, 0xFD, 0x00, 0x00, 0x00, 0x00, 0x00, 0x01];
    assert HeaderBytes(h) + PayloadBytes(DoIPNack(code)) == NackFrame(code.Byte());
  }

  /** An ack body under any header type. */
  function AckFrame(t: PayloadType, own: u16, tester: u16, code: u8): Bytes {
    [0x02, 0xFD] + U16Bytes(PayloadTypeWord(t)) + [0x00, 0x00, 0x00, 0x05] + U16Bytes(own) + U16Bytes(tester) + [code]
  }

  lemma AckPrinted(t: PayloadType, own: u16, tester: u16, code: DiagnosticAckCode)
    ensures var p := DiagnosticMessageAck(AckBody(own, tester, code, []));
            var m := Message(NewHeader(V2012, t, 5), p);
            FramedMessage(t, p) == Some(m) && EncodeMessage(m) == Ok(AckFrame(t, own, tester, code.Byte()))
  {
    hide PayloadTypeWord;
    var p := DiagnosticMessageAck(AckBody(own, tester, code, []));
    var h := NewHeader(V2012, t, 5);
    assert HeaderBytes(h) == [0x02, 0xFD] + U16Bytes(PayloadTypeWord(t)) + [0x00, 0x00, 0x00, 0x05];
    assert HeaderBytes(h) + PayloadBytes(p) == HeaderBytes(h) + U16Bytes(own) + U16Bytes(tester) + [code.Byte()];
  }

  lemma AckFrames(own: u16, tester: u16, code: u8)
    ensures AckFrame(DiagnosticMessagePositiveAcknowledge, own, tester, 0x00) == PositiveAckFrame(own, tester)
    ensures AckFrame(DiagnosticMessageNegativeAcknowledge, own, tester, code) == NegativeAckFrame(own, tester, code)
  {
    hide U16Bytes;
    assert U16Bytes(0x8002) == [0x80, 0x02] && U16Bytes(0x8003) == [0x80, 0x03] by { AckWords(); }
  }

  lemma AckWords()
    ensures U16Bytes(0x8002) == [0x80, 0x02] && U16Bytes(0x8003) == [0x80, 0x03]
  {
  }

  lemma ActivationBodyPrinted(own: u16, tester: u16, code: ActivationCode)
    ensures ActivationResponseBytes(ActivationResponse(tester, own, code, [0, 0, 0, 0], None))
            == U16Bytes(tester) + U16Bytes(own) + [code.Byte(), 0x00, 0x00, 0x00, 0x00]
  {
  }

  lemma ActivationHeaderPrinted()
    ensures HeaderBytes(NewHeader(V2012, PayloadType.RoutingActivationResponse, 9))
            == [0x02, 0xFD, 0x00, 0x06, 0x00, 0x00, 0x00, 0x09]
  {
  }

  lemma ActivationPrinted(own: u16, tester: u16, code: ActivationCode)
    ensures EncodeMessage(ActivationResponseMessage(V2012, tester, own, code, [0, 0, 0, 0], None))
            == Ok(ActivationFrame(own, tester, code.Byte()))
  {
    hide ActivationResponseBytes, HeaderBytes, U16Bytes;
    ActivationBodyPrinted(own, tester, code);
    ActivationHeaderPrinted();
    var head := [0x02, 0xFD, 0x00, 0x06, 0x00, 0x00, 0x00, 0x09];
    var tail := [code.Byte(), 0x00, 0x00, 0x00, 0x00];
    assert head + (U16Bytes(tester) + U16Bytes(own) + tail) == ActivationFrame(own, tester, code.Byte());
  }

  lemma DiagnosticPrinted(own: u16, tester: u16, data: Bytes)
    requires |data| <= UDS_RESP_CAP
    ensures EncodeMessage(DiagnosticMessageOf(V2012, own, tester, data)) == Ok(DiagnosticFrame(own, tester, data))
  {
    var m := DiagnosticMessageOf(V2012, own, tester, data);
    var h := m.DerivedHeader();
    assert HeaderBytes(h) == [0x02, 0xFD, 0x80, 0x01] + U32Bytes(4 + |data|);
    assert HeaderBytes(h) + PayloadBytes(m.payload) == DiagnosticFrame(own, tester, data);
  }

  lemma NackIsSent(s: Session, code: NackCode)
    ensures SendNack(s, code) == s.Log(TcpSent(NackFrame(code.Byte())))
  {
    hide EncodeMessage;
    NackPrinted(code);
  }

  lemma AckIsSent(s: Session, own: u16, t: PayloadType, tester: u16, code: DiagnosticAckCode)
    ensures SendAck(s, own, t, tester, code) == s.Log(TcpSent(AckFrame(t, own, tester, code.Byte())))
  {
    hide EncodeMessage;
    AckPrinted(t, own, tester, code);
  }

  lemma ActivationIsSent(s: Session, own: u16, tester: u16, code: ActivationCode)
    ensures SendTcp(s, ActivationResponseMessage(V2012, tester, own, code, [0, 0, 0, 0], None))
            == s.Log(TcpSent(ActivationFrame(own, tester, code.Byte())))
  {
    hide EncodeMessage, ActivationResponseMessage;
    ActivationPrinted(own, tester, code);
  }

  lemma DiagnosticIsSent(s: Session, own: u16, tester: u16, data: Bytes)
    requires |data| <= UDS_RESP_CAP
    ensures SendTcp(s, DiagnosticMessageOf(V2012, own, tester, data))
            == s.Log(TcpSent(DiagnosticFrame(own, tester, data)))
  {
    hide EncodeMessage, DiagnosticMessageOf;
    DiagnosticPrinted(own, tester, data);
  }

  // ------------------------------------------------------- the session stays in step

  /** The trace is lawful, and the monitor's view of it is the session's own state. */
  ghost predicate InStep(s: Session, own: u16, phase: Phase) {
    Lawful(s.trace) && Watch(s.trace) == Monitor(Some(own), s.tester, phase)
  }

  lemma ActivationBody(p: Bytes)
    ensures DecodePayload(p, PayloadType.RoutingActivationRequest).Ok? <==> |p| >= 7
    ensures |p| >= 7 ==>
              var r := DecodePayload(p, PayloadType.RoutingActivationRequest).value;
              r.RoutingActivationRequest? && r.request.source == U16At(p, 0)
              && (r.request.activationType.Default? || r.request.activationType.RegulationRequired? <==> p[2] <= 0x01)
  {
  }

  lemma DiagnosticBodyOf(p: Bytes)
    ensures DecodePayload(p, PayloadType.DiagnosticMessage).Ok? <==> |p| >= 4
    ensures |p| >= 4 ==>
              DecodePayload(p, PayloadType.DiagnosticMessage)
              == Ok(Payload.DiagnosticMessage(DiagnosticBody(U16At(p, 0), U16At(p, 2), p[4..])))
  {
  }

  lemma OtherBody(p: Bytes, t: PayloadType)
    requires !t.RoutingActivationRequest? && !t.DiagnosticMessage?
    ensures var r := DecodePayload(p, t);
            r.Ok? ==> !r.value.RoutingActivationRequest? && !r.value.DiagnosticMessage?
  {
  }

  lemma OnlySuccessActivates(own: u16, active: Option<u16>, f: RawFrame)
    ensures Activates(ReplyTo(own, active, f))
            == if IsActivation(f) && ActivationVerdict(active, f) == SUCCESS then Some(SourceOf(f)) else None
  {
    var d := ReplyTo(own, active, f);
    if IsActivation(f) {
      assert d[..4] == [0x02, 0xFD, 0x00, 0x06];
      assert d[12] == ActivationVerdict(active, f);
    } else {
      assert |d| != 17;
    }
  }

  /** The first reply to a frame moves the monitor on as the decision table says. */
  lemma ReplyInStep(s: Session, own: u16, f: RawFrame, tester: Option<u16>)
    requires InStep(s, own, Quiet)
    requires tester == if IsActivation(f) && ActivationVerdict(s.tester, f) == SUCCESS
                       then Some(SourceOf(f)) else s.tester
    ensures var s' := s.Log(Framed(f)).(tester := tester).Log(TcpSent(ReplyTo(own, s.tester, f)));
            InStep(s', own, if Accepted(own, s.tester, f) then MustCall(SourceOf(f), f.payload[4..])
                            else if Refused(s.tester, f) then MustClose else Quiet)
  {
    hide ReplyTo, Activates, Accepted, Refused;
    Extend(s.trace, Framed(f));
    Extend(s.trace + [Framed(f)], TcpSent(ReplyTo(own, s.tester, f)));
    OnlySuccessActivates(own, s.tester, f);
  }

  /** A dispatch is one call, then one response frame when the reported length is positive. */
  lemma Dispatched(s: Session, own: u16, h: UdsHandler, tester: u16, request: Bytes)
    ensures var reply := h(s.trace, request, s.uds);
            var called := s.(uds := reply.buffer).Log(UdsCalled(request, reply));
            Dispatch(s, own, h, tester, request)
            == if reply.returned > 0 then called.Log(TcpSent(DiagnosticFrame(own, tester, Reported(reply)))) else called
  {
    hide SendTcp, DiagnosticFrame;
    var reply := h(s.trace, request, s.uds);
    ResponseIsReported(reply);
    DiagnosticIsSent(s.(uds := reply.buffer).Log(UdsCalled(request, reply)), own, tester, reply.Response());
  }

  lemma DispatchInStep(s: Session, own: u16, h: UdsHandler, tester: u16, request: Bytes)
    requires InStep(s, own, MustCall(tester, request))
    ensures var s' := Dispatch(s, own, h, tester, request);
            InStep(s', own, Quiet) && s'.tester == s.tester
  {
    hide Dispatch, DiagnosticFrame, ReplyTo, WellFormed, NackFrame, Activates, Accepted, Refused;
    var reply := h(s.trace, request, s.uds);
    var called := s.(uds := reply.buffer).Log(UdsCalled(request, reply));
    Dispatched(s, own, h, tester, request);
    Extend(s.trace, UdsCalled(request, reply));
    if reply.returned > 0 {
      Extend(called.trace, TcpSent(DiagnosticFrame(own, tester, Reported(reply))));
    }
  }

  lemma HandledActivation(s: Session, own: u16, h: UdsHandler, f: RawFrame)
    requires IsActivation(f)
    ensures var (s', v) := HandleFrame(s, own, h, f);
            var granted := ActivationVerdict(s.tester, f) == SUCCESS;
            && s' == s.Log(Framed(f)).(tester := if granted then Some(SourceOf(f)) else s.tester)
                      .Log(TcpSent(ReplyTo(own, s.tester, f)))
            && (v.Close? <==> !granted)
  {
    hide DecodePayload, SendTcp, ActivationFrame, ActivationResponseMessage;
    ActivationBody(f.payload);
    var r := DecodePayload(f.payload, PayloadType.RoutingActivationRequest).value.request;
    var granted := ActivationVerdict(s.tester, f) == SUCCESS;
    var s1 := s.Log(Framed(f)).(tester := if granted then Some(SourceOf(f)) else s.tester);
    var code :=
      if !IsValidClientAddress(r.source) then DeniedUnknownSourceAddress
      else if f.payload[2] > 0x01 then DeniedUnsupportedRoutingActivationType
      else if s.tester.Some? && s.tester.value != r.source then DeniedSourceAddressAlreadyActivated
      else RoutingSuccessfullyActivated;
    ActivationIsSent(s1, own, r.source, code);
  }

  lemma HandledDiagnostic(s: Session, own: u16, h: UdsHandler, f: RawFrame)
    requires IsDiagnostic(f)
    ensures var (s', v) := HandleFrame(s, own, h, f);
            var replied := s.Log(Framed(f)).Log(TcpSent(ReplyTo(own, s.tester, f)));
            && s' == (if Accepted(own, s.tester, f)
                      then Dispatch(replied, own, h, SourceOf(f), f.payload[4..]) else replied)
            && (v.Close? <==> Refused(s.tester, f))
  {
    hide DecodePayload, SendAck, Dispatch, AckFrame, PositiveAckFrame, NegativeAckFrame;
    DiagnosticBodyOf(f.payload);
    var s1 := s.Log(Framed(f));
    var source := SourceOf(f);
    var tester := if s.tester.Some? then s.tester.value else source;
    AckIsSent(s1, own, DiagnosticMessageNegativeAcknowledge, tester, InvalidSourceAddress);
    AckIsSent(s1, own, DiagnosticMessageNegativeAcknowledge, tester, UnknownTargetAddress);
    AckIsSent(s1, own, DiagnosticMessagePositiveAcknowledge, tester, RoutingConfirmationAck);
    AckFrames(own, tester, 0x02);
    AckFrames(own, tester, 0x03);
  }

  lemma HandledOther(s: Session, own: u16, h: UdsHandler, f: RawFrame)
    requires !IsActivation(f) && !IsDiagnostic(f)
    ensures HandleFrame(s, own, h, f) == (s.Log(Framed(f)).Log(TcpSent(ReplyTo(own, s.tester, f))), KeepOpen)
  {
    hide DecodePayload, SendNack;
    ActivationBody(f.payload);
    DiagnosticBodyOf(f.payload);
    if !f.header.payloadType.RoutingActivationRequest? && !f.header.payloadType.DiagnosticMessage? {
      OtherBody(f.payload, f.header.payloadType);
    }
    NackIsSent(s.Log(Framed(f)), UnknownPayloadType);
  }

  lemma FrameInStep(s: Session, own: u16, h: UdsHandler, f: RawFrame)
    requires InStep(s, own, Quiet)
    ensures var (s', v) := HandleFrame(s, own, h, f);
            InStep(s', own, if v.Close? then MustClose else Quiet)
  {
    hide HandleFrame, ReplyTo, InStep, ActivationVerdict, Dispatch;
    if IsActivation(f) {
      HandledActivation(s, own, h, f);
      ReplyInStep(s, own, f, if ActivationVerdict(s.tester, f) == SUCCESS then Some(SourceOf(f)) else s.tester);
    } else if IsDiagnostic(f) {
      HandledDiagnostic(s, own, h, f);
      ReplyInStep(s, own, f, s.tester);
      if Accepted(own, s.tester, f) {
        var replied := s.Log(Framed(f)).Log(TcpSent(ReplyTo(own, s.tester, f)));
        DispatchInStep(replied, own, h, SourceOf(f), f.payload[4..]);
      }
    } else {
      HandledOther(s, own, h, f);
      ReplyInStep(s, own, f, s.tester);
    }
  }

  lemma RefusalInStep(s: Session, own: u16, code: NackCode)
    requires InStep(s, own, Quiet)
    requires code.IncorrectPatternFormat? || code.MessageTooLarge? || code.OutOfMemory?
    ensures InStep(SendNack(s, code), own, MustClose) && SendNack(s, code).tester == s.tester
  {
    NackIsSent(s, code);
    Extend(s.trace, TcpSent(NackFrame(code.Byte())));
  }

  lemma {:induction false} ProcessInStep(s: Session, own: u16, h: UdsHandler, buf: Bytes)
    requires InStep(s, own, Quiet)
    ensures var o := Process(s, own, h, buf);
            InStep(o.session, own, if o.verdict.Close? then MustClose else Quiet)
    decreases |buf|
  {
    hide InStep, HandleFrame, TryFrame, SendNack, Oversize;
    RefusalInStep(s, own, MessageTooLarge);
    RefusalInStep(s, own, IncorrectPatternFormat);
    match TryFrame(buf)
    case Ok(Some((frame, n))) =>
      FrameInStep(s, own, h, frame);
      var (s', v) := HandleFrame(s, own, h, frame);
      if !v.Close? {
        ProcessInStep(s', own, h, buf[n..]);
      }
    case _ =>
  }
}
