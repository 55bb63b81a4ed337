/**
 * The bare-metal entity on values: what each input does to the session, with every effect on the
 * platform recorded in a trace. The reassembly buffer is unbounded here except where an input is
 * refused for not fitting; the class that owns real buffers is proved against these functions.
 */
module EntitySpec {
  import opened Wire
  import opened Codes
  import opened Messages
  import opened Framer

  const UDS_RESP_CAP: nat := 1024
  const TCP_RX_CAP: nat := 2048
  const MAX_RX_PAYLOAD: nat := TCP_RX_CAP - HEADER_SIZE
  const TX_CAP: nat := HEADER_SIZE + 4 + UDS_RESP_CAP

  datatype Verdict = KeepOpen | Close

  /** Everything the platform can observe, in order. */
  datatype Event =
    | Started(address: u16)
    | Stopped
    | Disconnected
    | Framed(frame: RawFrame)
    | TcpSent(data: Bytes)
    | UdpSent(address32: u32, port: u16, data: Bytes)
    | UdsCalled(request: Bytes, reply: UdsReply)
    | Answered(verdict: Verdict)

  type Trace = seq<Event>

  type UdsBuffer = s: Bytes | |s| == UDS_RESP_CAP witness seq(UDS_RESP_CAP, i => 0)

  datatype UdsReply = UdsReply(buffer: UdsBuffer, returned: i32) {

    /** The part of the buffer that is sent: the reported length, cut to the buffer; nothing if not positive. */
    function Response(): (r: Bytes)
      ensures |r| <= UDS_RESP_CAP
    {
      if returned <= 0 then [] else if returned < UDS_RESP_CAP then buffer[..returned] else buffer
    }
  }

  /**
   * The platform's UDS dispatch: any function of all that happened so far, the request, and the
   * response buffer as it was left; it leaves any buffer contents and returns any 32-bit value.
   */
  type UdsHandler = (Trace, Bytes, UdsBuffer) -> UdsReply

  datatype Config = Config(vin: Bytes17, eid: Bytes6, gid: Bytes6, address: u16)

  /** The part of the entity the TCP handlers work on. */
  datatype Session = Session(tester: Option<u16>, uds: UdsBuffer, trace: Trace) {
    function Log(e: Event): Session {
      this.(trace := trace + [e])
    }
  }

  // --------------------------------------------------------------------- sending

  /** `None` only for a payload too large to size. */
  function FramedMessage(t: PayloadType, p: Payload): Option<Message> {
    if EncodedSize(p) > U32_MAX then None else Some(Message(NewHeader(V2012, t, EncodedSize(p)), p))
  }

  /** Encoding into the transmit buffer fails silently when the message does not fit. */
  function StagedBytes(m: Message): Option<Bytes> {
    match EncodeMessage(m)
    case Ok(bytes) => if |bytes| <= TX_CAP then Some(bytes) else None
    case Err(_) => None
  }

  function SendTcp(s: Session, m: Message): Session {
    match StagedBytes(m)
    case Some(bytes) => s.Log(TcpSent(bytes))
    case None => s
  }

  function SendFramed(s: Session, t: PayloadType, p: Payload): Session {
    match FramedMessage(t, p)
    case Some(m) => SendTcp(s, m)
    case None => s
  }

  function SendNack(s: Session, code: NackCode): Session {
    SendFramed(s, NegativeAcknowledge, DoIPNack(code))
  }

  function SendAck(s: Session, own: u16, t: PayloadType, tester: u16, code: DiagnosticAckCode): Session {
    SendFramed(s, t, DiagnosticMessageAck(AckBody(own, tester, code, [])))
  }

  // ------------------------------------------------------------- handling a frame

  function HandleActivation(s: Session, own: u16, req: ActivationRequest): (Session, Verdict) {
    var (code, tester, verdict) :=
      if !IsValidClientAddress(req.source) then (DeniedUnknownSourceAddress, s.tester, Close)
      else if !(req.activationType.Default? || req.activationType.RegulationRequired?) then
        (DeniedUnsupportedRoutingActivationType, s.tester, Close)
      else if s.tester.Some? && s.tester.value != req.source then
        (DeniedSourceAddressAlreadyActivated, s.tester, Close)
      else (RoutingSuccessfullyActivated, Some(req.source), KeepOpen);
    (SendTcp(s.(tester := tester), ActivationResponseMessage(V2012, req.source, own, code, [0, 0, 0, 0], None)),
     verdict)
  }

  function Dispatch(s: Session, own: u16, h: UdsHandler, tester: u16, request: Bytes): Session {
    var reply := h(s.trace, request, s.uds);
    var called := s.(uds := reply.buffer).Log(UdsCalled(request, reply));
    if reply.returned > 0 then SendTcp(called, DiagnosticMessageOf(V2012, own, tester, reply.Response())) else called
  }

  function HandleDiagnostic(s: Session, own: u16, h: UdsHandler, dm: DiagnosticBody): (Session, Verdict) {
    match s.tester
    case None =>
      (SendAck(s, own, DiagnosticMessageNegativeAcknowledge, dm.source, InvalidSourceAddress), Close)
    case Some(tester) =>
      if dm.source != tester then
        (SendAck(s, own, DiagnosticMessageNegativeAcknowledge, tester, InvalidSourceAddress), Close)
      else if dm.target != own then
        (SendAck(s, own, DiagnosticMessageNegativeAcknowledge, tester, UnknownTargetAddress), KeepOpen)
      else
        var acked := SendAck(s, own, DiagnosticMessagePositiveAcknowledge, tester, RoutingConfirmationAck);
        (Dispatch(acked, own, h, tester, dm.userData), KeepOpen)
  }

  function HandleFrame(s0: Session, own: u16, h: UdsHandler, frame: RawFrame): (Session, Verdict) {
    var s := s0.Log(Framed(frame));
    match DecodePayload(frame.payload, frame.header.payloadType)
    case Ok(RoutingActivationRequest(req)) => HandleActivation(s, own, req)
    case Ok(DiagnosticMessage(dm)) => HandleDiagnostic(s, own, h, dm)
    case _ => (SendNack(s, UnknownPayloadType), KeepOpen)
  }

  // ----------------------------------------------------------- handling the stream

  datatype Outcome = Outcome(session: Session, rest: Bytes, verdict: Verdict)

  /** A header that announces more than the reassembly buffer could ever hold. */
  predicate Oversize(buf: Bytes) {
    |buf| >= HEADER_SIZE
    && DecodeHeader(buf[..HEADER_SIZE]).Ok?
    && DecodeHeader(buf[..HEADER_SIZE]).value.0.length > MAX_RX_PAYLOAD
  }

  /** Work through a byte stream frame by frame until it runs dry or the connection is given up. */
  function Process(s: Session, own: u16, h: UdsHandler, buf: Bytes): Outcome
    decreases |buf|
  {
    if Oversize(buf) then Outcome(SendNack(s, MessageTooLarge), buf, Close)
    else
      match TryFrame(buf)
      case Err(_) => Outcome(SendNack(s, IncorrectPatternFormat), buf, Close)
      case Ok(None) => Outcome(s, buf, KeepOpen)
      case Ok(Some((frame, n))) =>
        var (s', verdict) := HandleFrame(s, own, h, frame);
        if verdict.Close? then Outcome(s', buf, Close) else Process(s', own, h, buf[n..])
  }

  // -------------------------------------------------------------------- the entity

  datatype State = State(config: Config, handler: Option<UdsHandler>, rx: Bytes, session: Session) {
    function Log(e: Event): State {
      this.(session := session.Log(e))
    }

    /** Drop the connection's state. */
    function Reset(): State {
      this.(rx := [], session := session.(tester := None))
    }
  }

  const NO_CONFIG: Config := Config(seq(17, i => 0), ZEROS6, ZEROS6, 0)

  function NewEntity(): State {
    State(NO_CONFIG, None, [], Session(None, seq(UDS_RESP_CAP, i => 0), []))
  }

  datatype Input =
    | Init(config: Config, handler: UdsHandler)
    | Deinit
    | UdpRx(source: u32, port: u16, data: Bytes)
    | TcpRx(data: Bytes)
    | TcpDisconnect

  function Announcement(c: Config): Option<Message> {
    FramedMessage(PayloadType.VehicleAnnouncement, Payload.VehicleAnnouncement(
      Identification(c.vin, c.address, c.eid, if c.gid == ZEROS6 then None else Some(c.gid),
                     NoFurtherAction, Synchronized)))
  }

  function StatusReport(tester: Option<u16>): Option<Message> {
    FramedMessage(PayloadType.EntityStatusResponse, Payload.EntityStatusResponse(
      EntityStatus(Node, 1, if tester.Some? then 1 else 0, MAX_RX_PAYLOAD)))
  }

  /** The answer to one datagram, if it gets one. */
  function UdpReply(c: Config, tester: Option<u16>, data: Bytes): Option<Message> {
    if data == [] then None
    else
      match TryFrame(data)
      case Ok(None) => None
      case Err(_) => FramedMessage(NegativeAcknowledge, DoIPNack(IncorrectPatternFormat))
      case Ok(Some((frame, _))) =>
        match DecodePayload(frame.payload, frame.header.payloadType)
        case Ok(VehicleIdentificationRequest) => Announcement(c)
        case Ok(EntityStatusRequest) => StatusReport(tester)
        case Ok(_) => None
        case Err(_) => FramedMessage(NegativeAcknowledge, DoIPNack(UnknownPayloadType))
  }

  function ReceiveUdp(st: State, source: u32, port: u16, data: Bytes): State {
    if st.handler.None? then st
    else
      match UdpReply(st.config, st.session.tester, data)
      case None => st
      case Some(m) =>
        match StagedBytes(m)
        case Some(bytes) => st.Log(UdpSent(source, port, bytes))
        case None => st
  }

  predicate Fits(rx: Bytes, data: Bytes) {
    |rx| + |data| <= TCP_RX_CAP
  }

  /** One chunk of the TCP stream, and the verdict handed back to the platform. */
  function ReceiveTcp(st: State, data: Bytes): (State, Verdict) {
    if st.handler.None? then (st, Close)
    else if data == [] then (st, KeepOpen)
    else if !Fits(st.rx, data) then (st.(session := SendNack(st.session, NackCode.OutOfMemory)), Close)
    else
      var o := Process(st.session, st.config.address, st.handler.value, st.rx + data);
      (st.(rx := o.rest, session := o.session), o.verdict)
  }

  function Apply(st: State, input: Input): State {
    match input
    case Init(config, handler) => st.(config := config, handler := Some(handler)).Reset().Log(Started(config.address))
    case Deinit => st.(handler := None).Reset().Log(Stopped)
    case UdpRx(source, port, data) => ReceiveUdp(st, source, port, data)
    case TcpRx(data) => var (st', verdict) := ReceiveTcp(st, data); st'.Log(Answered(verdict))
    case TcpDisconnect => st.Reset().Log(Disconnected)
  }

  /** A whole run. */
  function Run(st: State, inputs: seq<Input>): State {
    if inputs == [] then st else Apply(Run(st, inputs[..|inputs| - 1]), inputs[|inputs| - 1])
  }
}
