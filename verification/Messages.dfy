/**
 * The message set: the 8-byte generic header, the fourteen payload variants with their parsers,
 * printed forms and closed-form sizes, and the constructors the two endpoints use.
 */
module Messages {
  import opened Wire
  import opened Codes

  // ---------------------------------------------------------------------- header

  const HEADER_SIZE: nat := 8

  datatype Header = Header(version: ProtocolVersion, inverse: u8, payloadType: PayloadType, length: u32)

  function NewHeader(version: ProtocolVersion, payloadType: PayloadType, length: u32): Header {
    Header(version, version.Inverse(), payloadType, length)
  }

  function HeaderBytes(h: Header): (r: Bytes)
    ensures |r| == HEADER_SIZE
  {
    [h.version.Byte()] + ([h.inverse] + (U16Bytes(PayloadTypeWord(h.payloadType)) + U32Bytes(h.length)))
  }

  function DecodeHeader(buf: Bytes): (r: Result<(Header, Bytes)>)
    ensures r.Ok? ==> |r.value.1| == |buf| - HEADER_SIZE
  {
    var (version, rest1) :- ReadU8(buf);
    var (inverse, rest2) :- ReadU8(rest1);
    var (typeWord, rest3) :- ReadU16(rest2);
    var (length, rest) :- ReadU32(rest3);
    var header := Header(VersionOf(version), inverse, PayloadTypeOf(typeWord), length);
    if header.version.Inverse() == inverse then Ok((header, rest))
    else Err(VersionInverseIncorrect(header.version.Inverse(), inverse))
  }

  // -------------------------------------------------------------- payload bodies

  datatype DiagnosticBody = DiagnosticBody(source: u16, target: u16, userData: Bytes)

  function DiagnosticBodyBytes(x: DiagnosticBody): Bytes {
    U16Bytes(x.source) + (U16Bytes(x.target) + x.userData)
  }

  function DecodeDiagnosticBody(buf: Bytes): (r: Result<(DiagnosticBody, Bytes)>)
    ensures r.Ok? <==> |buf| >= 4
    ensures r.Err? ==> r.error == Incomplete
  {
    var (source, rest1) :- ReadU16(buf);
    var (target, rest2) :- ReadU16(rest1);
    Ok((DiagnosticBody(source, target, rest2), []))
  }

  lemma DiagnosticBodyReprints(buf: Bytes)
    ensures DecodeDiagnosticBody(buf).Ok? <==> |buf| >= 4
    ensures DecodeDiagnosticBody(buf).Err? ==> DecodeDiagnosticBody(buf).error == Incomplete
    ensures DecodeDiagnosticBody(buf).Ok? ==>
              var (x, rest) := DecodeDiagnosticBody(buf).value;
              rest == [] && DiagnosticBodyBytes(x) == buf
  {
    hide U16Bytes, ReadU16;
    ReadU16Splits(buf);
    if |buf| >= 2 {
      ReadU16Splits(ReadU16(buf).value.1);
    }
  }

  datatype AckBody = AckBody(source: u16, target: u16, code: DiagnosticAckCode, previous: Bytes)

  function AckBodyBytes(x: AckBody): Bytes {
    U16Bytes(x.source) + (U16Bytes(x.target) + ([x.code.Byte()] + x.previous))
  }

  function DecodeAckBody(buf: Bytes): (r: Result<(AckBody, Bytes)>)
    ensures r.Ok? <==> |buf| >= 5
    ensures r.Err? ==> r.error == Incomplete
  {
    var (source, rest1) :- ReadU16(buf);
    var (target, rest2) :- ReadU16(rest1);
    var (code, rest3) :- ReadU8(rest2);
    Ok((AckBody(source, target, DiagnosticAckCodeOf(code), rest3), []))
  }

  lemma AckBodyReprints(buf: Bytes)
    ensures DecodeAckBody(buf).Ok? <==> |buf| >= 5
    ensures DecodeAckBody(buf).Err? ==> DecodeAckBody(buf).error == Incomplete
    ensures DecodeAckBody(buf).Ok? ==>
              var (x, rest) := DecodeAckBody(buf).value;
              rest == [] && AckBodyBytes(x) == buf
  {
    hide U16Bytes, ReadU16;
    ReadU16Splits(buf);
    if |buf| >= 2 {
      ReadU16Splits(ReadU16(buf).value.1);
    }
  }

  datatype EntityStatus = EntityStatus(nodeType: NodeType, maxSockets: u8, openSockets: u8, maxDataSize: u32)

  function EntityStatusBytes(x: EntityStatus): Bytes {
    [x.nodeType.Byte()] + ([x.maxSockets] + ([x.openSockets] + U32Bytes(x.maxDataSize)))
  }

  function DecodeEntityStatus(buf: Bytes): (r: Result<(EntityStatus, Bytes)>)
    ensures r.Ok? <==> |buf| >= 7
    ensures r.Err? ==> r.error == Incomplete
  {
    var (nodeType, rest1) :- ReadU8(buf);
    var (maxSockets, rest2) :- ReadU8(rest1);
    var (openSockets, rest3) :- ReadU8(rest2);
    var (maxDataSize, rest) :- ReadU32(rest3);
    Ok((EntityStatus(NodeTypeOf(nodeType), maxSockets, openSockets, maxDataSize), rest))
  }

  lemma EntityStatusReprints(buf: Bytes)
    ensures DecodeEntityStatus(buf).Ok? <==> |buf| >= 7
    ensures DecodeEntityStatus(buf).Err? ==> DecodeEntityStatus(buf).error == Incomplete
    ensures DecodeEntityStatus(buf).Ok? ==>
              var (x, rest) := DecodeEntityStatus(buf).value;
              EntityStatusBytes(x) + rest == buf
  {
    hide U32Bytes, ReadU32;
    if |buf| >= 7 {
      var (x, rest) := DecodeEntityStatus(buf).value;
      assert buf[1..][1..][1..] == buf[3..];
      ReadU32Splits(buf[3..]);
      var (kind, size) := ([x.nodeType.Byte()], U32Bytes(x.maxDataSize));
      assert buf == kind + ([x.maxSockets] + ([x.openSockets] + buf[3..]));
      Regroup([x.maxSockets], [x.openSockets], size, rest);
      Regroup([], kind, [x.maxSockets] + ([x.openSockets] + size), rest);
    }
  }

  datatype ActivationRequest =
    ActivationRequest(source: u16, activationType: ActivationType, reserved: Bytes4, tail: Option<Bytes4>)

  function ActivationRequestBytes(x: ActivationRequest): Bytes {
    U16Bytes(x.source) + ([x.activationType.Byte()] + (x.reserved + TailBytes(x.tail)))
  }

  function DecodeActivationRequest(buf: Bytes): (r: Result<(ActivationRequest, Bytes)>)
    ensures r.Ok? <==> |buf| >= 7
    ensures r.Err? ==> r.error == Incomplete
    ensures r.Ok? ==> (r.value.0.tail.Some? <==> |buf| >= 11)
  {
    var (source, rest1) :- ReadU16(buf);
    var (activationType, rest2) :- ReadU8(rest1);
    var (reserved, rest3) :- ReadArray(rest2, 4);
    var (tail, rest) := ReadOptional4(rest3);
    Ok((ActivationRequest(source, ActivationTypeOf(activationType), reserved, tail), rest))
  }

  lemma ActivationRequestReprints(buf: Bytes)
    ensures DecodeActivationRequest(buf).Ok? <==> |buf| >= 7
    ensures DecodeActivationRequest(buf).Err? ==> DecodeActivationRequest(buf).error == Incomplete
    ensures DecodeActivationRequest(buf).Ok? ==>
              var (x, rest) := DecodeActivationRequest(buf).value;
              ActivationRequestBytes(x) + rest == buf && (x.tail.Some? <==> |buf| >= 11)
  {
    hide U16Bytes, ReadU16;
    ReadU16Splits(buf);
    if |buf| >= 7 {
      var (x, rest) := DecodeActivationRequest(buf).value;
      var kind := [x.activationType.Byte()];
      Regroup(kind, x.reserved, TailBytes(x.tail), rest);
      Regroup([], U16Bytes(x.source), kind + (x.reserved + TailBytes(x.tail)), rest);
    }
  }

  datatype ActivationResponse =
    ActivationResponse(tester: u16, entity: u16, code: ActivationCode, reserved: Bytes4, tail: Option<Bytes4>)

  function ActivationResponseBytes(x: ActivationResponse): Bytes {
    U16Bytes(x.tester) + (U16Bytes(x.entity) + ([x.code.Byte()] + (x.reserved + TailBytes(x.tail))))
  }

  function DecodeActivationResponse(buf: Bytes): (r: Result<(ActivationResponse, Bytes)>)
    ensures r.Ok? <==> |buf| >= 9
    ensures r.Err? ==> r.error == Incomplete
    ensures r.Ok? ==> (r.value.0.tail.Some? <==> |buf| >= 13)
  {
    var (tester, rest1) :- ReadU16(buf);
    var (entity, rest2) :- ReadU16(rest1);
    var (code, rest3) :- ReadU8(rest2);
    var (reserved, rest4) :- ReadArray(rest3, 4);
    var (tail, rest) := ReadOptional4(rest4);
    Ok((ActivationResponse(tester, entity, ActivationCodeOf(code), reserved, tail), rest))
  }

  lemma ActivationResponseReprints(buf: Bytes)
    ensures DecodeActivationResponse(buf).Ok? <==> |buf| >= 9
    ensures DecodeActivationResponse(buf).Err? ==> DecodeActivationResponse(buf).error == Incomplete
    ensures DecodeActivationResponse(buf).Ok? ==>
              var (x, rest) := DecodeActivationResponse(buf).value;
              ActivationResponseBytes(x) + rest == buf && (x.tail.Some? <==> |buf| >= 13)
  {
    hide U16Bytes, ReadU16;
    ReadU16Splits(buf);
    if |buf| >= 9 {
      ReadU16Splits(ReadU16(buf).value.1);
      var (x, rest) := DecodeActivationResponse(buf).value;
      var code := [x.code.Byte()];
      Regroup(code, x.reserved, TailBytes(x.tail), rest);
      Regroup(U16Bytes(x.tester), U16Bytes(x.entity), code + (x.reserved + TailBytes(x.tail)), rest);
    }
  }

  /** Vehicle identification response and vehicle announcement share one 33-byte body. */
  datatype Identification = Identification(
    vin: Bytes17, address: u16, entityId: Bytes6, groupId: Option<Bytes6>,
    furtherAction: FurtherAction, syncStatus: SyncStatus)

  const ZEROS6: Bytes6 := [0x00, 0x00, 0x00, 0x00, 0x00, 0x00]
  const ONES6: Bytes6 := [0xFF, 0xFF, 0xFF, 0xFF, 0xFF, 0xFF]

  function GroupIdField(g: Option<Bytes6>): Bytes6 {
    if g.Some? then g.value else ZEROS6
  }

  function GroupIdOf(field: Bytes6): Option<Bytes6> {
    if field == ZEROS6 || field == ONES6 then None else Some(field)
  }

  function IdentificationBytes(x: Identification): Bytes {
    x.vin + (U16Bytes(x.address) + (x.entityId + (GroupIdField(x.groupId)
    + ([x.furtherAction.Byte()] + [x.syncStatus.Byte()]))))
  }

  function DecodeIdentification(buf: Bytes): (r: Result<(Identification, Bytes)>)
    ensures r.Ok? <==> |buf| >= 33
    ensures r.Err? ==> r.error == Incomplete
    ensures r.Ok? ==>
              var (x, rest) := r.value;
              && x.vin == buf[..17] && x.address == U16At(buf, 17) && x.entityId == buf[19..25]
              && x.groupId == GroupIdOf(buf[25..31])
              && x.furtherAction == FurtherActionOf(buf[31]) && x.syncStatus == SyncStatusOf(buf[32])
              && rest == buf[33..]
  {
    var (vin, rest1) :- ReadArray(buf, 17);
    var (address, rest2) :- ReadU16(rest1);
    var (entityId, rest3) :- ReadArray(rest2, 6);
    var (groupField, rest4) :- ReadArray(rest3, 6);
    assert groupField == buf[25..31];
    var (furtherAction, rest5) :- ReadU8(rest4);
    var (syncStatus, rest) :- ReadU8(rest5);
    Ok((Identification(vin, address, entityId, GroupIdOf(groupField),
                       FurtherActionOf(furtherAction), SyncStatusOf(syncStatus)), rest))
  }

  // --------------------------------------------------------------------- payload

  datatype Payload =
    | DoIPNack(nack: NackCode)
    | AliveCheckRequest
    | AliveCheckResponse(source: u16)
    | DiagnosticMessage(diagnostic: DiagnosticBody)
    | DiagnosticMessageAck(ack: AckBody)
    | DiagnosticMessageNack
    | EntityStatusRequest
    | EntityStatusResponse(status: EntityStatus)
    | PowerModeInfoResponse(mode: PowerMode)
    | RoutingActivationRequest(request: ActivationRequest)
    | RoutingActivationResponse(response: ActivationResponse)
    | VehicleAnnouncement(identification: Identification)
    | VehicleIdentificationRequest
    | VehicleIdentificationResponse(identification: Identification)

  function PayloadBytes(p: Payload): Bytes {
    match p
    case DoIPNack(code) => [code.Byte()]
    case AliveCheckRequest => []
    case AliveCheckResponse(source) => U16Bytes(source)
    case DiagnosticMessage(x) => DiagnosticBodyBytes(x)
    case DiagnosticMessageAck(x) => AckBodyBytes(x)
    case DiagnosticMessageNack => []
    case EntityStatusRequest => []
    case EntityStatusResponse(x) => EntityStatusBytes(x)
    case PowerModeInfoResponse(mode) => [mode.Byte()]
    case RoutingActivationRequest(x) => ActivationRequestBytes(x)
    case RoutingActivationResponse(x) => ActivationResponseBytes(x)
    case VehicleAnnouncement(x) => IdentificationBytes(x)
    case VehicleIdentificationRequest => []
    case VehicleIdentificationResponse(x) => IdentificationBytes(x)
  }

  /** The closed-form size the header length is taken from; it is the number of bytes printed. */
  function EncodedSize(p: Payload): (n: nat)
    ensures n == |PayloadBytes(p)|
  {
    match p
    case DoIPNack(_) => 1
    case AliveCheckRequest => 0
    case AliveCheckResponse(_) => 2
    case DiagnosticMessage(x) => 4 + |x.userData|
    case DiagnosticMessageAck(x) => 5 + |x.previous|
    case DiagnosticMessageNack => 0
    case EntityStatusRequest => 0
    case EntityStatusResponse(_) => 7
    case PowerModeInfoResponse(_) => 1
    case RoutingActivationRequest(x) => if x.tail.Some? then 11 else 7
    case RoutingActivationResponse(x) => 9 + (if x.tail.Some? then 4 else 0)
    case VehicleAnnouncement(_) => 33
    case VehicleIdentificationRequest => 0
    case VehicleIdentificationResponse(_) => 33
  }

  /** Parse one body. Bytes the body does not occupy are dropped, not rejected. */
  function DecodePayload(buf: Bytes, t: PayloadType): Result<Payload> {
    match t
    case AliveCheckResponse =>
      var r :- ReadU16(buf); Ok(Payload.AliveCheckResponse(r.0))
    case NegativeAcknowledge =>
      var r :- ReadU8(buf); Ok(DoIPNack(NackCodeOf(r.0)))
    case VehicleIdentificationRequest => Ok(Payload.VehicleIdentificationRequest)
    case VehicleIdentificationRequestWithEID => Ok(Payload.VehicleIdentificationRequest)
    case VehicleIdentificationRequestWithVIN => Ok(Payload.VehicleIdentificationRequest)
    case VehicleAnnouncement =>
      var r :- DecodeIdentification(buf); Ok(Payload.VehicleAnnouncement(r.0))
    case RoutingActivationRequest =>
      var r :- DecodeActivationRequest(buf); Ok(Payload.RoutingActivationRequest(r.0))
    case RoutingActivationResponse =>
      var r :- DecodeActivationResponse(buf); Ok(Payload.RoutingActivationResponse(r.0))
    case AliveCheckRequest => Ok(Payload.AliveCheckRequest)
    case EntityStatusRequest => Ok(Payload.EntityStatusRequest)
    case EntityStatusResponse =>
      var r :- DecodeEntityStatus(buf); Ok(Payload.EntityStatusResponse(r.0))
    case PowerModeInfoResponse =>
      var r :- ReadU8(buf); Ok(Payload.PowerModeInfoResponse(PowerModeOf(r.0)))
    case DiagnosticMessage =>
      var r :- DecodeDiagnosticBody(buf); Ok(Payload.DiagnosticMessage(r.0))
    case DiagnosticMessagePositiveAcknowledge =>
      var r :- DecodeAckBody(buf); Ok(DiagnosticMessageAck(r.0))
    case DiagnosticMessageNegativeAcknowledge => Ok(DiagnosticMessageNack)
    case PowerModeInfoRequest => Err(UnsupportedPayloadType(t))
    case Reserved(_) => Err(UnsupportedPayloadType(t))
    case ReservedVehicleManufacturer(_) => Err(UnsupportedPayloadType(t))
  }

  /** Which payload variant travels under which header type. */
  predicate Carries(t: PayloadType, p: Payload) {
    match p
    case DoIPNack(_) => t.NegativeAcknowledge?
    case AliveCheckRequest => t.AliveCheckRequest?
    case AliveCheckResponse(_) => t.AliveCheckResponse?
    case DiagnosticMessage(_) => t.DiagnosticMessage?
    case DiagnosticMessageAck(_) => t.DiagnosticMessagePositiveAcknowledge?
    case DiagnosticMessageNack => t.DiagnosticMessageNegativeAcknowledge?
    case EntityStatusRequest => t.EntityStatusRequest?
    case EntityStatusResponse(_) => t.EntityStatusResponse?
    case PowerModeInfoResponse(_) => t.PowerModeInfoResponse?
    case RoutingActivationRequest(_) => t.RoutingActivationRequest?
    case RoutingActivationResponse(_) => t.RoutingActivationResponse?
    case VehicleAnnouncement(_) => t.VehicleAnnouncement?
    case VehicleIdentificationRequest =>
      t.VehicleIdentificationRequest? || t.VehicleIdentificationRequestWithEID?
      || t.VehicleIdentificationRequestWithVIN?
    case VehicleIdentificationResponse(_) => false
  }

  // --------------------------------------------------------------------- message

  datatype Message = Message(header: Header, payload: Payload) {

    /** May a message of type `t` answer this one? */
    predicate IsResponse(t: PayloadType) {
      match header.payloadType
      case RoutingActivationRequest => t.RoutingActivationResponse?
      case AliveCheckRequest => t.AliveCheckResponse?
      case DiagnosticMessage =>
        t.DiagnosticMessageNegativeAcknowledge? || t.DiagnosticMessagePositiveAcknowledge?
        || t.DiagnosticMessage?
      case EntityStatusRequest => t.EntityStatusResponse?
      case PowerModeInfoRequest => t.PowerModeInfoResponse?
      case VehicleIdentificationRequest => t.VehicleAnnouncement?
      case VehicleIdentificationRequestWithEID => t.VehicleAnnouncement?
      case VehicleIdentificationRequestWithVIN => t.VehicleAnnouncement?
      case _ => false
    }

    /** The header that is printed: its length is derived from the payload, not taken from the field. */
    function DerivedHeader(): Header
      requires EncodedSize(payload) <= U32_MAX
    {
      NewHeader(header.version, header.payloadType, EncodedSize(payload))
    }

    function Derived(): Message
      requires EncodedSize(payload) <= U32_MAX
    {
      Message(DerivedHeader(), payload)
    }
  }

  function EncodeMessage(m: Message): (r: Result<Bytes>)
    ensures r.Ok? <==> EncodedSize(m.payload) <= U32_MAX
    ensures r.Ok? ==> |r.value| == HEADER_SIZE + EncodedSize(m.payload)
  {
    var size := EncodedSize(m.payload);
    if size > U32_MAX then Err(PayloadTooLarge(size))
    else Ok(HeaderBytes(m.DerivedHeader()) + PayloadBytes(m.payload))
  }

  lemma PrintedHeaderByBytes(h: Header)
    ensures var b := HeaderBytes(h);
            && b[0] == h.version.Byte() && b[1] == h.inverse
            && U16At(b, 2) == PayloadTypeWord(h.payloadType)
            && U32At(b, 4) == h.length
  {
    hide PayloadTypeWord;
    var (b, word, length) := (HeaderBytes(h), U16Bytes(PayloadTypeWord(h.payloadType)), U32Bytes(h.length));
    ReadU16Back(PayloadTypeWord(h.payloadType), []);
    ReadU32Back(h.length, []);
    assert word + [] == word && length + [] == length;
    assert b[2] == word[0] && b[3] == word[1];
    assert b[4] == length[0] && b[5] == length[1] && b[6] == length[2] && b[7] == length[3];
  }

  /** A printed message, byte by byte: version, its complement, type, size, body. */
  lemma PrintedByBytes(m: Message)
    ensures match EncodeMessage(m)
            case Err(e) => EncodedSize(m.payload) > U32_MAX && e == PayloadTooLarge(EncodedSize(m.payload))
            case Ok(b) =>
              && EncodedSize(m.payload) <= U32_MAX && |b| == HEADER_SIZE + EncodedSize(m.payload)
              && b[0] == m.header.version.Byte() && b[1] == 0xFF - b[0]
              && U16At(b, 2) == PayloadTypeWord(m.header.payloadType)
              && U32At(b, 4) == EncodedSize(m.payload)
              && b[HEADER_SIZE..] == PayloadBytes(m.payload)
  {
    hide PayloadBytes, PayloadTypeWord, HeaderBytes, EncodedSize;
    if EncodedSize(m.payload) <= U32_MAX {
      PrintedHeaderByBytes(m.DerivedHeader());
    }
  }

  function DecodeMessage(buf: Bytes): Result<(Message, Bytes)> {
    var (header, rest1) :- DecodeHeader(buf);
    var (body, rest) :- ReadArray(rest1, header.length);
    var payload :- DecodePayload(body, header.payloadType);
    Ok((Message(header, payload), rest))
  }

  // ---------------------------------------------------------------- constructors

  function AliveCheckResponseMessage(version: ProtocolVersion, source: u16): Message {
    Message(NewHeader(version, PayloadType.AliveCheckResponse, 2), Payload.AliveCheckResponse(source))
  }

  function DiagnosticMessageOf(version: ProtocolVersion, source: u16, target: u16, userData: Bytes): Message
    requires 4 + |userData| <= U32_MAX
  {
    var p := Payload.DiagnosticMessage(DiagnosticBody(source, target, userData));
    Message(NewHeader(version, PayloadType.DiagnosticMessage, EncodedSize(p)), p)
  }

  function ActivationRequestMessage(
    version: ProtocolVersion, source: u16, activationType: ActivationType, tail: Option<Bytes4>): Message
  {
    var p := Payload.RoutingActivationRequest(ActivationRequest(source, activationType, [0, 0, 0, 0], tail));
    Message(NewHeader(version, PayloadType.RoutingActivationRequest, EncodedSize(p)), p)
  }

  function ActivationResponseMessage(
    version: ProtocolVersion, tester: u16, entity: u16, code: ActivationCode, reserved: Bytes4,
    tail: Option<Bytes4>): Message
  {
    var p := Payload.RoutingActivationResponse(ActivationResponse(tester, entity, code, reserved, tail));
    Message(NewHeader(version, PayloadType.RoutingActivationResponse, EncodedSize(p)), p)
  }

  /** Placeholder request standing for "any diagnostic response will do". */
  function DefaultMessage(): Message {
    Message(NewHeader(V2012, PayloadType.DiagnosticMessage, 0),
            Payload.DiagnosticMessage(DiagnosticBody(0, 0, [])))
  }

  /** Addresses set aside for external test equipment. */
  predicate IsValidClientAddress(a: u16) {
    0x0E00 <= a <= 0x0FFF
  }
}
