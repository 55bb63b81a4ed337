/**
 * Printer and parser against each other: what survives a trip over the wire, for every payload and
 * every frame, and exactly when the bytes themselves survive the trip back.
 */
module RoundTrip {
  import opened Wire
  import opened Codes
  import opened Messages

  // ------------------------------------------------------- canonical payloads

  /** A group id that is not one of the two "not set" sentinels. */
  predicate CanonicalGroupId(g: Option<Bytes6>) {
    g.Some? ==> g.value != ZEROS6 && g.value != ONES6
  }

  predicate CanonicalIdentification(x: Identification) {
    CanonicalGroupId(x.groupId) && x.furtherAction.Canonical() && x.syncStatus.Canonical()
  }

  /** Payloads whose every code is the one its byte stands for, and whose group id can be told from absent. */
  predicate CanonicalPayload(p: Payload) {
    match p
    case DoIPNack(code) => code.Canonical()
    case DiagnosticMessageAck(x) => x.code.Canonical()
    case EntityStatusResponse(x) => x.nodeType.Canonical()
    case PowerModeInfoResponse(mode) => mode.Canonical()
    case RoutingActivationRequest(x) => x.activationType.Canonical()
    case RoutingActivationResponse(x) => x.code.Canonical()
    case VehicleAnnouncement(x) => CanonicalIdentification(x)
    case VehicleIdentificationResponse(x) => CanonicalIdentification(x)
    case _ => true
  }

  function NormalIdentification(x: Identification): Identification {
    x.(groupId := GroupIdOf(GroupIdField(x.groupId)),
       furtherAction := FurtherActionOf(x.furtherAction.Byte()),
       syncStatus := SyncStatusOf(x.syncStatus.Byte()))
  }

  /** What a payload looks like after one trip over the wire. */
  function NormalPayload(p: Payload): Payload {
    match p
    case DoIPNack(code) => DoIPNack(NackCodeOf(code.Byte()))
    case DiagnosticMessageAck(x) => DiagnosticMessageAck(x.(code := DiagnosticAckCodeOf(x.code.Byte())))
    case EntityStatusResponse(x) => Payload.EntityStatusResponse(x.(nodeType := NodeTypeOf(x.nodeType.Byte())))
    case PowerModeInfoResponse(mode) => Payload.PowerModeInfoResponse(PowerModeOf(mode.Byte()))
    case RoutingActivationRequest(x) =>
      Payload.RoutingActivationRequest(x.(activationType := ActivationTypeOf(x.activationType.Byte())))
    case RoutingActivationResponse(x) =>
      Payload.RoutingActivationResponse(x.(code := ActivationCodeOf(x.code.Byte())))
    case VehicleAnnouncement(x) => Payload.VehicleAnnouncement(NormalIdentification(x))
    case VehicleIdentificationResponse(x) => Payload.VehicleIdentificationResponse(NormalIdentification(x))
    case _ => p
  }

  lemma NormalIdentificationFixed(x: Identification)
    ensures NormalIdentification(x) == x <==> CanonicalIdentification(x)
  {
  }

  lemma NormalPayloadFixed(p: Payload)
    ensures NormalPayload(p) == p <==> CanonicalPayload(p)
  {
    match p
    case VehicleAnnouncement(x) => NormalIdentificationFixed(x);
    case VehicleIdentificationResponse(x) => NormalIdentificationFixed(x);
    case _ =>
  }

  // ---------------------------------------------- parsing what was printed

  lemma DiagnosticBodyBack(x: DiagnosticBody)
    ensures DecodeDiagnosticBody(DiagnosticBodyBytes(x)) == Ok((x, []))
  {
    ReadU16Back(x.source, U16Bytes(x.target) + x.userData);
    ReadU16Back(x.target, x.userData);
  }

  lemma AckBodyBack(x: AckBody)
    ensures DecodeAckBody(AckBodyBytes(x)) == Ok((x.(code := DiagnosticAckCodeOf(x.code.Byte())), []))
  {
    ReadU16Back(x.source, U16Bytes(x.target) + ([x.code.Byte()] + x.previous));
    ReadU16Back(x.target, [x.code.Byte()] + x.previous);
    ReadU8Back(x.code.Byte(), x.previous);
  }

  lemma EntityStatusBack(x: EntityStatus)
    ensures DecodeEntityStatus(EntityStatusBytes(x)) == Ok((x.(nodeType := NodeTypeOf(x.nodeType.Byte())), []))
  {
    var size := U32Bytes(x.maxDataSize);
    ReadU8Back(x.nodeType.Byte(), [x.maxSockets] + ([x.openSockets] + size));
    ReadU8Back(x.maxSockets, [x.openSockets] + size);
    ReadU8Back(x.openSockets, size);
    ReadU32Back(x.maxDataSize, []);
    assert size + [] == size;
  }

  lemma ActivationRequestBack(x: ActivationRequest)
    ensures DecodeActivationRequest(ActivationRequestBytes(x))
            == Ok((x.(activationType := ActivationTypeOf(x.activationType.Byte())), []))
  {
    var tail := TailBytes(x.tail);
    ReadU16Back(x.source, [x.activationType.Byte()] + (x.reserved + tail));
    ReadU8Back(x.activationType.Byte(), x.reserved + tail);
    ReadArrayBack(x.reserved, tail);
    ReadOptional4Back(x.tail);
  }

  lemma ActivationResponseBack(x: ActivationResponse)
    ensures DecodeActivationResponse(ActivationResponseBytes(x))
            == Ok((x.(code := ActivationCodeOf(x.code.Byte())), []))
  {
    var tail := TailBytes(x.tail);
    ReadU16Back(x.tester, U16Bytes(x.entity) + ([x.code.Byte()] + (x.reserved + tail)));
    ReadU16Back(x.entity, [x.code.Byte()] + (x.reserved + tail));
    ReadU8Back(x.code.Byte(), x.reserved + tail);
    ReadArrayBack(x.reserved, tail);
    ReadOptional4Back(x.tail);
  }

  lemma IdentificationBack(x: Identification)
    ensures DecodeIdentification(IdentificationBytes(x)) == Ok((NormalIdentification(x), []))
  {
    var sync := [x.syncStatus.Byte()];
    var action := [x.furtherAction.Byte()] + sync;
    var group := GroupIdField(x.groupId);
    ReadArrayBack(x.vin, U16Bytes(x.address) + (x.entityId + (group + action)));
    ReadU16Back(x.address, x.entityId + (group + action));
    ReadArrayBack(x.entityId, group + action);
    ReadArrayBack(group, action);
    ReadU8Back(x.furtherAction.Byte(), sync);
    ReadU8Back(x.syncStatus.Byte(), []);
    assert sync + [] == sync;
  }

  lemma PayloadBack(t: PayloadType, p: Payload)
    requires Carries(t, p)
    ensures DecodePayload(PayloadBytes(p), t) == Ok(NormalPayload(p))
  {
    hide DecodeDiagnosticBody, DecodeAckBody, DecodeEntityStatus, DecodeActivationRequest;
    hide DecodeActivationResponse, DecodeIdentification, NormalIdentification, ReadU8, ReadU16;
    hide DiagnosticBodyBytes, AckBodyBytes, EntityStatusBytes, ActivationRequestBytes;
    hide ActivationResponseBytes, IdentificationBytes, U16Bytes;
    match p
    case DoIPNack(code) => ReadU8Back(code.Byte(), []); assert [code.Byte()] + [] == [code.Byte()];
    case AliveCheckResponse(source) => ReadU16Back(source, []); assert U16Bytes(source) + [] == U16Bytes(source);
    case DiagnosticMessage(x) => DiagnosticBodyBack(x);
    case DiagnosticMessageAck(x) => AckBodyBack(x);
    case EntityStatusResponse(x) => EntityStatusBack(x);
    case PowerModeInfoResponse(mode) => ReadU8Back(mode.Byte(), []); assert [mode.Byte()] + [] == [mode.Byte()];
    case RoutingActivationRequest(x) => ActivationRequestBack(x);
    case RoutingActivationResponse(x) => ActivationResponseBack(x);
    case VehicleAnnouncement(x) => IdentificationBack(x);
    case _ =>
  }

  // ---------------------------------------------- printing what was parsed

  /** A parsed payload is of the variant its type announces, canonical, and no longer than its body. */
  lemma DecodedPayload(buf: Bytes, t: PayloadType)
    requires DecodePayload(buf, t).Ok?
    ensures var p := DecodePayload(buf, t).value;
            Carries(t, p) && CanonicalPayload(p) && EncodedSize(p) <= |buf|
  {
    match t
    case DiagnosticMessage => DiagnosticBodyReprints(buf);
    case DiagnosticMessagePositiveAcknowledge => AckBodyReprints(buf);
    case _ =>
  }

  /** Only an unsupported type is skippable; a body too short for its type is reported as incomplete. */
  lemma DecodePayloadErrors(buf: Bytes, t: PayloadType)
    ensures DecodePayload(buf, t).Err? ==>
              DecodePayload(buf, t).error == Incomplete || DecodePayload(buf, t).error == UnsupportedPayloadType(t)
    ensures DecodePayload(buf, t) == Err(UnsupportedPayloadType(t)) <==>
              t.PowerModeInfoRequest? || t.Reserved? || t.ReservedVehicleManufacturer?
  {
  }

  /** The shortest body accepted under a type number; `None` for the numbers nothing decodes. */
  function ShortestBody(w: u16): Option<nat> {
    match w
    case 0x0000 => Some(1)
    case 0x0001 => Some(0)
    case 0x0002 => Some(0)
    case 0x0003 => Some(0)
    case 0x0004 => Some(33)
    case 0x0005 => Some(7)
    case 0x0006 => Some(9)
    case 0x0007 => Some(0)
    case 0x0008 => Some(2)
    case 0x4001 => Some(0)
    case 0x4002 => Some(7)
    case 0x4004 => Some(1)
    case 0x8001 => Some(4)
    case 0x8002 => Some(5)
    case 0x8003 => Some(0)
    case _ => None
  }

  /** What becomes of a body, by its type number and length alone. */
  lemma AcceptedBodies(p: Bytes, w: u16)
    ensures var r := DecodePayload(p, PayloadTypeOf(w));
            if ShortestBody(w).None? then r == Err(UnsupportedPayloadType(PayloadTypeOf(w)))
            else if |p| < ShortestBody(w).value then r == Err(Incomplete)
            else r.Ok?
  {
    hide GroupIdOf;
  }

  /** The group id field of an announcement body. */
  predicate GroupIdOnes(buf: Bytes) {
    |buf| >= 33 && buf[25..31] == ONES6
  }

  lemma DecodedIdentificationBytes(buf: Bytes)
    requires DecodeIdentification(buf).Ok?
    ensures var x := DecodeIdentification(buf).value.0;
            |buf| >= 33 && (IdentificationBytes(x) == buf[..33] <==> !GroupIdOnes(buf))
  {
    var vin := buf[..17];
    var rest1 := buf[17..];
    ReadU16Splits(rest1);
    var (address, rest2) := ReadU16(rest1).value;
    var entityId := rest2[..6];
    var rest3 := rest2[6..];
    var field := rest3[..6];
    var rest4 := rest3[6..];
    var x := DecodeIdentification(buf).value.0;
    assert field == buf[25..31];
    assert buf[..33] == vin + (U16Bytes(address) + (entityId + (field + ([rest4[0]] + [rest4[1]]))));
    if GroupIdField(x.groupId) == field {
      assert IdentificationBytes(x) == buf[..33];
      assert field != ONES6;
    } else {
      assert field == ONES6;
      assert IdentificationBytes(x)[25] == 0x00 && buf[..33][25] == 0xFF;
    }
  }

  /**
   * Printing a parsed body gives back the bytes it was parsed from, cut to the printed size, except
   * for an announcement whose group id was all ones: that sentinel is printed as all zeros.
   */
  lemma DecodedPayloadBytes(buf: Bytes, t: PayloadType)
    requires DecodePayload(buf, t).Ok?
    ensures var p := DecodePayload(buf, t).value;
            EncodedSize(p) <= |buf| &&
            (PayloadBytes(p) == buf[..EncodedSize(p)] <==> !(t.VehicleAnnouncement? && GroupIdOnes(buf)))
  {
    DecodedPayload(buf, t);
    match t
    case VehicleAnnouncement => DecodedIdentificationBytes(buf);
    case AliveCheckResponse => ReadU16Splits(buf);
    case DiagnosticMessage => DiagnosticBodyReprints(buf);
    case DiagnosticMessagePositiveAcknowledge => AckBodyReprints(buf);
    case EntityStatusResponse => EntityStatusReprints(buf);
    case RoutingActivationRequest => ActivationRequestReprints(buf);
    case RoutingActivationResponse => ActivationResponseReprints(buf);
    case _ =>
  }

  // --------------------------------------------------------- payload theorem

  /** A payload survives the wire under a header type exactly when that type carries it and it is canonical. */
  lemma PayloadRoundTrip(t: PayloadType, p: Payload)
    ensures DecodePayload(PayloadBytes(p), t) == Ok(p) <==> Carries(t, p) && CanonicalPayload(p)
  {
    if Carries(t, p) {
      PayloadBack(t, p);
      NormalPayloadFixed(p);
    } else if DecodePayload(PayloadBytes(p), t) == Ok(p) {
      DecodedPayload(PayloadBytes(p), t);
    }
  }

  /** Identification bodies: `Some` of a sentinel group id comes back as `None`. */
  lemma IdentificationRoundTrip(x: Identification)
    ensures DecodeIdentification(IdentificationBytes(x)) == Ok((x, [])) <==> CanonicalIdentification(x)
  {
    IdentificationBack(x);
    NormalIdentificationFixed(x);
  }

  /** The two group ids for which the law of tests/property.rs, that every identification body round-trips, fails. */
  lemma SentinelGroupIdIsLost(x: Identification, g: Bytes6)
    requires g == ZEROS6 || g == ONES6
    ensures var y := x.(groupId := Some(g));
            DecodeIdentification(IdentificationBytes(y)).Ok?
            && DecodeIdentification(IdentificationBytes(y)).value.0.groupId == None
  {
    IdentificationBack(x.(groupId := Some(g)));
  }

  // --------------------------------------------------------- message theorems

  lemma HeaderBack(h: Header, rest: Bytes)
    requires h.inverse == h.version.Inverse()
    ensures DecodeHeader(HeaderBytes(h) + rest)
            == Ok((h.(version := VersionOf(h.version.Byte()),
                      payloadType := PayloadTypeOf(PayloadTypeWord(h.payloadType))), rest))
  {
    var word := U16Bytes(PayloadTypeWord(h.payloadType));
    var length := U32Bytes(h.length);
    assert HeaderBytes(h) + rest == [h.version.Byte()] + ([h.inverse] + (word + (length + rest)));
    ReadU8Back(h.version.Byte(), [h.inverse] + (word + (length + rest)));
    ReadU8Back(h.inverse, word + (length + rest));
    ReadU16Back(PayloadTypeWord(h.payloadType), length + rest);
    ReadU32Back(h.length, rest);
  }

  /** Every accepted header is reprinted byte for byte. */
  lemma DecodedHeaderBytes(buf: Bytes)
    requires DecodeHeader(buf).Ok?
    ensures var h := DecodeHeader(buf).value.0;
            |buf| >= HEADER_SIZE && HeaderBytes(h) == buf[..HEADER_SIZE] && h.inverse == h.version.Inverse()
            && h.version.Canonical() && CanonicalPayloadType(h.payloadType)
            && DecodeHeader(buf).value.1 == buf[HEADER_SIZE..]
  {
    var (version, rest1) := ReadU8(buf).value;
    var (inverse, rest2) := ReadU8(rest1).value;
    ReadU16Splits(rest2);
    var (typeWord, rest3) := ReadU16(rest2).value;
    ReadU32Splits(rest3);
    var (length, rest) := ReadU32(rest3).value;
    assert buf == [version] + ([inverse] + (U16Bytes(typeWord) + (U32Bytes(length) + rest)));
    assert buf[..HEADER_SIZE] == [version] + ([inverse] + (U16Bytes(typeWord) + U32Bytes(length)));
  }

  /** Messages whose version, type and payload all stand for themselves. */
  predicate CanonicalMessage(m: Message) {
    && m.header.version.Canonical()
    && CanonicalPayloadType(m.header.payloadType)
    && Carries(m.header.payloadType, m.payload)
    && CanonicalPayload(m.payload)
  }

  lemma PrintedMessageDecodes(m: Message, rest: Bytes)
    requires EncodedSize(m.payload) <= U32_MAX
    ensures DecodeHeader(EncodeMessage(m).value + rest).Ok?
    ensures var t := PayloadTypeOf(PayloadTypeWord(m.header.payloadType));
            var h := m.DerivedHeader().(version := VersionOf(m.header.version.Byte()), payloadType := t);
            DecodeMessage(EncodeMessage(m).value + rest)
            == match DecodePayload(PayloadBytes(m.payload), t)
               case Ok(p) => Ok((Message(h, p), rest))
               case Err(e) => Err(e)
  {
    var body := PayloadBytes(m.payload);
    assert EncodeMessage(m).value + rest == HeaderBytes(m.DerivedHeader()) + (body + rest);
    HeaderBack(m.DerivedHeader(), body + rest);
    ReadArrayBack(body, rest);
  }

  /**
   * A printed message is read back as itself, with its derived length and whatever follows it
   * untouched, exactly when it is canonical.
   */
  lemma MessageRoundTrip(m: Message, rest: Bytes)
    requires EncodedSize(m.payload) <= U32_MAX
    ensures DecodeMessage(EncodeMessage(m).value + rest) == Ok((m.Derived(), rest)) <==> CanonicalMessage(m)
  {
    PrintedMessageDecodes(m, rest);
    VersionBack(m.header.version);
    PayloadTypeBack(m.header.payloadType);
    PayloadRoundTrip(m.header.payloadType, m.payload);
  }

  /** The pieces an accepted buffer falls into: a reprintable header, its body, and the rest. */
  lemma ParsedMessage(buf: Bytes)
    requires DecodeMessage(buf).Ok?
    ensures var (m, rest) := DecodeMessage(buf).value;
            && |buf| == HEADER_SIZE + m.header.length + |rest|
            && HeaderBytes(m.header) == buf[..HEADER_SIZE]
            && m.header.inverse == m.header.version.Inverse()
            && rest == buf[HEADER_SIZE + m.header.length..]
            && DecodePayload(buf[HEADER_SIZE..HEADER_SIZE + m.header.length], m.header.payloadType) == Ok(m.payload)
            && EncodedSize(m.payload) <= m.header.length
            && CanonicalMessage(m)
  {
    var (m, rest) := DecodeMessage(buf).value;
    DecodedHeaderBytes(buf);
    var body := buf[HEADER_SIZE..][..m.header.length];
    assert body == buf[HEADER_SIZE..HEADER_SIZE + m.header.length];
    DecodedPayload(body, m.header.payloadType);
  }

  /**
   * Normal form: whatever was accepted can be printed, in no more bytes than it arrived in; the
   * printed frame is accepted whole as the same version, type and payload, and printing that again
   * changes nothing.
   */
  lemma NormalForm(buf: Bytes)
    requires DecodeMessage(buf).Ok?
    ensures var (m, rest) := DecodeMessage(buf).value;
            && CanonicalMessage(m)
            && EncodeMessage(m).Ok?
            && |EncodeMessage(m).value| <= |buf| - |rest|
            && DecodeMessage(EncodeMessage(m).value) == Ok((m.Derived(), []))
            && EncodeMessage(m.Derived()) == EncodeMessage(m)
  {
    ParsedMessage(buf);
    var (m, rest) := DecodeMessage(buf).value;
    MessageRoundTrip(m, []);
    assert EncodeMessage(m).value + [] == EncodeMessage(m).value;
  }

  lemma BodyExact(h: Header, body: Bytes, p: Payload)
    requires h.inverse == h.version.Inverse() && |body| == h.length && DecodePayload(body, h.payloadType) == Ok(p)
    ensures EncodeMessage(Message(h, p)).Ok?
    ensures EncodeMessage(Message(h, p)).value == HeaderBytes(h) + body <==>
            h.length == EncodedSize(p) && !(h.payloadType.VehicleAnnouncement? && GroupIdOnes(body))
  {
    DecodedPayload(body, h.payloadType);
    DecodedPayloadBytes(body, h.payloadType);
    var m := Message(h, p);
    var printed := EncodeMessage(m).value;
    if h.length == EncodedSize(p) {
      assert m.DerivedHeader() == h;
      assert body[..h.length] == body;
      assert printed[HEADER_SIZE..] == PayloadBytes(p);
      assert (HeaderBytes(h) + body)[HEADER_SIZE..] == body;
    } else {
      assert |printed| != |HeaderBytes(h) + body|;
    }
  }

  /**
   * The bytes themselves survive parse-and-print exactly when the declared length is the payload's
   * own size and no all-ones group id was folded into "not set".
   */
  lemma ByteExact(buf: Bytes)
    requires DecodeMessage(buf).Ok?
    ensures var (m, rest) := DecodeMessage(buf).value;
            && EncodeMessage(m).Ok?
            && |rest| + HEADER_SIZE <= |buf|
            && (EncodeMessage(m).value == buf[..|buf| - |rest|] <==>
                m.header.length == EncodedSize(m.payload)
                && !(m.header.payloadType.VehicleAnnouncement?
                     && GroupIdOnes(buf[HEADER_SIZE..|buf| - |rest|])))
  {
    ParsedMessage(buf);
    var (m, rest) := DecodeMessage(buf).value;
    var body := buf[HEADER_SIZE..HEADER_SIZE + m.header.length];
    BodyExact(m.header, body, m.payload);
    assert buf[..|buf| - |rest|] == HeaderBytes(m.header) + body;
  }
}
