/**
 * The encoders as they run: field by field into a writer over a fixed buffer, giving up at the first
 * field that does not fit. Each is proved against the printed form of what it writes.
 */
module Encoder {
  import opened Wire
  import opened Codes
  import opened Messages
  import opened Codec

  /** A cursor moving over a caller's buffer. */
  class SliceWriter {
    const buf: array<u8>
    var pos: nat

    ghost predicate Valid()
      reads this
    {
      pos <= buf.Length
    }

    ghost function Written(): Bytes
      requires Valid()
      reads this, buf
    {
      buf[..pos]
    }

    ghost function Room(): nat
      requires Valid()
      reads this
    {
      buf.Length - pos
    }

    constructor (target: array<u8>)
      ensures Valid() && buf == target && pos == 0 && Written() == []
    {
      buf := target;
      pos := 0;
    }

    /** Write all of `bytes`, or fill the buffer and fail. */
    method WriteAll(bytes: Bytes) returns (ok: bool)
      requires Valid()
      modifies this, buf
      ensures Valid()
      ensures ok <==> |bytes| <= old(Room())
      ensures ok ==> Written() == old(Written()) + bytes
      ensures !ok ==> Written() == old(Written()) + bytes[..old(Room())]
    {
      var n := if |bytes| <= buf.Length - pos then |bytes| else buf.Length - pos;
      forall i | 0 <= i < n {
        buf[pos + i] := bytes[i];
      }
      assert buf[pos..pos + n] == bytes[..n];
      assert buf[..pos + n] == buf[..pos] + buf[pos..pos + n];
      pos := pos + n;
      ok := n == |bytes|;
    }
  }

  method WriteHeader(w: SliceWriter, h: Header) returns (r: Result<nat>)
    requires w.Valid()
    modifies w, w.buf
    ensures w.Valid()
    ensures r == if HEADER_SIZE <= old(w.Room()) then Ok(HEADER_SIZE) else Err(Io)
    ensures r.Ok? ==> w.Written() == old(w.Written()) + HeaderBytes(h)
  {
    var ok := w.WriteAll([h.version.Byte()]);
    if !ok { return Err(Io); }
    ok := w.WriteAll([h.inverse]);
    if !ok { return Err(Io); }
    ok := w.WriteAll(U16Bytes(PayloadTypeWord(h.payloadType)));
    if !ok { return Err(Io); }
    ok := w.WriteAll(U32Bytes(h.length));
    if !ok { return Err(Io); }
    return Ok(HEADER_SIZE);
  }

  method WriteDiagnosticBody(w: SliceWriter, x: DiagnosticBody) returns (r: Result<nat>)
    requires w.Valid()
    modifies w, w.buf
    ensures w.Valid()
    ensures r == if |DiagnosticBodyBytes(x)| <= old(w.Room()) then Ok(|DiagnosticBodyBytes(x)|) else Err(Io)
    ensures r.Ok? ==> w.Written() == old(w.Written()) + DiagnosticBodyBytes(x)
  {
    var ok := w.WriteAll(U16Bytes(x.source));
    if !ok { return Err(Io); }
    ok := w.WriteAll(U16Bytes(x.target));
    if !ok { return Err(Io); }
    ok := w.WriteAll(x.userData);
    if !ok { return Err(Io); }
    return Ok(4 + |x.userData|);
  }

  method WriteAckBody(w: SliceWriter, x: AckBody) returns (r: Result<nat>)
    requires w.Valid()
    modifies w, w.buf
    ensures w.Valid()
    ensures r == if |AckBodyBytes(x)| <= old(w.Room()) then Ok(|AckBodyBytes(x)|) else Err(Io)
    ensures r.Ok? ==> w.Written() == old(w.Written()) + AckBodyBytes(x)
  {
    var ok := w.WriteAll(U16Bytes(x.source));
    if !ok { return Err(Io); }
    ok := w.WriteAll(U16Bytes(x.target));
    if !ok { return Err(Io); }
    ok := w.WriteAll([x.code.Byte()]);
    if !ok { return Err(Io); }
    ok := w.WriteAll(x.previous);
    if !ok { return Err(Io); }
    return Ok(5 + |x.previous|);
  }

  method WriteEntityStatus(w: SliceWriter, x: EntityStatus) returns (r: Result<nat>)
    requires w.Valid()
    modifies w, w.buf
    ensures w.Valid()
    ensures r == if |EntityStatusBytes(x)| <= old(w.Room()) then Ok(|EntityStatusBytes(x)|) else Err(Io)
    ensures r.Ok? ==> w.Written() == old(w.Written()) + EntityStatusBytes(x)
  {
    var ok := w.WriteAll([x.nodeType.Byte()]);
    if !ok { return Err(Io); }
    ok := w.WriteAll([x.maxSockets]);
    if !ok { return Err(Io); }
    ok := w.WriteAll([x.openSockets]);
    if !ok { return Err(Io); }
    ok := w.WriteAll(U32Bytes(x.maxDataSize));
    if !ok { return Err(Io); }
    return Ok(7);
  }

  method WriteActivationRequest(w: SliceWriter, x: ActivationRequest) returns (r: Result<nat>)
    requires w.Valid()
    modifies w, w.buf
    ensures w.Valid()
    ensures r == if |ActivationRequestBytes(x)| <= old(w.Room()) then Ok(|ActivationRequestBytes(x)|) else Err(Io)
    ensures r.Ok? ==> w.Written() == old(w.Written()) + ActivationRequestBytes(x)
  {
    var ok := w.WriteAll(U16Bytes(x.source));
    if !ok { return Err(Io); }
    ok := w.WriteAll([x.activationType.Byte()]);
    if !ok { return Err(Io); }
    ok := w.WriteAll(x.reserved);
    if !ok { return Err(Io); }
    if x.tail.Some? {
      ok := w.WriteAll(x.tail.value);
      if !ok { return Err(Io); }
      return Ok(11);
    }
    return Ok(7);
  }

  method WriteActivationResponse(w: SliceWriter, x: ActivationResponse) returns (r: Result<nat>)
    requires w.Valid()
    modifies w, w.buf
    ensures w.Valid()
    ensures r == if |ActivationResponseBytes(x)| <= old(w.Room()) then Ok(|ActivationResponseBytes(x)|) else Err(Io)
    ensures r.Ok? ==> w.Written() == old(w.Written()) + ActivationResponseBytes(x)
  {
    var ok := w.WriteAll(U16Bytes(x.tester));
    if !ok { return Err(Io); }
    ok := w.WriteAll(U16Bytes(x.entity));
    if !ok { return Err(Io); }
    ok := w.WriteAll([x.code.Byte()]);
    if !ok { return Err(Io); }
    ok := w.WriteAll(x.reserved);
    if !ok { return Err(Io); }
    if x.tail.Some? {
      ok := w.WriteAll(x.tail.value);
      if !ok { return Err(Io); }
    }
    return Ok(9 + (if x.tail.Some? then 4 else 0));
  }

  function IdentificationTail(x: Identification): (r: Bytes)
    ensures |r| == 8
  {
    GroupIdField(x.groupId) + ([x.furtherAction.Byte()] + [x.syncStatus.Byte()])
  }

  /** The last three fields; an absent group id is written as zeros. */
  method WriteIdentificationTail(w: SliceWriter, x: Identification) returns (r: Result<nat>)
    requires w.Valid()
    modifies w, w.buf
    ensures w.Valid()
    ensures r == if 8 <= old(w.Room()) then Ok(8) else Err(Io)
    ensures r.Ok? ==> w.Written() == old(w.Written()) + IdentificationTail(x)
  {
    var ok;
    if x.groupId.Some? {
      ok := w.WriteAll(x.groupId.value);
    } else {
      ok := w.WriteAll(ZEROS6);
    }
    if !ok { return Err(Io); }
    ok := w.WriteAll([x.furtherAction.Byte()]);
    if !ok { return Err(Io); }
    ok := w.WriteAll([x.syncStatus.Byte()]);
    if !ok { return Err(Io); }
    return Ok(8);
  }

  method WriteIdentification(w: SliceWriter, x: Identification) returns (r: Result<nat>)
    requires w.Valid()
    modifies w, w.buf
    ensures w.Valid()
    ensures r == if |IdentificationBytes(x)| <= old(w.Room()) then Ok(|IdentificationBytes(x)|) else Err(Io)
    ensures r.Ok? ==> w.Written() == old(w.Written()) + IdentificationBytes(x)
  {
    var ok := w.WriteAll(x.vin);
    if !ok { return Err(Io); }
    ok := w.WriteAll(U16Bytes(x.address));
    if !ok { return Err(Io); }
    ok := w.WriteAll(x.entityId);
    if !ok { return Err(Io); }
    var tail := WriteIdentificationTail(w, x);
    if tail.Err? { return Err(Io); }
    assert IdentificationBytes(x) == x.vin + (U16Bytes(x.address) + (x.entityId + IdentificationTail(x)));
    return Ok(33);
  }

  method WritePayload(w: SliceWriter, p: Payload) returns (r: Result<nat>)
    requires w.Valid()
    modifies w, w.buf
    ensures w.Valid()
    ensures r == if EncodedSize(p) <= old(w.Room()) then Ok(EncodedSize(p)) else Err(Io)
    ensures r.Ok? ==> w.Written() == old(w.Written()) + PayloadBytes(p)
  {
    hide DiagnosticBodyBytes, AckBodyBytes, EntityStatusBytes, ActivationRequestBytes;
    hide ActivationResponseBytes, IdentificationBytes;
    match p
    case DoIPNack(code) =>
      var ok := w.WriteAll([code.Byte()]);
      return if ok then Ok(1) else Err(Io);
    case AliveCheckResponse(source) =>
      var ok := w.WriteAll(U16Bytes(source));
      return if ok then Ok(2) else Err(Io);
    case DiagnosticMessage(x) => r := WriteDiagnosticBody(w, x);
    case DiagnosticMessageAck(x) => r := WriteAckBody(w, x);
    case EntityStatusResponse(x) => r := WriteEntityStatus(w, x);
    case PowerModeInfoResponse(mode) =>
      var ok := w.WriteAll([mode.Byte()]);
      return if ok then Ok(1) else Err(Io);
    case RoutingActivationRequest(x) => r := WriteActivationRequest(w, x);
    case RoutingActivationResponse(x) => r := WriteActivationResponse(w, x);
    case VehicleAnnouncement(x) => r := WriteIdentification(w, x);
    case VehicleIdentificationResponse(x) => r := WriteIdentification(w, x);
    case AliveCheckRequest => return Ok(0);
    case DiagnosticMessageNack => return Ok(0);
    case EntityStatusRequest => return Ok(0);
    case VehicleIdentificationRequest => return Ok(0);
  }

  /** Header, with the length the payload really has, then payload. Fails on size before writing anything. */
  method WriteMessage(w: SliceWriter, m: Message) returns (r: Result<nat>)
    requires w.Valid()
    modifies w, w.buf
    ensures w.Valid()
    ensures match EncodeMessage(m)
            case Err(e) => r == Err(e) && w.Written() == old(w.Written())
            case Ok(bytes) =>
              r == (if |bytes| <= old(w.Room()) then Ok(|bytes|) else Err(Io))
              && (r.Ok? ==> w.Written() == old(w.Written()) + bytes)
  {
    hide PayloadBytes, HeaderBytes;
    var size := EncodedSize(m.payload);
    if size > U32_MAX {
      return Err(PayloadTooLarge(size));
    }
    var header := NewHeader(m.header.version, m.header.payloadType, size);
    var written := WriteHeader(w, header);
    if written.Err? {
      return written;
    }
    var body := WritePayload(w, m.payload);
    if body.Err? {
      return body;
    }
    return Ok(written.value + body.value);
  }

  /** Encode into a caller's buffer; `None` when the message has no wire form or does not fit. */
  method EncodeInto(buf: array<u8>, m: Message) returns (len: Option<nat>)
    modifies buf
    ensures len.Some? <==> EncodeMessage(m).Ok? && |EncodeMessage(m).value| <= buf.Length
    ensures len.Some? ==> len.value <= buf.Length && buf[..len.value] == EncodeMessage(m).value
  {
    hide EncodeMessage;
    var w := new SliceWriter(buf);
    var r := WriteMessage(w, m);
    if r.Ok? {
      assert w.Written() == [] + EncodeMessage(m).value;
      return Some(r.value);
    }
    return None;
  }

  /** Append a printed message to an outgoing buffer, or leave the buffer alone and say why. */
  method EncodeFrame(m: Message, dst: BytesMut) returns (r: Result<()>)
    modifies dst
    ensures match EncodeMessage(m)
            case Ok(bytes) => r == Ok(()) && dst.data == old(dst.data) + bytes
            case Err(e) => r == Err(e) && dst.data == old(dst.data)
  {
    hide PayloadBytes, HeaderBytes;
    var size := HEADER_SIZE + EncodedSize(m.payload);
    var out := new u8[size](_ => 0);
    var w := new SliceWriter(out);
    var written := WriteMessage(w, m);
    if written.Err? {
      return Err(written.error);
    }
    assert out[..] == out[..written.value];
    dst.Extend(out[..]);
    return Ok(());
  }
}
