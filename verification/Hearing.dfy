/**
 * What a listener hears: each of the entity's replies after it has been through the stream codec.
 */
module Hearing {
  import opened Wire
  import opened Codes
  import opened Messages
  import opened RoundTrip
  import opened Framer
  import opened EntitySpec
  import opened EntityTrace
  import Codec
  import Loop = ClientRuns

  /** The message the codec delivers for exactly these bytes. */
  function Heard(d: Bytes): Option<Message> {
    match Codec.HeadOf(d)
    case Deliver(m, n) => if n == |d| then Some(m) else None
    case _ => None
  }

  lemma PrintedIsHeard(m: Message)
    requires EncodedSize(m.payload) <= U32_MAX && CanonicalMessage(m) && m == m.Derived()
    ensures Heard(EncodeMessage(m).value) == Some(m)
  {
    hide TryFrame, DecodePayload, EncodeMessage, PayloadBytes, CanonicalMessage;
    CanonicalMessageFrames(m, []);
    assert EncodeMessage(m).value + [] == EncodeMessage(m).value;
  }

  // --------------------------------------------------------------- single replies

  lemma BodylessIsHeard(d: Bytes)
    ensures IsFrame(d) && FirstFrame(d).header.payloadType.DiagnosticMessageNegativeAcknowledge? ==>
              Heard(d) == Some(Message(FirstFrame(d).header, DiagnosticMessageNack))
  {
    hide TryFrame;
  }

  /** A refusal loses its code on the way: under its type no body is read. */
  lemma NegativeAckIsHeard(own: u16, tester: u16, code: u8)
    ensures Heard(NegativeAckFrame(own, tester, code))
            == Some(Message(NewHeader(V2012, DiagnosticMessageNegativeAcknowledge, 5), DiagnosticMessageNack))
  {
    hide TryFrame, Heard, EncodeMessage, PayloadBytes, NegativeAckFrame, PositiveAckFrame, AckFrame;
    var t := DiagnosticMessageNegativeAcknowledge;
    var ack := DiagnosticAckCodeOf(code);
    var m := Message(NewHeader(V2012, t, 5), DiagnosticMessageAck(AckBody(own, tester, ack, [])));
    AckPrinted(t, own, tester, ack);
    AckFrames(own, tester, code);
    PrintedMessageFrames(m, []);
    assert EncodeMessage(m).value + [] == EncodeMessage(m).value;
    BodylessIsHeard(EncodeMessage(m).value);
  }

  lemma PositiveAckIsHeard(own: u16, tester: u16)
    ensures Heard(PositiveAckFrame(own, tester))
            == Some(Message(NewHeader(V2012, DiagnosticMessagePositiveAcknowledge, 5),
                            DiagnosticMessageAck(AckBody(own, tester, RoutingConfirmationAck, []))))
  {
    hide Heard, EncodeMessage, NegativeAckFrame, PositiveAckFrame, AckFrame;
    var t := DiagnosticMessagePositiveAcknowledge;
    AckPrinted(t, own, tester, RoutingConfirmationAck);
    AckFrames(own, tester, 0);
    PrintedIsHeard(Message(NewHeader(V2012, t, 5), DiagnosticMessageAck(AckBody(own, tester, RoutingConfirmationAck, []))));
  }

  lemma ActivationIsHeard(own: u16, tester: u16, code: u8)
    ensures Heard(ActivationFrame(own, tester, code))
            == Some(ActivationResponseMessage(V2012, tester, own, ActivationCodeOf(code), [0, 0, 0, 0], None))
  {
    hide Heard, EncodeMessage, ActivationFrame;
    ActivationPrinted(own, tester, ActivationCodeOf(code));
    PrintedIsHeard(ActivationResponseMessage(V2012, tester, own, ActivationCodeOf(code), [0, 0, 0, 0], None));
  }

  lemma DiagnosticIsHeard(own: u16, tester: u16, data: Bytes)
    requires |data| <= UDS_RESP_CAP
    ensures Heard(DiagnosticFrame(own, tester, data)) == Some(DiagnosticMessageOf(V2012, own, tester, data))
  {
    hide Heard, EncodeMessage, DiagnosticFrame;
    DiagnosticPrinted(own, tester, data);
    PrintedIsHeard(DiagnosticMessageOf(V2012, own, tester, data));
  }

  /** To a diagnostic message the client hears a positive ack exactly when it was forwarded. */
  lemma VerdictIsHeard(own: u16, active: Option<u16>, f: RawFrame)
    requires IsDiagnostic(f)
    ensures var heard := Heard(ReplyTo(own, active, f));
            && heard.Some? && CanonicalMessage(heard.value)
            && (if Accepted(own, active, f) then Loop.IsPositiveAck(heard.value)
                else heard.value.payload.DiagnosticMessageNack?)
  {
    hide Heard, NegativeAckFrame, PositiveAckFrame;
    var tester := if active.Some? then active.value else SourceOf(f);
    NegativeAckIsHeard(own, tester, 0x02);
    NegativeAckIsHeard(own, tester, 0x03);
    PositiveAckIsHeard(own, tester);
  }

  lemma NackIsHeard(code: u8)
    ensures Heard(NackFrame(code)) == Some(Message(NewHeader(V2012, NegativeAcknowledge, 1), DoIPNack(NackCodeOf(code))))
  {
    hide Heard, EncodeMessage, NackFrame;
    NackPrinted(NackCodeOf(code));
    PrintedIsHeard(Message(NewHeader(V2012, NegativeAcknowledge, 1), DoIPNack(NackCodeOf(code))));
  }
}
