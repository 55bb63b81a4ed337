/**
 * The printers against byte strings fixed outside this model: the repository's golden fixtures.
 */
module Golden {
  import opened Wire
  import opened Codes
  import opened Messages

  predicate Headers() {
    && HeaderBytes(NewHeader(V2012, NegativeAcknowledge, 1)) == [0x02, 0xFD, 0x00, 0x00, 0x00, 0x00, 0x00, 0x01]
    && HeaderBytes(NewHeader(V2012, PayloadType.DiagnosticMessage, 9))
       == [0x02, 0xFD, 0x80, 0x01, 0x00, 0x00, 0x00, 0x09]
    && HeaderBytes(NewHeader(V2010, PayloadType.VehicleIdentificationRequest, 0))
       == [0x01, 0xFE, 0x00, 0x01, 0x00, 0x00, 0x00, 0x00]
  }

  lemma HeadersHold()
    ensures Headers()
  {
  }

  predicate CodeBytes() {
    && PayloadBytes(DoIPNack(IncorrectPatternFormat)) == [0x00]
    && PayloadBytes(DoIPNack(UnknownPayloadType)) == [0x01]
    && PayloadBytes(DoIPNack(MessageTooLarge)) == [0x02]
    && PayloadBytes(Payload.PowerModeInfoResponse(NotReady)) == [0x00]
    && PayloadBytes(Payload.PowerModeInfoResponse(Ready)) == [0x01]
    && PayloadBytes(Payload.PowerModeInfoResponse(NotSupported)) == [0x02]
    && PayloadBytes(Payload.AliveCheckResponse(0x0000)) == [0x00, 0x00]
    && PayloadBytes(Payload.AliveCheckResponse(0x0E00)) == [0x0E, 0x00]
    && PayloadBytes(Payload.AliveCheckResponse(0xFFFF)) == [0xFF, 0xFF]
  }

  lemma CodeBytesHold()
    ensures CodeBytes()
  {
  }

  predicate Statuses() {
    && EntityStatusBytes(EntityStatus(Gateway, 4, 0, 0x0000_FFFF)) == [0x00, 0x04, 0x00, 0x00, 0x00, 0xFF, 0xFF]
    && EntityStatusBytes(EntityStatus(Node, 1, 1, 64)) == [0x01, 0x01, 0x01, 0x00, 0x00, 0x00, 0x40]
    && EntityStatusBytes(EntityStatus(Node, 255, 255, 0xFFFF_FFFF)) == [0x01, 0xFF, 0xFF, 0xFF, 0xFF, 0xFF, 0xFF]
  }

  lemma StatusesHold()
    ensures Statuses()
  {
  }

  predicate Diagnostics() {
    && DiagnosticBodyBytes(DiagnosticBody(0x0E00, 0x1000, [])) == [0x0E, 0x00, 0x10, 0x00]
    && (var data: Bytes := [0x22, 0xF1, 0x90, 0x00, 0x01, 0x02, 0x03, 0x04, 0x05, 0x06, 0x07, 0x08, 0x09, 0x0A, 0x0B, 0x0C];
        DiagnosticBodyBytes(DiagnosticBody(0xE400, 0x00FF, data)) == [0xE4, 0x00, 0x00, 0xFF] + data)
    && DiagnosticBodyBytes(DiagnosticBody(0x0E00, 0x1000, [0x10, 0x02])) == [0x0E, 0x00, 0x10, 0x00, 0x10, 0x02]
    && AckBodyBytes(AckBody(0x1000, 0x0E00, RoutingConfirmationAck, [])) == [0x10, 0x00, 0x0E, 0x00, 0x00]
    && AckBodyBytes(AckBody(0x1000, 0x0E00, DiagnosticAckCode.OutOfMemory, [0x10, 0x02]))
       == [0x10, 0x00, 0x0E, 0x00, 0x05, 0x10, 0x02]
    && AckBodyBytes(AckBody(0xFFFF, 0x0001, TransportProtocolError, [0x3E, 0x00, 0xAA]))
       == [0xFF, 0xFF, 0x00, 0x01, 0x08, 0x3E, 0x00, 0xAA]
  }

  lemma DiagnosticsHold()
    ensures Diagnostics()
  {
  }

  predicate ActivationRequests() {
    && ActivationRequestBytes(ActivationRequest(0x0E00, Default, [0, 0, 0, 0], None))
       == [0x0E, 0x00, 0x00, 0x00, 0x00, 0x00, 0x00]
    && ActivationRequestBytes(ActivationRequest(0x0E00, Default, [0, 0, 0, 0], Some([0xDE, 0xAD, 0xBE, 0xEF])))
       == [0x0E, 0x00, 0x00, 0x00, 0x00, 0x00, 0x00, 0xDE, 0xAD, 0xBE, 0xEF]
    && ActivationRequestBytes(ActivationRequest(0xE400, CentralSecurity, [0, 0, 0, 0], None))
       == [0xE4, 0x00, 0xE0, 0x00, 0x00, 0x00, 0x00]
  }

  lemma ActivationRequestsHold()
    ensures ActivationRequests()
  {
  }

  predicate ActivationResponses() {
    && ActivationResponseBytes(ActivationResponse(0x0E00, 0x1000, RoutingSuccessfullyActivated, [0, 0, 0, 0], None))
       == [0x0E, 0x00, 0x10, 0x00, 0x10, 0x00, 0x00, 0x00, 0x00]
    && ActivationResponseBytes(
         ActivationResponse(0x0E00, 0x1000, RoutingSuccessfullyActivated, [0, 0, 0, 0], Some([0xDE, 0xAD, 0xBE, 0xEF])))
       == [0x0E, 0x00, 0x10, 0x00, 0x10, 0x00, 0x00, 0x00, 0x00, 0xDE, 0xAD, 0xBE, 0xEF]
    && ActivationResponseBytes(
         ActivationResponse(0x0E00, 0x1000, DeniedUnknownSourceAddress, [0xAA, 0xBB, 0xCC, 0xDD], None))
       == [0x0E, 0x00, 0x10, 0x00, 0x00, 0xAA, 0xBB, 0xCC, 0xDD]
  }

  lemma ActivationResponsesHold()
    ensures ActivationResponses()
  {
  }

  predicate WithoutGroupId() {
    && IdentificationBytes(
         Identification([0x31, 0x48, 0x47, 0x43, 0x4D, 0x38, 0x32, 0x36, 0x33, 0x33, 0x41, 0x30, 0x30, 0x34, 0x33, 0x35, 0x32],
                        0x1000, [0xAA, 0xBB, 0xCC, 0xDD, 0xEE, 0xFF], None, NoFurtherAction, Synchronized))
       == [0x31, 0x48, 0x47, 0x43, 0x4D, 0x38, 0x32, 0x36, 0x33, 0x33, 0x41, 0x30, 0x30, 0x34, 0x33, 0x35, 0x32,
           0x10, 0x00, 0xAA, 0xBB, 0xCC, 0xDD, 0xEE, 0xFF, 0x00, 0x00, 0x00, 0x00, 0x00, 0x00, 0x00, 0x00]
  }

  lemma WithoutGroupIdHold()
    ensures WithoutGroupId()
  {
  }

  function Repeated(b: u8): Bytes17 {
    [b, b, b, b, b, b, b, b, b, b, b, b, b, b, b, b, b]
  }

  predicate WithGroupId() {
    && IdentificationBytes(Identification(Repeated(0x41), 0x0E00, [0x01, 0x02, 0x03, 0x04, 0x05, 0x06],
                                          Some([0x0A, 0x0B, 0x0C, 0x0D, 0x0E, 0x0F]), NoFurtherAction, Synchronized))
       == Repeated(0x41)
          + [0x0E, 0x00, 0x01, 0x02, 0x03, 0x04, 0x05, 0x06, 0x0A, 0x0B, 0x0C, 0x0D, 0x0E, 0x0F, 0x00, 0x00]
    && IdentificationBytes(Identification(Repeated(0x30), 0xE400, [0x00, 0x00, 0x00, 0x00, 0x00, 0x01],
                                          Some([0x01, 0x01, 0x01, 0x01, 0x01, 0x01]),
                                          CentralSecurityActivationRequired, NotSynchronized))
       == Repeated(0x30)
          + [0xE4, 0x00, 0x00, 0x00, 0x00, 0x00, 0x00, 0x01, 0x01, 0x01, 0x01, 0x01, 0x01, 0x01, 0x10, 0x10]
  }

  lemma WithGroupIdHold()
    ensures WithGroupId()
  {
    hide Repeated;
  }

  /** Every fixture of a header, a code or a body is what the model prints. */
  lemma GoldenFixtures()
    ensures Headers() && CodeBytes() && Statuses() && Diagnostics()
    ensures ActivationRequests() && ActivationResponses() && WithoutGroupId() && WithGroupId()
  {
    hide Headers, CodeBytes, Statuses, Diagnostics, ActivationRequests, ActivationResponses, WithoutGroupId, WithGroupId;
    HeadersHold();
    CodeBytesHold();
    StatusesHold();
    DiagnosticsHold();
    ActivationRequestsHold();
    ActivationResponsesHold();
    WithoutGroupIdHold();
    WithGroupIdHold();
  }
}
