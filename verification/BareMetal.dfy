/**
 * The bare-metal entity as it runs: one reassembly buffer compacted in place, one transmit buffer
 * every reply is staged in, one UDS response buffer, one routing-activation slot. The transmit buffer
 * is not part of the abstract state: nothing the entity does depends on what is left in it.
 */
module BareMetal {
  import opened Wire
  import opened Codes
  import opened Messages
  import opened Framer
  import opened Encoder
  import opened EntitySpec

  class Entity {
    var vin: Bytes17
    var eid: Bytes6
    var gid: Bytes6
    var logicalAddress: u16
    var callbacks: Option<UdsHandler>
    var activeTester: Option<u16>
    var rxLen: nat
    const rxBuf: array<u8>
    const txBuf: array<u8>
    const udsRespBuf: array<u8>

    // What the platform behind the callbacks has seen.
    var trace: Trace

    ghost predicate Valid()
      reads this
    {
      && rxBuf.Length == TCP_RX_CAP
      && txBuf.Length == TX_CAP
      && udsRespBuf.Length == UDS_RESP_CAP
      && rxLen <= TCP_RX_CAP
    }

    ghost function SessionView(): Session
      requires Valid()
      reads this, udsRespBuf
    {
      Session(activeTester, udsRespBuf[..], trace)
    }

    ghost function View(): State
      requires Valid()
      reads this, rxBuf, udsRespBuf
    {
      State(Config(vin, eid, gid, logicalAddress), callbacks, rxBuf[..rxLen], SessionView())
    }

    constructor ()
      ensures Valid() && View() == NewEntity()
      ensures fresh(rxBuf) && fresh(txBuf) && fresh(udsRespBuf)
    {
      vin, eid, gid := seq(17, i => 0), ZEROS6, ZEROS6;
      logicalAddress := 0;
      callbacks := None;
      activeTester := None;
      rxLen := 0;
      rxBuf := new u8[TCP_RX_CAP](_ => 0);
      txBuf := new u8[TX_CAP](_ => 0);
      var uds := new u8[UDS_RESP_CAP](_ => 0);
      udsRespBuf := uds;
      trace := [];
      new;
      assert udsRespBuf[..] == seq(UDS_RESP_CAP, i => 0);
    }

    // ------------------------------------------------------------ platform calls

    method Init(config: Config, handler: UdsHandler)
      requires Valid()
      modifies this
      ensures Valid() && View() == Apply(old(View()), Input.Init(config, handler))
    {
      vin := config.vin;
      eid := config.eid;
      gid := config.gid;
      logicalAddress := config.address;
      callbacks := Some(handler);
      DropConnection();
      trace := trace + [Started(config.address)];
    }

    method Deinit()
      requires Valid()
      modifies this
      ensures Valid() && View() == Apply(old(View()), Input.Deinit)
    {
      callbacks := None;
      DropConnection();
      trace := trace + [Stopped];
    }

    method OnTcpDisconnect()
      requires Valid()
      modifies this
      ensures Valid() && View() == Apply(old(View()), TcpDisconnect)
    {
      DropConnection();
      trace := trace + [Disconnected];
    }

    method DropConnection()
      requires Valid()
      modifies `activeTester, `rxLen
      ensures Valid() && View() == old(View()).Reset()
    {
      activeTester := None;
      rxLen := 0;
    }

    method OnUdpRx(source: u32, port: u16, data: Bytes)
      requires Valid()
      modifies `trace, txBuf
      ensures Valid() && View() == Apply(old(View()), UdpRx(source, port, data))
    {
      hide TryFrame, DecodePayload, EncodeMessage;
      if callbacks.None? || data == [] {
        return;
      }
      var framed := TryFrame(data);
      var reply: Option<Message>;
      if framed.Err? {
        reply := FramedMessage(NegativeAcknowledge, DoIPNack(IncorrectPatternFormat));
      } else if framed.value.None? {
        return;
      } else {
        var frame := framed.value.value.0;
        match DecodePayload(frame.payload, frame.header.payloadType) {
          case Ok(VehicleIdentificationRequest) => reply := VehicleAnnouncementReply();
          case Ok(EntityStatusRequest) => reply := EntityStatusReply();
          case Ok(_) => reply := None;
          case Err(_) => reply := FramedMessage(NegativeAcknowledge, DoIPNack(UnknownPayloadType));
        }
      }
      assert reply == UdpReply(old(View()).config, old(View()).session.tester, data);
      if reply.Some? {
        SendUdpMsg(source, port, reply.value);
      }
    }

    method OnTcpRx(data: Bytes) returns (verdict: Verdict)
      requires Valid()
      modifies this, rxBuf, txBuf, udsRespBuf
      ensures Valid() && View() == Apply(old(View()), TcpRx(data))
      ensures verdict == ReceiveTcp(old(View()), data).1
    {
      hide Process;
      if callbacks.None? {
        verdict := Close;
      } else if data == [] {
        verdict := KeepOpen;
      } else {
        verdict := HandleTcpBytes(callbacks.value, data);
      }
      trace := trace + [Answered(verdict)];
    }

    // ---------------------------------------------------------------- UDP replies

    method VehicleAnnouncementReply() returns (m: Option<Message>)
      requires Valid()
      ensures m == Announcement(View().config)
    {
      var groupId: Option<Bytes6> := if gid == ZEROS6 then None else Some(gid);
      m := FramedMessage(PayloadType.VehicleAnnouncement, Payload.VehicleAnnouncement(
        Identification(vin, logicalAddress, eid, groupId, NoFurtherAction, Synchronized)));
    }

    method EntityStatusReply() returns (m: Option<Message>)
      requires Valid()
      ensures m == StatusReport(View().session.tester)
    {
      m := FramedMessage(PayloadType.EntityStatusResponse, Payload.EntityStatusResponse(
        EntityStatus(Node, 1, if activeTester.Some? then 1 else 0, MAX_RX_PAYLOAD)));
    }

    method SendUdpMsg(source: u32, port: u16, m: Message)
      requires Valid()
      modifies `trace, txBuf
      ensures Valid()
      ensures View() == match StagedBytes(m)
                        case Some(bytes) => old(View()).Log(UdpSent(source, port, bytes))
                        case None => old(View())
    {
      hide EncodeMessage;
      var len := EncodeInto(txBuf, m);
      if len.Some? {
        trace := trace + [UdpSent(source, port, txBuf[..len.value])];
      }
    }

    // ---------------------------------------------------------------- TCP replies

    method SendTcpMsg(m: Message)
      requires Valid()
      modifies `trace, txBuf
      ensures Valid() && View() == old(View()).(session := SendTcp(old(SessionView()), m))
    {
      hide EncodeMessage;
      var len := EncodeInto(txBuf, m);
      if len.Some? {
        trace := trace + [TcpSent(txBuf[..len.value])];
      }
    }

    method SendTcpNack(code: NackCode)
      requires Valid()
      modifies `trace, txBuf
      ensures Valid() && View() == old(View()).(session := SendNack(old(SessionView()), code))
    {
      hide SendTcp;
      var m := FramedMessage(NegativeAcknowledge, DoIPNack(code));
      if m.Some? {
        SendTcpMsg(m.value);
      }
    }

    method SendDiagAck(t: PayloadType, tester: u16, code: DiagnosticAckCode)
      requires Valid()
      modifies `trace, txBuf
      ensures Valid()
      ensures View() == old(View()).(session := SendAck(old(SessionView()), logicalAddress, t, tester, code))
    {
      hide SendTcp;
      var m := FramedMessage(t, DiagnosticMessageAck(AckBody(logicalAddress, tester, code, [])));
      if m.Some? {
        SendTcpMsg(m.value);
      }
    }

    // ------------------------------------------------------------- frame handling

    method HandleRoutingActivation(req: ActivationRequest) returns (verdict: Verdict)
      requires Valid()
      modifies `activeTester, `trace, txBuf
      ensures Valid()
      ensures var (s, v) := HandleActivation(old(SessionView()), logicalAddress, req);
              View() == old(View()).(session := s) && verdict == v
    {
      hide SendTcp;
      var code;
      if !IsValidClientAddress(req.source) {
        code, verdict := DeniedUnknownSourceAddress, Close;
      } else if !(req.activationType.Default? || req.activationType.RegulationRequired?) {
        code, verdict := DeniedUnsupportedRoutingActivationType, Close;
      } else if activeTester.Some? && activeTester.value != req.source {
        code, verdict := DeniedSourceAddressAlreadyActivated, Close;
      } else {
        activeTester := Some(req.source);
        code, verdict := RoutingSuccessfullyActivated, KeepOpen;
      }
      SendTcpMsg(ActivationResponseMessage(V2012, req.source, logicalAddress, code, [0, 0, 0, 0], None));
    }

    /** Hand a request to the platform's dispatch and send what it wrote, if it reports a length. */
    method DispatchUds(h: UdsHandler, tester: u16, request: Bytes)
      requires Valid()
      modifies `trace, txBuf, udsRespBuf
      ensures Valid()
      ensures View() == old(View()).(session := Dispatch(old(SessionView()), logicalAddress, h, tester, request))
    {
      hide SendTcp;
      var reply := h(trace, request, udsRespBuf[..]);
      forall i | 0 <= i < UDS_RESP_CAP {
        udsRespBuf[i] := reply.buffer[i];
      }
      assert udsRespBuf[..] == reply.buffer;
      trace := trace + [UdsCalled(request, reply)];
      var written := if reply.returned < 0 then 0 else reply.returned;
      if written > 0 {
        var len := if written < UDS_RESP_CAP then written else UDS_RESP_CAP;
        assert udsRespBuf[..len] == reply.Response();
        SendTcpMsg(DiagnosticMessageOf(V2012, logicalAddress, tester, udsRespBuf[..len]));
      }
    }

    method HandleDiagnosticMessage(h: UdsHandler, dm: DiagnosticBody) returns (verdict: Verdict)
      requires Valid()
      modifies `trace, txBuf, udsRespBuf
      ensures Valid()
      ensures var (s, v) := HandleDiagnostic(old(SessionView()), logicalAddress, h, dm);
              View() == old(View()).(session := s) && verdict == v
    {
      hide SendAck, Dispatch;
      if activeTester.None? {
        SendDiagAck(DiagnosticMessageNegativeAcknowledge, dm.source, InvalidSourceAddress);
        return Close;
      }
      var tester := activeTester.value;
      if dm.source != tester {
        SendDiagAck(DiagnosticMessageNegativeAcknowledge, tester, InvalidSourceAddress);
        return Close;
      }
      if dm.target != logicalAddress {
        SendDiagAck(DiagnosticMessageNegativeAcknowledge, tester, UnknownTargetAddress);
        return KeepOpen;
      }
      SendDiagAck(DiagnosticMessagePositiveAcknowledge, tester, RoutingConfirmationAck);
      DispatchUds(h, tester, dm.userData);
      return KeepOpen;
    }

    method HandleTcpFrame(h: UdsHandler, frame: RawFrame) returns (verdict: Verdict)
      requires Valid()
      modifies `activeTester, `trace, txBuf, udsRespBuf
      ensures Valid()
      ensures var (s, v) := HandleFrame(old(SessionView()), logicalAddress, h, frame);
              View() == old(View()).(session := s) && verdict == v
    {
      hide DecodePayload, HandleActivation, HandleDiagnostic, SendNack;
      trace := trace + [Framed(frame)];
      match DecodePayload(frame.payload, frame.header.payloadType)
      case Ok(RoutingActivationRequest(req)) => verdict := HandleRoutingActivation(req);
      case Ok(DiagnosticMessage(dm)) => verdict := HandleDiagnosticMessage(h, dm);
      case _ =>
        SendTcpNack(UnknownPayloadType);
        verdict := KeepOpen;
    }

    // ----------------------------------------------------------------- reassembly

    /** Shift the unread bytes to the front of the buffer. */
    method Compact(consumed: nat)
      requires Valid() && consumed <= rxLen
      modifies `rxLen, rxBuf
      ensures Valid() && View() == old(View()).(rx := old(View()).rx[consumed..])
    {
      forall i | 0 <= i < rxLen - consumed {
        rxBuf[i] := rxBuf[consumed + i];
      }
      rxLen := rxLen - consumed;
      assert rxBuf[..rxLen] == old(rxBuf[..rxLen])[consumed..];
    }

    method HandleTcpBytes(h: UdsHandler, data: Bytes) returns (verdict: Verdict)
      requires Valid() && callbacks == Some(h) && data != []
      modifies `rxLen, `activeTester, `trace, rxBuf, txBuf, udsRespBuf
      ensures Valid() && (View(), verdict) == ReceiveTcp(old(View()), data)
    {
      hide Process, SendNack;
      if rxLen + |data| > TCP_RX_CAP {
        SendTcpNack(NackCode.OutOfMemory);
        return Close;
      }
      forall i | 0 <= i < |data| {
        rxBuf[rxLen + i] := data[i];
      }
      rxLen := rxLen + |data|;
      assert rxBuf[..rxLen] == old(View()).rx + data;
      assert udsRespBuf[..] == old(udsRespBuf[..]);
      assert View() == old(View()).(rx := old(View()).rx + data);
      verdict := DrainBuffer(h);
    }

    /** Handle buffered frames one after another, compacting the buffer behind each. */
    method DrainBuffer(h: UdsHandler) returns (verdict: Verdict)
      requires Valid()
      modifies `rxLen, `activeTester, `trace, rxBuf, txBuf, udsRespBuf
      ensures Valid()
      ensures var o := Process(old(SessionView()), logicalAddress, h, old(View()).rx);
              View() == old(View()).(rx := o.rest, session := o.session) && verdict == o.verdict
    {
      hide HandleFrame, TryFrame, Oversize, SendNack;
      ghost var goal := Process(SessionView(), logicalAddress, h, View().rx);
      while true
        invariant Valid()
        invariant Process(SessionView(), logicalAddress, h, View().rx) == goal
        decreases rxLen
      {
        ghost var session, buffered := SessionView(), View().rx;
        var oversize := HeaderTooLarge();
        if oversize {
          assert goal == Outcome(SendNack(session, MessageTooLarge), buffered, Close);
          SendTcpNack(MessageTooLarge);
          return Close;
        }
        var framed := TryFrame(rxBuf[..rxLen]);
        if framed.Err? {
          assert goal == Outcome(SendNack(session, IncorrectPatternFormat), buffered, Close);
          SendTcpNack(IncorrectPatternFormat);
          return Close;
        }
        if framed.value.None? {
          return KeepOpen;
        }
        var (frame, consumed) := framed.value.value;
        verdict := HandleTcpFrame(h, frame);
        if verdict != KeepOpen {
          return verdict;
        }
        Compact(consumed);
      }
    }

    /** Does the buffer start with a valid header announcing more than can ever be reassembled? */
    method HeaderTooLarge() returns (r: bool)
      requires Valid()
      ensures r <==> Oversize(rxBuf[..rxLen])
    {
      hide DecodeHeader;
      if rxLen < HEADER_SIZE {
        return false;
      }
      assert rxBuf[..rxLen][..HEADER_SIZE] == rxBuf[..HEADER_SIZE];
      var header := DecodeHeader(rxBuf[..HEADER_SIZE]);
      return header.Ok? && header.value.0.length > MAX_RX_PAYLOAD;
    }
  }
}
