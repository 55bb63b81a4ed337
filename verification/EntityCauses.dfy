/**
 * Each event of a run against the input that caused it: which refusal answers which bytes, which
 * callback was called with what, which bytes went out for its answer, and whose identity is announced.
 */
module EntityCauses {
  import opened Wire
  import opened Codes
  import opened Messages
  import opened Framer
  import opened EntitySpec
  import opened EntityTrace
  import opened EntityRuns
  import opened EntityConservation

  // ----------------------------------------------------------- events and inputs

  /** What one input adds: a mark of its own, at most one datagram, or a chunk's events and its verdict. */
  lemma InputAdds(st: State, input: Input) returns (more: Trace)
    ensures Apply(st, input).session.trace == st.session.trace + more
    ensures input.TcpRx? ==>
              more != [] && more[|more| - 1] == Answered(ReceiveTcp(st, input.data).1)
              && forall i :: 0 <= i < |more| - 1 ==> OfSession(more[i])
    ensures !input.TcpRx? ==> forall i :: 0 <= i < |more| ==> Resets(more[i]) || more[i].UdpSent?
  {
    hide ReceiveTcp, ReceiveUdp;
    match input
    case Init(config, _) => more := [Started(config.address)];
    case Deinit => more := [Stopped];
    case TcpDisconnect => more := [Disconnected];
    case UdpRx(_, _, _) => more := DatagramAdds(st, input);
    case TcpRx(data) =>
      var events := ChunkAdds(st, data);
      more := events + [Answered(ReceiveTcp(st, data).1)];
  }

  /** The input during which an event was recorded. */
  lemma {:induction false} EventHasInput(inputs: seq<Input>, j: nat) returns (n: nat)
    requires j < |TraceOf(inputs)|
    ensures n < |inputs| && |TraceOf(inputs[..n])| <= j < |TraceOf(inputs[..n + 1])|
    ensures TraceOf(inputs[..n]) <= TraceOf(inputs[..n + 1]) <= TraceOf(inputs)
    ensures Run(NewEntity(), inputs[..n + 1]) == Apply(Run(NewEntity(), inputs[..n]), inputs[n])
  {
    hide Apply;
    var last := |inputs| - 1;
    var front := inputs[..last];
    var more := InputAdds(Run(NewEntity(), front), inputs[last]);
    assert inputs[..last + 1] == inputs;
    if j < |TraceOf(front)| {
      n := EventHasInput(front, j);
      assert front[..n] == inputs[..n] && front[..n + 1] == inputs[..n + 1];
    } else {
      n := last;
    }
  }

  // ------------------------------------------------------------ why it closed

  /**
   * The bytes at which the entity stopped, and the reply that names the reason: a broken header is
   * answered with NACK 0x00, a header that announces more than 2040 bytes with NACK 0x02, and a whole
   * frame that is refused with its own refusal.
   */
  predicate Explains(own: u16, tester: Option<u16>, front: Bytes, d: Bytes) {
    |front| >= 8 &&
    if front[1] != 0xFF - front[0] then d == NackFrame(0x00)
    else if U32At(front, 4) > 2040 then d == NackFrame(0x02)
    else StartsWithFrame(front) && Refused(tester, FirstFrame(front)) && d == ReplyTo(own, tester, FirstFrame(front))
  }

  lemma HeaderExplains(own: u16, tester: Option<u16>, buf: Bytes)
    ensures Oversize(buf) ==> Explains(own, tester, buf, NackFrame(0x02))
    ensures !Oversize(buf) && TryFrame(buf).Err? ==> Explains(own, tester, buf, NackFrame(0x00))
    ensures !Oversize(buf) && StartsWithFrame(buf) ==> buf[1] == 0xFF - buf[0] && U32At(buf, 4) <= 2040
  {
    hide TryFrame, DecodeHeader, NackFrame, Refused, ReplyTo;
    FramingByBytes(buf);
    if |buf| >= HEADER_SIZE {
      HeaderByBytes(buf[..HEADER_SIZE]);
    }
  }

  /** The last thing sent before giving up explains it. */
  lemma {:induction false} RefusalExplains(s: Session, own: u16, h: UdsHandler, buf: Bytes)
    requires Process(s, own, h, buf).verdict.Close?
    ensures var o := Process(s, own, h, buf);
            && o.session.trace != [] && o.session.trace[|o.session.trace| - 1].TcpSent?
            && Explains(own, o.session.tester, o.rest, o.session.trace[|o.session.trace| - 1].data)
    decreases |buf|
  {
    hide HandleFrame, TryFrame, Oversize, SendNack, NackFrame, Refused, ReplyTo;
    HeaderExplains(own, s.tester, buf);
    if Oversize(buf) || TryFrame(buf).Err? {
      NackIsSent(s, if Oversize(buf) then MessageTooLarge else IncorrectPatternFormat);
    } else {
      var (f, n) := TryFrame(buf).value.value;
      RefusedFrame(s, own, h, f);
      if !Refused(s.tester, f) {
        RefusalExplains(HandleFrame(s, own, h, f).0, own, h, buf[n..]);
      }
    }
  }

  /** What a chunk that closes was answered with: NACK 0x03 exactly when it does not fit into 2048 bytes. */
  lemma ClosingChunk(st: State, data: Bytes) returns (d: Bytes)
    requires st.handler.Some? && ReceiveTcp(st, data).1.Close?
    ensures data != [] && ReceiveTcp(st, data).0.session.trace != []
    ensures var tr := ReceiveTcp(st, data).0.session.trace; tr[|tr| - 1] == TcpSent(d)
    ensures |st.rx| + |data| > 2048 ==> d == NackFrame(0x03) && ReceiveTcp(st, data).0.rx == st.rx
    ensures |st.rx| + |data| <= 2048 ==>
              var after := ReceiveTcp(st, data).0;
              Explains(st.config.address, after.session.tester, after.rx, d)
  {
    hide Process, SendNack, Explains;
    NackIsSent(st.session, NackCode.OutOfMemory);
    if Fits(st.rx, data) {
      RefusalExplains(st.session, st.config.address, st.handler.value, st.rx + data);
    }
    var tr := ReceiveTcp(st, data).0.session.trace;
    d := tr[|tr| - 1].data;
  }

  lemma {:induction false} OwnIsKept(tr: Trace, more: Trace)
    requires forall i :: 0 <= i < |more| ==> OfSession(more[i])
    ensures Watch(tr + more).own == Watch(tr).own
  {
    hide Accepted, Refused, Activates, Reported;
    if more == [] {
      assert tr + more == tr;
    } else {
      var (front, e) := (more[..|more| - 1], more[|more| - 1]);
      OwnIsKept(tr, front);
      Extend(tr + front, e);
      assert (tr + front) + [e] == tr + more;
    }
  }

  /**
   * A running entity closes only for cause, at any point of any run: the chunk `n` that was answered
   * by closing did not fit, or left at the front of the buffer the very bytes that the refusal sent
   * right before the verdict names.
   */
  lemma CloseHasOneCause(inputs: seq<Input>, i: nat) returns (n: nat)
    requires i < |TraceOf(inputs)| && TraceOf(inputs)[i] == Answered(Close) && OwnAt(TraceOf(inputs), i).Some?
    ensures n < |inputs| && inputs[n].TcpRx? && TraceOf(inputs[..n + 1]) == TraceOf(inputs)[..i + 1]
    ensures i >= 1 && TraceOf(inputs)[i - 1].TcpSent?
    ensures var (st, after) := (Run(NewEntity(), inputs[..n]), Run(NewEntity(), inputs[..n + 1]));
            var d := TraceOf(inputs)[i - 1].data;
            && OwnAt(TraceOf(inputs), i) == Some(st.config.address)
            && (if |st.rx| + |inputs[n].data| > 2048 then d == NackFrame(0x03) && after.rx == st.rx
                else Explains(st.config.address, after.session.tester, after.rx, d))
  {
    hide Run, ReceiveTcp, Explains, NackFrame, Watch, Lawful, WellFormed;
    n := EventHasInput(inputs, i);
    var st := Run(NewEntity(), inputs[..n]);
    var (tr, before) := (TraceOf(inputs), st.session.trace);
    var more := InputAdds(st, inputs[n]);
    assert TraceOf(inputs[..n + 1]) == before + more;
    assert tr[i] == (before + more)[i] == more[i - |before|];
    var after := ReceiveTcp(st, inputs[n].data).0;
    assert i == |before| + |more| - 1;
    assert after.session.trace + [Answered(Close)] == before + more;
    assert tr[..i] == after.session.trace && tr[..i + 1] == before + more;
    EveryRunIsLawful(inputs[..n]);
    OwnIsKept(before, more[..|more| - 1]);
    assert before + more[..|more| - 1] == tr[..i];
    var _ := ClosingChunk(st, inputs[n].data);
  }

  // -------------------------------------------------------- what was called and answered

  /** The response buffer as the last call left it; zeros before the first. */
  function BufferAfter(tr: Trace): UdsBuffer {
    if tr == [] then NewEntity().session.uds
    else if tr[|tr| - 1].UdsCalled? then tr[|tr| - 1].reply.buffer
    else BufferAfter(tr[..|tr| - 1])
  }

  lemma BufferExtends(tr: Trace, e: Event)
    ensures BufferAfter(tr + [e]) == if e.UdsCalled? then e.reply.buffer else BufferAfter(tr)
  {
    assert (tr + [e])[..|tr|] == tr;
  }

  /** The call recorded at `j` is the callback applied to the past, the request and the buffer as it was left. */
  predicate Called(h: UdsHandler, tr: Trace, j: nat)
    requires j < |tr| && tr[j].UdsCalled?
  {
    tr[j].reply == h(tr[..j], tr[j].request, BufferAfter(tr[..j]))
  }

  /** From `from` on every recorded call is of this callback. */
  predicate AllCalled(h: UdsHandler, tr: Trace, from: nat) {
    forall j :: from <= j < |tr| && tr[j].UdsCalled? ==> Called(h, tr, j)
  }

  lemma CalledExtends(h: UdsHandler, tr: Trace, from: nat, e: Event)
    requires AllCalled(h, tr, from) && from <= |tr|
    requires e.UdsCalled? ==> e.reply == h(tr, e.request, BufferAfter(tr))
    ensures AllCalled(h, tr + [e], from)
  {
    hide BufferAfter;
    var all := tr + [e];
    assert all[..|tr|] == tr;
    forall j | from <= j < |all| && all[j].UdsCalled? ensures Called(h, all, j) {
      if j < |tr| {
        assert Called(h, tr, j);
        assert all[..j] == tr[..j];
      }
    }
  }

  ghost predicate Keeping(h: UdsHandler, s: Session, from: nat) {
    from <= |s.trace| && s.uds == BufferAfter(s.trace) && AllCalled(h, s.trace, from)
  }

  lemma LogKeeps(h: UdsHandler, s: Session, from: nat, e: Event, tester: Option<u16>)
    requires Keeping(h, s, from) && !e.UdsCalled?
    ensures Keeping(h, s.(tester := tester).Log(e), from)
  {
    hide BufferAfter, AllCalled;
    CalledExtends(h, s.trace, from, e);
    BufferExtends(s.trace, e);
  }

  lemma DispatchKeeps(s: Session, own: u16, h: UdsHandler, tester: u16, request: Bytes, from: nat)
    requires Keeping(h, s, from)
    ensures Keeping(h, Dispatch(s, own, h, tester, request), from)
  {
    hide BufferAfter, AllCalled, Dispatch, DiagnosticFrame;
    Dispatched(s, own, h, tester, request);
    var reply := h(s.trace, request, s.uds);
    var called := s.(uds := reply.buffer).Log(UdsCalled(request, reply));
    CalledExtends(h, s.trace, from, UdsCalled(request, reply));
    BufferExtends(s.trace, UdsCalled(request, reply));
    LogKeeps(h, called, from, TcpSent(DiagnosticFrame(own, tester, Reported(reply))), called.tester);
  }

  lemma FrameKeeps(s: Session, own: u16, h: UdsHandler, f: RawFrame, from: nat)
    requires Keeping(h, s, from)
    ensures Keeping(h, HandleFrame(s, own, h, f).0, from)
  {
    hide Keeping, HandleFrame, ReplyTo, Dispatch;
    var reply := TcpSent(ReplyTo(own, s.tester, f));
    LogKeeps(h, s, from, Framed(f), s.tester);
    var framed := s.Log(Framed(f));
    LogKeeps(h, framed, from, reply, s.tester);
    if IsActivation(f) {
      HandledActivation(s, own, h, f);
      LogKeeps(h, framed, from, reply, HandleFrame(s, own, h, f).0.tester);
    } else if IsDiagnostic(f) {
      HandledDiagnostic(s, own, h, f);
      DispatchKeeps(framed.Log(reply), own, h, SourceOf(f), f.payload[4..], from);
    } else {
      HandledOther(s, own, h, f);
    }
  }

  lemma {:induction false} ProcessKeeps(s: Session, own: u16, h: UdsHandler, buf: Bytes, from: nat)
    requires Keeping(h, s, from)
    ensures Keeping(h, Process(s, own, h, buf).session, from)
    decreases |buf|
  {
    hide Keeping, HandleFrame, TryFrame, Oversize, SendNack, NackFrame;
    if Oversize(buf) || TryFrame(buf).Err? {
      var code := if Oversize(buf) then MessageTooLarge else IncorrectPatternFormat;
      NackIsSent(s, code);
      LogKeeps(h, s, from, TcpSent(NackFrame(code.Byte())), s.tester);
    } else if TryFrame(buf) != Ok(None) {
      var (f, n) := TryFrame(buf).value.value;
      FrameKeeps(s, own, h, f, from);
      ProcessKeeps(HandleFrame(s, own, h, f).0, own, h, buf[n..], from);
    }
  }

  lemma ChunkKeeps(st: State, data: Bytes)
    requires st.handler.Some? && st.session.uds == BufferAfter(st.session.trace)
    ensures Keeping(st.handler.value, Apply(st, TcpRx(data)).session, |st.session.trace|)
  {
    hide Process, SendNack, NackFrame, BufferAfter;
    var (h, s, from) := (st.handler.value, st.session, |st.session.trace|);
    NackIsSent(s, NackCode.OutOfMemory);
    LogKeeps(h, s, from, TcpSent(NackFrame(0x03)), s.tester);
    ProcessKeeps(s, st.config.address, h, st.rx + data, from);
    var (after, v) := ReceiveTcp(st, data);
    LogKeeps(h, after.session, from, Answered(v), after.session.tester);
  }

  lemma {:induction false} BufferIsKept(inputs: seq<Input>)
    ensures Run(NewEntity(), inputs).session.uds == BufferAfter(TraceOf(inputs))
  {
    hide ReceiveTcp, BufferAfter;
    if inputs == [] {
      assert BufferAfter([]) == NewEntity().session.uds by { NothingCalled(); }
    } else {
      var (front, last) := (inputs[..|inputs| - 1], inputs[|inputs| - 1]);
      BufferIsKept(front);
      StepKeepsBuffer(Run(NewEntity(), front), last);
    }
  }

  lemma NothingCalled()
    ensures BufferAfter([]) == NewEntity().session.uds
  {
  }

  lemma StepKeepsBuffer(st: State, input: Input)
    requires st.session.uds == BufferAfter(st.session.trace)
    ensures Apply(st, input).session.uds == BufferAfter(Apply(st, input).session.trace)
  {
    hide BufferAfter, ReceiveUdp;
    if input.TcpRx? && st.handler.Some? {
      ChunkKeeps(st, input.data);
    } else {
      match input
      case Init(config, _) => BufferExtends(st.session.trace, Started(config.address));
      case Deinit => BufferExtends(st.session.trace, Stopped);
      case TcpDisconnect => BufferExtends(st.session.trace, Disconnected);
      case TcpRx(_) => BufferExtends(st.session.trace, Answered(Close));
      case UdpRx(_, _, _) =>
        var more := DatagramAdds(st, input);
        if more == [] {
          assert st.session.trace + more == st.session.trace;
        } else {
          assert more == [more[0]];
          BufferExtends(st.session.trace, more[0]);
        }
    }
  }

  /** The identity and callback of the last start, unless stopped since. */
  function Adopted(inputs: seq<Input>): Option<(Config, UdsHandler)> {
    if inputs == [] then None
    else
      match inputs[|inputs| - 1]
      case Init(config, handler) => Some((config, handler))
      case Deinit => None
      case _ => Adopted(inputs[..|inputs| - 1])
  }

  /** An entity runs exactly between a start and a stop, and then under what that start handed over. */
  lemma {:induction false} StartIsAdopted(inputs: seq<Input>)
    ensures var st := Run(NewEntity(), inputs);
            && (st.handler.Some? <==> Adopted(inputs).Some?)
            && (Adopted(inputs).Some? ==> (st.config, st.handler.value) == Adopted(inputs).value)
  {
    hide Process, UdpReply, StagedBytes, SendNack;
    if inputs != [] {
      StartIsAdopted(inputs[..|inputs| - 1]);
    }
  }

  /**
   * Every UDS call of every run is the callback of the last start, given all that happened before, the
   * request, and the response buffer as the last call left it.
   */
  lemma CallsReachTheCallback(inputs: seq<Input>, j: nat) returns (n: nat)
    requires j < |TraceOf(inputs)| && TraceOf(inputs)[j].UdsCalled?
    ensures n < |inputs| && inputs[n].TcpRx? && |TraceOf(inputs[..n])| <= j < |TraceOf(inputs[..n + 1])|
    ensures Adopted(inputs[..n]).Some? && Called(Adopted(inputs[..n]).value.1, TraceOf(inputs), j)
  {
    hide Run, Apply, BufferAfter, Adopted, Watch, Lawful;
    n := EventHasInput(inputs, j);
    var st := Run(NewEntity(), inputs[..n]);
    var (tr, part) := (TraceOf(inputs), TraceOf(inputs[..n + 1]));
    var more := InputAdds(st, inputs[n]);
    assert tr[j] == part[j] == more[j - |st.session.trace|];
    StartIsAdopted(inputs[..n]);
    BufferIsKept(inputs[..n]);
    if st.handler.None? {
      StoppedIsSilent(st, inputs[n].data);
    }
    ChunkKeeps(st, inputs[n].data);
    assert Called(st.handler.value, part, j);
    assert part[..j] == tr[..j];
  }

  lemma StoppedIsSilent(st: State, data: Bytes)
    requires st.handler.None?
    ensures Apply(st, TcpRx(data)) == st.Log(Answered(Close))
  {
  }

  /** The response to a call, byte by byte: twelve bytes of header and addresses, then what the callback left. */
  predicate IsResponse(own: u16, tester: u16, reply: UdsReply, d: Bytes) {
    var n := if reply.returned < 1024 then reply.returned else 1024;
    && reply.returned > 0 && |d| == 12 + n
    && d[..8] == [0x02, 0xFD, 0x80, 0x01] + U32Bytes(4 + n) && d[8..12] == U16Bytes(own) + U16Bytes(tester)
    && forall k :: 0 <= k < n ==> d[12 + k] == reply.buffer[k]
  }

  lemma ReportedIsResponse(own: u16, tester: u16, reply: UdsReply)
    requires reply.returned > 0
    ensures IsResponse(own, tester, reply, DiagnosticFrame(own, tester, Reported(reply)))
  {
    hide U16Bytes, U32Bytes;
    var data := Reported(reply);
    var d := DiagnosticFrame(own, tester, data);
    var head := [0x02, 0xFD, 0x80, 0x01] + U32Bytes(4 + |data|);
    assert d == head + (U16Bytes(own) + U16Bytes(tester)) + data;
    assert d[..8] == head && d[8..12] == U16Bytes(own) + U16Bytes(tester) && d[12..] == data;
    forall k | 0 <= k < |data| ensures d[12 + k] == reply.buffer[k] {
      assert d[12 + k] == d[12..][k];
    }
  }

  /**
   * Whenever the callback reports a length, the next thing sent is the response to the tester that was
   * acknowledged right before the call, with exactly the bytes the callback left, at most 1024 of them.
   */
  lemma ReportedBytesAreSent(inputs: seq<Input>, j: nat) returns (own: u16, tester: u16)
    requires j < |TraceOf(inputs)| && TraceOf(inputs)[j].UdsCalled? && TraceOf(inputs)[j].reply.returned > 0
    ensures var tr := TraceOf(inputs);
            && j >= 1 && tr[j - 1] == TcpSent(PositiveAckFrame(own, tester))
            && j + 1 < |tr| && tr[j + 1].TcpSent? && IsResponse(own, tester, tr[j].reply, tr[j + 1].data)
  {
    hide Run, Watch, Lawful, WellFormed, Activates, NackFrame, PositiveAckFrame, NegativeAckFrame, ActivationFrame,
      DiagnosticFrame, IsResponse, Reported;
    var tr := TraceOf(inputs);
    EveryRunIsLawful(inputs);
    StartIsQuiet(tr);
    LawfulAt(tr, j);
    CallIsOwed(tr, j);
    FramesAreAnswered(inputs, j - 2);
    own, tester := OwnAt(tr, j - 2).value, SourceOf(tr[j - 2].frame);
    ReportedIsResponse(own, tester, tr[j].reply);
  }

  /** Over runs: a datagram is answered under the identity of the last start, back to where it came from. */
  lemma DatagramsAreAnswered(inputs: seq<Input>, source: u32, port: u16, data: Bytes)
    ensures var (before, after) := (Run(NewEntity(), inputs), TraceOf(inputs + [UdpRx(source, port, data)]));
            after == before.session.trace +
                     match Adopted(inputs)
                     case None => []
                     case Some((config, _)) =>
                       match DatagramAnswer(config, before.session.tester, data)
                       case None => []
                       case Some(bytes) => [UdpSent(source, port, bytes)]
  {
    hide DatagramAnswer, Adopted, Apply;
    var all := inputs + [UdpRx(source, port, data)];
    assert all[..|all| - 1] == inputs;
    StartIsAdopted(inputs);
    DatagramReplies(Run(NewEntity(), inputs), source, port, data);
    assert TraceOf(inputs) + [] == TraceOf(inputs);
  }
}
