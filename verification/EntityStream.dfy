/**
 * Consequences of reassembly refinement: exactly when chunking is harmless, what datagrams cannot
 * influence, and the entity between an encoder and a decoder.
 */
module EntityStream {
  import opened Wire
  import opened Codes
  import opened Messages
  import opened RoundTrip
  import opened Framer
  import opened Codec
  import opened EntitySpec
  import opened EntityTrace
  import opened EntityRuns
  import opened EntityRefinement

  // ------------------------------------------------- chunking is harmless iff it fits

  /** How often "out of memory" was sent. */
  function Ooms(tr: Trace): nat {
    if tr == [] then 0
    else Ooms(tr[..|tr| - 1]) + (if tr[|tr| - 1] == TcpSent(NackFrame(0x03)) then 1 else 0)
  }

  lemma OomsExtend(tr: Trace, e: Event)
    ensures Ooms(tr + [e]) == Ooms(tr) + (if e == TcpSent(NackFrame(0x03)) then 1 else 0)
  {
    assert (tr + [e])[..|tr|] == tr;
  }

  lemma {:induction false} OomsAreSeen(tr: Trace)
    ensures Ooms(Seen(WithoutVerdicts, tr)) == Ooms(tr)
  {
    if tr != [] {
      var front, e := tr[..|tr| - 1], tr[|tr| - 1];
      OomsAreSeen(front);
      if InView(WithoutVerdicts, e) {
        OomsExtend(Seen(WithoutVerdicts, front), e);
      } else {
        assert Seen(WithoutVerdicts, front) + [] == Seen(WithoutVerdicts, front);
      }
    }
  }

  lemma TableNeverSaysOom(own: u16, active: Option<u16>, f: RawFrame)
    ensures ReplyTo(own, active, f) != NackFrame(0x03)
  {
    if IsActivation(f) || IsDiagnostic(f) {
      assert |ReplyTo(own, active, f)| > 9;
    } else {
      assert NackFrame(0x01)[8] == 0x01;
    }
  }

  lemma FrameSendsNoOom(s: Session, own: u16, h: UdsHandler, f: RawFrame)
    ensures Ooms(HandleFrame(s, own, h, f).0.trace) == Ooms(s.trace)
  {
    hide HandleFrame, ReplyTo, Dispatch, Ooms, NackFrame, DiagnosticFrame;
    var reply := TcpSent(ReplyTo(own, s.tester, f));
    OomsExtend(s.trace, Framed(f));
    TableNeverSaysOom(own, s.tester, f);
    OomsExtend(s.trace + [Framed(f)], reply);
    if IsActivation(f) {
      HandledActivation(s, own, h, f);
    } else if IsDiagnostic(f) {
      HandledDiagnostic(s, own, h, f);
      var replied := s.Log(Framed(f)).Log(reply);
      DispatchSendsNoOom(replied, own, h, SourceOf(f), f.payload[4..]);
    } else {
      HandledOther(s, own, h, f);
    }
  }

  lemma DispatchSendsNoOom(s: Session, own: u16, h: UdsHandler, tester: u16, request: Bytes)
    ensures Ooms(Dispatch(s, own, h, tester, request).trace) == Ooms(s.trace)
  {
    hide Dispatch, Ooms;
    Dispatched(s, own, h, tester, request);
    var reply := h(s.trace, request, s.uds);
    var call, d := UdsCalled(request, reply), DiagnosticFrame(own, tester, Reported(reply));
    assert |d| > |NackFrame(0x03)|;
    OomsExtend(s.trace, call);
    OomsExtend(s.trace + [call], TcpSent(d));
  }

  lemma NackCodesDiffer(code: NackCode)
    ensures NackFrame(code.Byte()) == NackFrame(0x03) <==> code.Byte() == 0x03
  {
    assert NackFrame(code.Byte())[8] == code.Byte() && NackFrame(0x03)[8] == 0x03;
  }

  lemma {:induction false} ProcessSendsNoOom(s: Session, own: u16, h: UdsHandler, buf: Bytes)
    ensures Ooms(Process(s, own, h, buf).session.trace) == Ooms(s.trace)
    decreases |buf|
  {
    hide HandleFrame, TryFrame, Oversize, SendNack, Ooms, NackFrame;
    var code := if Oversize(buf) then MessageTooLarge else IncorrectPatternFormat;
    NackIsSent(s, code);
    NackCodesDiffer(code);
    OomsExtend(s.trace, TcpSent(NackFrame(code.Byte())));
    match TryFrame(buf)
    case Ok(Some((f, n))) =>
      FrameSendsNoOom(s, own, h, f);
      ProcessSendsNoOom(HandleFrame(s, own, h, f).0, own, h, buf[n..]);
    case _ =>
  }

  /** Feeding sends "out of memory" once if some chunk does not fit, and then stops; otherwise never. */
  lemma {:induction false} OomMeansMisfit(st: State, chunks: seq<Bytes>)
    requires st.handler.Some? && Settled(st.rx)
    ensures Ooms(Feed(st, chunks).0.session.trace)
            == Ooms(st.session.trace) + (if AllFit(st, chunks) then 0 else 1)
    ensures !AllFit(st, chunks) ==> Feed(st, chunks).1.Close?
  {
    hide Process, Settled, SendNack, Ooms, NackFrame;
    if chunks != [] {
      var front, last := chunks[..|chunks| - 1], chunks[|chunks| - 1];
      OomMeansMisfit(st, front);
      FeedKeeps(st, front);
      var (before, verdict) := Feed(st, front);
      if verdict.KeepOpen? {
        SettledLeavesRoom(before.rx, 0);
        ProcessSendsNoOom(before.session, before.config.address, st.handler.value, before.rx + last);
        NackIsSent(before.session, NackCode.OutOfMemory);
        OomsExtend(before.session.trace, TcpSent(NackFrame(0x03)));
        var (after, v) := ReceiveTcp(before, last);
        OomsExtend(after.session.trace, Answered(v));
      }
    }
  }

  /** The bounded entity behaves as the unbounded parser exactly when every chunk found room. */
  lemma RefinementIsExact(st: State, chunks: seq<Bytes>)
    requires st.handler.Some? && Blind(WithoutVerdicts, st.handler.value) && Settled(st.rx)
    ensures Matches(st, chunks) <==> AllFit(st, chunks)
  {
    hide Process, Settled, Blind, Feed, AllFit, Ooms, Seen;
    if AllFit(st, chunks) {
      ReassemblyRefines(st, chunks);
    } else if Matches(st, chunks) {
      OomMeansMisfit(st, chunks);
      ProcessSendsNoOom(st.session, st.config.address, st.handler.value, st.rx + Joined(chunks));
      OomsAreSeen(Feed(st, chunks).0.session.trace);
      OomsAreSeen(WholeStream(st, chunks).session.trace);
    }
  }

  /** A chunk longer than the buffer is refused outright, even if the parser would have served every frame in it. */
  lemma LongChunkIsRefused(st: State, chunk: Bytes)
    requires st.handler.Some? && st.rx == [] && |chunk| > TCP_RX_CAP
    ensures Feed(st, [chunk]).1.Close? && Feed(st, [chunk]).0.rx == []
    ensures Blind(WithoutVerdicts, st.handler.value) ==> !Matches(st, [chunk])
  {
    hide Process, Blind, Matches;
    EmptyIsSettled();
    assert [chunk][..0] == [];
    if Blind(WithoutVerdicts, st.handler.value) {
      RefinementIsExact(st, [chunk]);
    }
  }

  /** A stream no longer than the buffer fits however it is cut. */
  lemma {:induction false} ShortStreamsFit(st: State, chunks: seq<Bytes>)
    requires st.handler.Some? && Settled(st.rx) && |st.rx| + |Joined(chunks)| <= TCP_RX_CAP
    ensures AllFit(st, chunks)
  {
    hide Feed, Settled;
    if chunks != [] {
      JoinedLast(chunks);
      ShortStreamsFit(st, chunks[..|chunks| - 1]);
      FeedKeeps(st, chunks[..|chunks| - 1]);
    }
  }

  // ------------------------------------------------------------------ non-interference

  /** States that differ only in datagrams sent. */
  ghost predicate Twins(a: State, b: State) {
    && a.config == b.config && a.handler == b.handler && a.rx == b.rx
    && a.session.tester == b.session.tester && a.session.uds == b.session.uds
    && Seen(WithVerdicts, a.session.trace) == Seen(WithVerdicts, b.session.trace)
  }

  ghost predicate BlindInput(input: Input) {
    input.Init? ==> Blind(WithVerdicts, input.handler)
  }

  ghost predicate BlindState(st: State) {
    st.handler.Some? ==> Blind(WithVerdicts, st.handler.value)
  }

  lemma TwinsLog(a: State, b: State, e: Event)
    requires Twins(a, b)
    ensures Twins(a.Log(e), b.Log(e))
  {
    SeenConcat(WithVerdicts, a.session.trace, [e]);
    SeenConcat(WithVerdicts, b.session.trace, [e]);
  }

  lemma TwinsReceiveTcp(a: State, b: State, data: Bytes)
    requires Twins(a, b) && BlindState(a)
    ensures ReceiveTcp(a, data).1 == ReceiveTcp(b, data).1
    ensures Twins(ReceiveTcp(a, data).0, ReceiveTcp(b, data).0)
  {
    hide Process, Blind, SendNack, Seen;
    if a.handler.Some? && data != [] {
      if Fits(a.rx, data) {
        var e := SameProcess(WithVerdicts, a.session, b.session, a.config.address, a.handler.value, a.rx + data);
        SeenConcat(WithVerdicts, a.session.trace, e);
        SeenConcat(WithVerdicts, b.session.trace, e);
      } else {
        NackIsSent(a.session, NackCode.OutOfMemory);
        NackIsSent(b.session, NackCode.OutOfMemory);
        TwinsLog(a, b, TcpSent(NackFrame(0x03)));
      }
    }
  }

  lemma TwinsStep(a: State, b: State, input: Input)
    requires Twins(a, b) && BlindState(a) && !input.UdpRx?
    ensures Twins(Apply(a, input), Apply(b, input))
  {
    hide ReceiveTcp, Blind, Seen;
    match input
    case Init(config, handler) =>
      TwinsLog(a.(config := config, handler := Some(handler)).Reset(),
               b.(config := config, handler := Some(handler)).Reset(), Started(config.address));
    case Deinit => TwinsLog(a.(handler := None).Reset(), b.(handler := None).Reset(), Stopped);
    case TcpDisconnect => TwinsLog(a.Reset(), b.Reset(), Disconnected);
    case TcpRx(data) =>
      TwinsReceiveTcp(a, b, data);
      TwinsLog(ReceiveTcp(a, data).0, ReceiveTcp(b, data).0, Answered(ReceiveTcp(a, data).1));
  }

  lemma TwinsDatagram(a: State, b: State, input: Input)
    requires Twins(a, b) && input.UdpRx?
    ensures Twins(Apply(a, input), b)
  {
    hide UdpReply, StagedBytes, Seen;
    var st := Apply(a, input);
    if st != a {
      var e := st.session.trace[|a.session.trace|];
      assert e.UdpSent? && st.session.trace == a.session.trace + [e];
      UnseenVanishes(WithVerdicts, a.session.trace, e);
    }
  }

  function DropUdp(inputs: seq<Input>): seq<Input> {
    if inputs == [] then []
    else DropUdp(inputs[..|inputs| - 1]) + (if inputs[|inputs| - 1].UdpRx? then [] else [inputs[|inputs| - 1]])
  }

  /**
   * Datagrams anywhere in a run change nothing about the diagnostic connection: frames sent, calls
   * made, verdicts, tester, unread bytes and response buffer are those of the run without them,
   * although both paths stage their replies in the same transmit buffer.
   */
  lemma {:induction false} DatagramsDoNotInterfere(st: State, inputs: seq<Input>)
    requires BlindState(st) && forall i :: 0 <= i < |inputs| ==> BlindInput(inputs[i])
    ensures Twins(Run(st, inputs), Run(st, DropUdp(inputs)))
    ensures BlindState(Run(st, inputs))
  {
    hide Twins, Apply, Blind;
    if inputs == [] {
      TwinsOfItself(st);
    } else {
      var front, last := inputs[..|inputs| - 1], inputs[|inputs| - 1];
      assert BlindInput(last);
      DatagramsDoNotInterfere(st, front);
      var a, b := Run(st, front), Run(st, DropUdp(front));
      HandlerAfter(a, last);
      if last.UdpRx? {
        TwinsDatagram(a, b, last);
        assert DropUdp(inputs) == DropUdp(front);
      } else {
        TwinsStep(a, b, last);
        assert DropUdp(inputs) == DropUdp(front) + [last];
        assert DropUdp(inputs)[..|DropUdp(inputs)| - 1] == DropUdp(front);
      }
    }
  }

  lemma TwinsOfItself(st: State)
    ensures Twins(st, st)
  {
  }

  lemma HandlerAfter(st: State, input: Input)
    ensures Apply(st, input).handler == match input case Init(_, h) => Some(h) case Deinit => None case _ => st.handler
  {
    hide Process, UdpReply, StagedBytes, SendNack;
  }

  // ------------------------------------------------- from encoder to session

  predicate Receivable(m: Message) {
    Sendable(m) && EncodedSize(m.payload) <= MAX_RX_PAYLOAD
  }

  predicate AllReceivable(ms: seq<Message>) {
    AllSendable(ms) && forall i :: 0 <= i < |ms| ==> EncodedSize(ms[i].payload) <= MAX_RX_PAYLOAD
  }

  function FrameOf(m: Message): RawFrame
    requires Receivable(m)
  {
    RawFrame(m.DerivedHeader(), PayloadBytes(m.payload))
  }

  /** Handle messages one by one until one of them costs the connection. */
  function HandleAll(s: Session, own: u16, h: UdsHandler, ms: seq<Message>): (Session, Verdict)
    requires AllReceivable(ms)
    decreases |ms|
  {
    if ms == [] then (s, KeepOpen)
    else
      assert Sendable(ms[0]);
      var (s', v) := HandleFrame(s, own, h, FrameOf(ms[0]));
      if v.Close? then (s', Close) else HandleAll(s', own, h, ms[1..])
  }

  lemma PrintedIsNotOversize(m: Message, rest: Bytes)
    requires Receivable(m)
    ensures var buf := EncodeMessage(m).value + rest;
            !Oversize(buf) && TryFrame(buf) == Ok(Some((FrameOf(m), |EncodeMessage(m).value|)))
  {
    hide DecodeHeader, PayloadBytes, CanonicalMessage;
    CanonicalMessageFrames(m, rest);
  }

  lemma {:induction false} EncodedStreamIsHandled(s: Session, own: u16, h: UdsHandler, ms: seq<Message>)
    requires AllReceivable(ms)
    ensures var o := Process(s, own, h, EncodeAll(ms));
            (o.session, o.verdict) == HandleAll(s, own, h, ms) && (o.verdict.KeepOpen? ==> o.rest == [])
    decreases |ms|
  {
    hide HandleFrame, TryFrame, Oversize, EncodeMessage, Sendable, FrameOf;
    if ms == [] {
      EmptyIsSettled();
      SettledWaits(s, own, h, []);
    } else {
      assert Sendable(ms[0]) && Receivable(ms[0]);
      var rest := EncodeAll(ms[1..]);
      PrintedIsNotOversize(ms[0], rest);
      var bytes := EncodeMessage(ms[0]).value;
      assert (bytes + rest)[|bytes|..] == rest;
      var (s', v) := HandleFrame(s, own, h, FrameOf(ms[0]));
      EncodedStreamIsHandled(s', own, h, ms[1..]);
    }
  }

  /**
   * A tester's messages, printed, concatenated and cut into any chunks that fit, are handled one by
   * one as the messages they were.
   */
  lemma TesterMessagesAreServed(st: State, ms: seq<Message>, chunks: seq<Bytes>)
    requires st.handler.Some? && Blind(WithoutVerdicts, st.handler.value) && st.rx == [] && AllFit(st, chunks)
    requires AllReceivable(ms)
    requires Joined(chunks) == EncodeAll(ms)
    ensures var (fed, verdict) := Feed(st, chunks);
            var (s, v) := HandleAll(st.session, st.config.address, st.handler.value, ms);
            Alike(WithoutVerdicts, fed.session, s) && verdict == v && (v.KeepOpen? ==> fed.rx == [])
  {
    hide Process, Settled, Blind, Feed, AllFit, HandleAll, EncodeAll;
    EmptyIsSettled();
    ReassemblyRefines(st, chunks);
    EncodedStreamIsHandled(st.session, st.config.address, st.handler.value, ms);
    assert st.rx + Joined(chunks) == Joined(chunks);
  }

  lemma OneFrameStream(s: Session, own: u16, h: UdsHandler, b: Bytes)
    requires IsFrame(b) && |b| <= TCP_RX_CAP
    ensures var (s', v) := HandleFrame(s, own, h, FirstFrame(b));
            Process(s, own, h, b) == Outcome(s', if v.Close? then b else [], v)
  {
    hide HandleFrame, DecodeHeader;
    EmptyIsSettled();
    SettledWaits(HandleFrame(s, own, h, FirstFrame(b)).0, own, h, []);
    assert b[|b|..] == [];
  }

  /**
   * Any frame of up to the advertised payload size, whatever its type and body, completes however it
   * is cut, also when its first bytes are already waiting.
   */
  lemma AdvertisedSizeCompletes(st: State, chunks: seq<Bytes>)
    requires st.handler.Some? && Blind(WithoutVerdicts, st.handler.value) && Settled(st.rx)
    requires IsFrame(st.rx + Joined(chunks)) && |st.rx + Joined(chunks)| <= TCP_RX_CAP
    ensures AllFit(st, chunks)
    ensures var (fed, verdict) := Feed(st, chunks);
            var frame := FirstFrame(st.rx + Joined(chunks));
            var (s, v) := HandleFrame(st.session, st.config.address, st.handler.value, frame);
            Alike(WithoutVerdicts, fed.session, s) && verdict == v && (v.KeepOpen? ==> fed.rx == [])
  {
    hide HandleFrame, Process, Feed, Settled, Blind, AllFit, IsFrame;
    ShortStreamsFit(st, chunks);
    ReassemblyRefines(st, chunks);
    OneFrameStream(st.session, st.config.address, st.handler.value, st.rx + Joined(chunks));
  }

  // ------------------------------------------------- from session to decoder

  /** The byte strings sent on the diagnostic connection, in order. */
  function Sends(tr: Trace): seq<Bytes> {
    if tr == [] then [] else (if tr[0].TcpSent? then [tr[0].data] else []) + Sends(tr[1..])
  }

  lemma WellFormedIsConsumable(d: Bytes)
    ensures WellFormed(d) ==> Consumable(d) && HeadOf(d).Deliver?
  {
    hide TryFrame, DecodePayload;
  }

  lemma {:induction false} SendsAreConsumable(tr: Trace)
    requires forall i :: 0 <= i < |tr| ==> (tr[i].TcpSent? ==> WellFormed(tr[i].data))
    ensures AllConsumable(Sends(tr)) && |DeliveredBy(Sends(tr))| == |Sends(tr)|
  {
    hide WellFormed, HeadOf, Consumable;
    if tr != [] {
      SendsAreConsumable(tr[1..]);
      if tr[0].TcpSent? {
        WellFormedIsConsumable(tr[0].data);
        assert Sends(tr)[1..] == Sends(tr[1..]);
      } else {
        assert Sends(tr) == Sends(tr[1..]);
      }
    }
  }

  /**
   * Whatever the entity sends during any run, concatenated and cut into any chunks, the client's
   * codec delivers one message per send and nothing else: no frame is skipped, no error, no byte left.
   */
  lemma RepliesReachTheClient(inputs: seq<Input>, chunks: seq<Bytes>)
    requires Joined(chunks) == Joined(Sends(TraceOf(inputs)))
    ensures var sends := Sends(TraceOf(inputs));
            ReadChunks(chunks) == Reader(DeliveredBy(sends), [], None) && |DeliveredBy(sends)| == |sends|
  {
    hide Run, WellFormed, HeadOf, Sends, Joined, AllConsumable;
    var tr := TraceOf(inputs);
    forall i | 0 <= i < |tr| ensures tr[i].TcpSent? ==> WellFormed(tr[i].data) {
      RepliesAreWellFormed(inputs, i);
    }
    SendsAreConsumable(tr);
    EmptyNeedsMore();
    SegmentsDetermineParse(Sends(tr), []);
    assert Joined(Sends(tr)) + [] == Joined(Sends(tr));
    ChunkedDecodeIsParse(chunks);
  }
}
