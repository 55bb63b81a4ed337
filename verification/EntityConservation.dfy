/**
 * Where every byte of the stream is, over any run of the entity, and what a connection that was given
 * up can still do.
 */
module EntityConservation {
  import opened Wire
  import opened Codes
  import opened Messages
  import opened Framer
  import opened EntitySpec
  import opened EntityTrace
  import opened EntityRuns
  import opened EntityRefinement
  import opened EntityStream

  // ------------------------------------------------------------------ the ledger

  function FrameBytes(f: RawFrame): Bytes {
    HeaderBytes(f.header) + f.payload
  }

  /** The frames handed to the session since the last reset, byte for byte. */
  function HandledFrames(tr: Trace): seq<Bytes> {
    if tr == [] || Resets(tr[|tr| - 1]) then []
    else
      var e := tr[|tr| - 1];
      HandledFrames(tr[..|tr| - 1]) + (if e.Framed? then [FrameBytes(e.frame)] else [])
  }

  /** Has the connection been given up since the last reset? */
  predicate GivenUp(tr: Trace) {
    tr != [] && !Resets(tr[|tr| - 1]) && (tr[|tr| - 1] == Answered(Close) || GivenUp(tr[..|tr| - 1]))
  }

  /** The stream bytes that arrived since the last reset. */
  function ReceivedBytes(inputs: seq<Input>): Bytes {
    if inputs == [] then []
    else
      match inputs[|inputs| - 1]
      case TcpRx(data) => ReceivedBytes(inputs[..|inputs| - 1]) + data
      case UdpRx(_, _, _) => ReceivedBytes(inputs[..|inputs| - 1])
      case _ => []
  }

  lemma HandledExtend(tr: Trace, e: Event)
    ensures HandledFrames(tr + [e])
            == if Resets(e) then [] else HandledFrames(tr) + (if e.Framed? then [FrameBytes(e.frame)] else [])
    ensures GivenUp(tr + [e]) <==> !Resets(e) && (e == Answered(Close) || GivenUp(tr))
  {
    assert (tr + [e])[..|tr|] == tr;
  }

  lemma FrameIsRecordedOnce(s: Session, own: u16, h: UdsHandler, f: RawFrame)
    ensures HandledFrames(HandleFrame(s, own, h, f).0.trace) == HandledFrames(s.trace) + [FrameBytes(f)]
    ensures GivenUp(HandleFrame(s, own, h, f).0.trace) <==> GivenUp(s.trace)
  {
    hide HandleFrame, ReplyTo, Dispatch, HandledFrames, GivenUp, DiagnosticFrame, FrameBytes;
    var reply := TcpSent(ReplyTo(own, s.tester, f));
    HandledExtend(s.trace, Framed(f));
    HandledExtend(s.trace + [Framed(f)], reply);
    if IsActivation(f) {
      HandledActivation(s, own, h, f);
    } else if IsDiagnostic(f) {
      HandledDiagnostic(s, own, h, f);
      var replied := s.Log(Framed(f)).Log(reply);
      var request := f.payload[4..];
      Dispatched(replied, own, h, SourceOf(f), request);
      var uds := h(replied.trace, request, replied.uds);
      HandledExtend(replied.trace, UdsCalled(request, uds));
      HandledExtend(replied.trace + [UdsCalled(request, uds)],
                    TcpSent(DiagnosticFrame(own, SourceOf(f), Reported(uds))));
    } else {
      HandledOther(s, own, h, f);
    }
  }

  /**
   * Handling a stream turns it into the recorded frames and a tail: the bytes left over, or, after a
   * refused frame, what came behind that frame.
   */
  lemma {:induction false} ProcessConserves(s: Session, own: u16, h: UdsHandler, buf: Bytes)
    returns (frames: seq<Bytes>, tail: Bytes)
    ensures var o := Process(s, own, h, buf);
            && HandledFrames(o.session.trace) == HandledFrames(s.trace) + frames
            && (GivenUp(o.session.trace) <==> GivenUp(s.trace))
            && buf == Joined(frames) + tail && (o.verdict.KeepOpen? ==> tail == o.rest)
    ensures forall i :: 0 <= i < |frames| ==> IsFrame(frames[i])
    decreases |buf|
  {
    hide HandleFrame, TryFrame, Oversize, SendNack, HandledFrames, GivenUp, FrameBytes;
    frames, tail := [], buf;
    if Oversize(buf) || TryFrame(buf).Err? {
      var code := if Oversize(buf) then MessageTooLarge else IncorrectPatternFormat;
      NackIsSent(s, code);
      HandledExtend(s.trace, TcpSent(NackFrame(code.Byte())));
    } else if TryFrame(buf) != Ok(None) {
      var (f, n) := TryFrame(buf).value.value;
      var (s', v) := HandleFrame(s, own, h, f);
      FrameIsRecordedOnce(s, own, h, f);
      FrontFrameBytes(buf);
      var more: seq<Bytes>;
      more, tail := [], buf[n..];
      if v.KeepOpen? {
        more, tail := ProcessConserves(s', own, h, buf[n..]);
      }
      frames := [buf[..n]] + more;
      assert frames[1..] == more;
      CutAndJoin(buf, n, Joined(more), tail);
      assert HandledFrames(s.trace) + [buf[..n]] + more == HandledFrames(s.trace) + frames;
    }
  }

  lemma FrontFrameBytes(buf: Bytes)
    requires StartsWithFrame(buf)
    ensures IsFrame(buf[..FirstLength(buf)]) && FrameBytes(FirstFrame(buf)) == buf[..FirstLength(buf)]
  {
    hide TryFrame;
    FrameStandsAlone(buf);
  }

  // ---------------------------------------------------------- what a chunk adds

  /** What the session adds to the trace by itself. */
  predicate OfSession(e: Event) {
    e.Framed? || e.TcpSent? || e.UdsCalled?
  }

  lemma FrameAdds(s: Session, own: u16, h: UdsHandler, f: RawFrame) returns (more: Trace)
    ensures HandleFrame(s, own, h, f).0.trace == s.trace + more && forall i :: 0 <= i < |more| ==> OfSession(more[i])
  {
    hide HandleFrame, ReplyTo, Dispatch, DiagnosticFrame;
    var reply := TcpSent(ReplyTo(own, s.tester, f));
    more := [Framed(f), reply];
    assert s.trace + [Framed(f)] + [reply] == s.trace + more;
    if IsActivation(f) {
      HandledActivation(s, own, h, f);
    } else if IsDiagnostic(f) {
      HandledDiagnostic(s, own, h, f);
      if Accepted(own, s.tester, f) {
        var replied, request := s.Log(Framed(f)).Log(reply), f.payload[4..];
        Dispatched(replied, own, h, SourceOf(f), request);
        var uds := h(replied.trace, request, replied.uds);
        var call, send := UdsCalled(request, uds), TcpSent(DiagnosticFrame(own, SourceOf(f), Reported(uds)));
        assert s.trace + more + [call] == s.trace + (more + [call]);
        assert s.trace + more + [call] + [send] == s.trace + (more + [call, send]);
        more := more + (if uds.returned > 0 then [call, send] else [call]);
      }
    } else {
      HandledOther(s, own, h, f);
    }
  }

  lemma {:induction false} ProcessAdds(s: Session, own: u16, h: UdsHandler, buf: Bytes) returns (more: Trace)
    ensures Process(s, own, h, buf).session.trace == s.trace + more && forall i :: 0 <= i < |more| ==> OfSession(more[i])
    decreases |buf|
  {
    hide HandleFrame, TryFrame, Oversize, SendNack, NackFrame;
    more := [];
    if Oversize(buf) || TryFrame(buf).Err? {
      var code := if Oversize(buf) then MessageTooLarge else IncorrectPatternFormat;
      NackIsSent(s, code);
      more := [TcpSent(NackFrame(code.Byte()))];
    } else if TryFrame(buf) != Ok(None) {
      var (f, n) := TryFrame(buf).value.value;
      var (s', v) := HandleFrame(s, own, h, f);
      more := FrameAdds(s, own, h, f);
      if v.KeepOpen? {
        var later := ProcessAdds(s', own, h, buf[n..]);
        assert (s.trace + more) + later == s.trace + (more + later);
        more := more + later;
      }
    } else {
      assert s.trace + [] == s.trace;
    }
  }

  /** A chunk adds events of the session, and then its verdict. */
  lemma ChunkAdds(st: State, data: Bytes) returns (more: Trace)
    ensures ReceiveTcp(st, data).0.session.trace == st.session.trace + more
    ensures Apply(st, TcpRx(data)).session.trace == st.session.trace + (more + [Answered(ReceiveTcp(st, data).1)])
    ensures forall i :: 0 <= i < |more| ==> OfSession(more[i])
  {
    hide Process, SendNack, NackFrame;
    more := [];
    if st.handler.Some? && data != [] {
      if Fits(st.rx, data) {
        more := ProcessAdds(st.session, st.config.address, st.handler.value, st.rx + data);
      } else {
        NackIsSent(st.session, NackCode.OutOfMemory);
        more := [TcpSent(NackFrame(0x03))];
      }
    }
    var verdict := Answered(ReceiveTcp(st, data).1);
    assert ReceiveTcp(st, data).0.session.trace == st.session.trace + more;
    assert (st.session.trace + more) + [verdict] == st.session.trace + (more + [verdict]);
  }

  /** Whatever the verdict, the chunk and the bytes before it fall into the frames it completes and a tail. */
  lemma ChunkFrames(st: State, data: Bytes) returns (frames: seq<Bytes>, tail: Bytes)
    ensures HandledFrames(Apply(st, TcpRx(data)).session.trace) == HandledFrames(st.session.trace) + frames
    ensures st.rx + data == Joined(frames) + tail && forall i :: 0 <= i < |frames| ==> IsFrame(frames[i])
  {
    hide Process, SendNack, NackFrame, HandledFrames, IsFrame, GivenUp, FrameBytes;
    frames, tail := [], st.rx + data;
    if st.handler.Some? && data != [] {
      if Fits(st.rx, data) {
        frames, tail := ProcessConserves(st.session, st.config.address, st.handler.value, st.rx + data);
      } else {
        NackIsSent(st.session, NackCode.OutOfMemory);
        HandledExtend(st.session.trace, TcpSent(NackFrame(0x03)));
      }
    }
    HandledExtend(ReceiveTcp(st, data).0.session.trace, Answered(ReceiveTcp(st, data).1));
  }

  // ------------------------------------------------------------------ conservation

  /** Everything received is in a recorded frame, in order, or still waiting; what waits is incomplete. */
  ghost predicate Balanced(st: State, received: Bytes) {
    var frames := HandledFrames(st.session.trace);
    && received == Joined(frames) + st.rx && Settled(st.rx)
    && forall i :: 0 <= i < |frames| ==> IsFrame(frames[i])
  }

  lemma ResetIsBalanced(st: State, e: Event)
    requires Resets(e) && st.rx == []
    ensures Balanced(st.Log(e), [])
  {
    hide TryFrame;
    HandledExtend(st.session.trace, e);
    EmptyIsSettled();
  }

  lemma QuietIsBalanced(st: State, e: Event, received: Bytes)
    requires Balanced(st, received) && !Resets(e) && !e.Framed?
    ensures Balanced(st.Log(e), received)
  {
    hide HandledFrames, Settled, IsFrame;
    HandledExtend(st.session.trace, e);
    assert HandledFrames(st.session.trace) + [] == HandledFrames(st.session.trace);
  }

  lemma ChunkIsBalanced(st: State, data: Bytes, received: Bytes)
    requires Balanced(st, received) && ReceiveTcp(st, data).1.KeepOpen?
    ensures Balanced(ReceiveTcp(st, data).0, received + data)
  {
    hide Process, HandledFrames, GivenUp, Settled, IsFrame, SendNack;
    if data == [] {
      assert received + data == received;
    } else {
      var (own, h, all) := (st.config.address, st.handler.value, st.rx + data);
      KeepOpenSettles(st.session, own, h, all);
      var frames := HandledFrames(st.session.trace);
      var later, tail := ProcessConserves(st.session, own, h, all);
      JoinedConcat(frames, later);
      assert (Joined(frames) + st.rx) + data == Joined(frames) + all;
      Regroup([], Joined(frames), Joined(later), tail);
    }
  }

  lemma ChunkKeepsGivenUp(st: State, data: Bytes)
    ensures GivenUp(ReceiveTcp(st, data).0.session.trace) <==> GivenUp(st.session.trace)
  {
    hide Process, HandledFrames, GivenUp, IsFrame, SendNack;
    if st.handler.Some? && data != [] {
      var _, _ := ProcessConserves(st.session, st.config.address, st.handler.value, st.rx + data);
      NackIsSent(st.session, NackCode.OutOfMemory);
      HandledExtend(st.session.trace, TcpSent(NackFrame(0x03)));
    }
  }

  lemma TcpIsBalanced(st: State, data: Bytes, received: Bytes)
    requires !GivenUp(st.session.trace) ==> Balanced(st, received)
    ensures var after := Apply(st, TcpRx(data));
            && (GivenUp(after.session.trace) <==> GivenUp(st.session.trace) || ReceiveTcp(st, data).1.Close?)
            && (!GivenUp(after.session.trace) ==> Balanced(after, received + data))
  {
    hide Balanced, GivenUp, HandledFrames, ReceiveTcp;
    var (after, v) := ReceiveTcp(st, data);
    HandledExtend(after.session.trace, Answered(v));
    ChunkKeepsGivenUp(st, data);
    if v.KeepOpen? && !GivenUp(st.session.trace) {
      ChunkIsBalanced(st, data, received);
      QuietIsBalanced(after, Answered(v), received + data);
    }
  }

  /** A datagram adds at most one event, which is no part of the connection. */
  lemma DatagramAdds(st: State, input: Input) returns (more: Trace)
    requires input.UdpRx?
    ensures Apply(st, input) == st.(session := st.session.(trace := st.session.trace + more))
    ensures |more| <= 1 && forall i :: 0 <= i < |more| ==> more[i].UdpSent?
  {
    hide UdpReply, StagedBytes;
    more := [];
    var r := UdpReply(st.config, st.session.tester, input.data);
    if st.handler.Some? && r.Some? && StagedBytes(r.value).Some? {
      more := [UdpSent(input.source, input.port, StagedBytes(r.value).value)];
    } else {
      assert st.session.trace + [] == st.session.trace;
    }
  }

  lemma UdpIsBalanced(st: State, input: Input, received: Bytes)
    requires input.UdpRx? && (!GivenUp(st.session.trace) ==> Balanced(st, received))
    ensures var after := Apply(st, input);
            && (GivenUp(after.session.trace) <==> GivenUp(st.session.trace))
            && (!GivenUp(after.session.trace) ==> Balanced(after, received))
  {
    hide Balanced, GivenUp, HandledFrames, Apply;
    var more := DatagramAdds(st, input);
    if more == [] {
      assert st.session.trace + more == st.session.trace;
    } else {
      assert more == [more[0]];
      HandledExtend(st.session.trace, more[0]);
      if !GivenUp(st.session.trace) {
        QuietIsBalanced(st, more[0], received);
      }
    }
  }

  /** One input: an open connection was open before, and its ledger is carried forward. */
  lemma StepIsBalanced(st: State, input: Input, received: Bytes, received': Bytes)
    requires !GivenUp(st.session.trace) ==> Balanced(st, received)
    requires received' == match input case TcpRx(d) => received + d case UdpRx(_, _, _) => received case _ => []
    ensures var after := Apply(st, input);
            !GivenUp(after.session.trace) ==> Balanced(after, received')
  {
    hide Balanced, GivenUp, ReceiveTcp, ReceiveUdp;
    match input
    case Init(config, handler) =>
      ResetIsBalanced(st.(config := config, handler := Some(handler)).Reset(), Started(config.address));
    case Deinit => ResetIsBalanced(st.(handler := None).Reset(), Stopped);
    case TcpDisconnect => ResetIsBalanced(st.Reset(), Disconnected);
    case UdpRx(_, _, _) => UdpIsBalanced(st, input, received);
    case TcpRx(data) => TcpIsBalanced(st, data, received);
  }

  /**
   * Conservation: in every state any run can reach, unless the connection was given up since the last
   * reset, the bytes received since then are the frames handed to the session since then, in order,
   * followed by the bytes still waiting, and what waits is an incomplete frame.
   */
  lemma {:induction false} BytesAreConserved(inputs: seq<Input>)
    ensures var st := Run(NewEntity(), inputs);
            !GivenUp(st.session.trace) ==> Balanced(st, ReceivedBytes(inputs))
  {
    hide Balanced, GivenUp, Apply;
    if inputs == [] {
      PowerUpIsBalanced();
    } else {
      var front, last := inputs[..|inputs| - 1], inputs[|inputs| - 1];
      BytesAreConserved(front);
      StepIsBalanced(Run(NewEntity(), front), last, ReceivedBytes(front), ReceivedBytes(inputs));
    }
  }

  lemma PowerUpIsBalanced()
    ensures Balanced(NewEntity(), [])
  {
    hide TryFrame;
    EmptyIsSettled();
  }

  /** So an open connection always has room for one more byte. */
  lemma OpenLeavesRoom(inputs: seq<Input>, b: u8)
    requires !GivenUp(TraceOf(inputs))
    ensures var rx := Run(NewEntity(), inputs).rx;
            |rx| < TCP_RX_CAP && Fits(rx, [b])
  {
    hide Run, GivenUp, Settled;
    BytesAreConserved(inputs);
    SettledLeavesRoom(Run(NewEntity(), inputs).rx, b);
  }

  lemma {:induction false} RunResumes(st: State, a: seq<Input>, b: seq<Input>)
    ensures Run(st, a + b) == Run(Run(st, a), b)
  {
    hide Apply;
    if b == [] {
      assert a + b == a;
    } else {
      assert (a + b)[..|a + b| - 1] == a + b[..|b| - 1];
      RunResumes(st, a, b[..|b| - 1]);
    }
  }

  /**
   * Refinement on runs: wherever a run has led while the connection is open, chunks that follow are
   * served as the unbounded parser would serve them exactly when they all fit.
   */
  lemma RunsRefine(inputs: seq<Input>, chunks: seq<Bytes>) returns (k: nat)
    requires !GivenUp(TraceOf(inputs))
    requires var st := Run(NewEntity(), inputs);
             st.handler.Some? && Blind(WithoutVerdicts, st.handler.value)
    ensures var st := Run(NewEntity(), inputs);
            && (Matches(st, chunks) <==> AllFit(st, chunks))
            && k <= |chunks| && (Feed(st, chunks).1.KeepOpen? ==> k == |chunks|)
            && Feed(st, chunks).0 == Run(NewEntity(), inputs + StreamInputs(chunks[..k]))
  {
    hide Run, GivenUp, Settled, Blind, Matches, AllFit, Feed;
    var st := Run(NewEntity(), inputs);
    BytesAreConserved(inputs);
    RefinementIsExact(st, chunks);
    k := FeedIsARun(st, chunks);
    RunResumes(NewEntity(), inputs, StreamInputs(chunks[..k]));
  }

  // ---------------------------------------------- after the connection was given up

  /** What stands at the front of the buffer costs the connection whatever follows it. */
  predicate Stuck(tester: Option<u16>, rx: Bytes) {
    Oversize(rx) || TryFrame(rx).Err? || (StartsWithFrame(rx) && Refused(tester, FirstFrame(rx)))
  }

  function Calls(tr: Trace): nat {
    if tr == [] then 0 else Calls(tr[..|tr| - 1]) + (if tr[|tr| - 1].UdsCalled? then 1 else 0)
  }

  lemma CallsExtend(tr: Trace, e: Event)
    ensures Calls(tr + [e]) == Calls(tr) + (if e.UdsCalled? then 1 else 0)
  {
    assert (tr + [e])[..|tr|] == tr;
  }

  lemma RefusedFrame(s: Session, own: u16, h: UdsHandler, f: RawFrame)
    ensures HandleFrame(s, own, h, f).1.Close? <==> Refused(s.tester, f)
    ensures Refused(s.tester, f) ==>
              HandleFrame(s, own, h, f).0 == s.Log(Framed(f)).Log(TcpSent(ReplyTo(own, s.tester, f)))
  {
    hide HandleFrame, ReplyTo, Dispatch, ActivationVerdict;
    if IsActivation(f) {
      HandledActivation(s, own, h, f);
    } else if IsDiagnostic(f) {
      HandledDiagnostic(s, own, h, f);
    } else {
      HandledOther(s, own, h, f);
    }
  }

  /** Giving up leaves the cause at the front of the buffer. */
  lemma {:induction false} CauseStays(s: Session, own: u16, h: UdsHandler, buf: Bytes)
    requires Process(s, own, h, buf).verdict.Close?
    ensures Stuck(Process(s, own, h, buf).session.tester, Process(s, own, h, buf).rest)
    decreases |buf|
  {
    hide HandleFrame, TryFrame, Oversize, SendNack, Refused, ReplyTo;
    if !Oversize(buf) && TryFrame(buf).Ok? {
      var (f, n) := TryFrame(buf).value.value;
      RefusedFrame(s, own, h, f);
      if !Refused(s.tester, f) {
        CauseStays(HandleFrame(s, own, h, f).0, own, h, buf[n..]);
      }
    } else {
      NackIsSent(s, if Oversize(buf) then MessageTooLarge else IncorrectPatternFormat);
    }
  }

  /** The cause is met again by every later chunk, with the same consequence and without a call. */
  lemma StuckCloses(s: Session, own: u16, h: UdsHandler, rx: Bytes, more: Bytes)
    requires Stuck(s.tester, rx)
    ensures Stuck(s.tester, rx + more)
    ensures var o := Process(s, own, h, rx + more);
            && o.verdict.Close? && o.rest == rx + more
            && o.session.tester == s.tester && o.session.uds == s.uds && Calls(o.session.trace) == Calls(s.trace)
  {
    hide HandleFrame, TryFrame, Oversize, SendNack, Refused, ReplyTo, Calls;
    OversizeIsStable(rx, more);
    if Oversize(rx) || TryFrame(rx).Err? {
      var code := if Oversize(rx) then MessageTooLarge else IncorrectPatternFormat;
      NackIsSent(s, code);
      CallsExtend(s.trace, TcpSent(NackFrame(code.Byte())));
    }
    if TryFrame(rx) != Ok(None) {
      FramingIsStable(rx, more);
      if TryFrame(rx).Ok? && !Oversize(rx) {
        var f := FirstFrame(rx);
        RefusedFrame(s, own, h, f);
        CallsExtend(s.trace, Framed(f));
        CallsExtend(s.trace + [Framed(f)], TcpSent(ReplyTo(own, s.tester, f)));
      }
    }
  }

  predicate IsReset(input: Input) {
    input.Init? || input.Deinit? || input.TcpDisconnect?
  }

  ghost predicate SameStuck(a: State, b: State) {
    && b.handler == a.handler && b.config == a.config && b.session.tester == a.session.tester
    && b.session.uds == a.session.uds && Calls(b.session.trace) == Calls(a.session.trace)
    && Stuck(b.session.tester, b.rx)
  }

  lemma StuckStep(st: State, input: Input)
    requires st.handler.Some? && Stuck(st.session.tester, st.rx) && !IsReset(input)
    ensures SameStuck(st, Apply(st, input))
    ensures input.TcpRx? && input.data != [] ==> ReceiveTcp(st, input.data).1.Close?
  {
    hide Stuck, Process, Calls, UdpReply, StagedBytes, SendNack;
    match input
    case UdpRx(_, _, _) =>
      var after := Apply(st, input);
      if after != st {
        CallsExtend(st.session.trace, after.session.trace[|st.session.trace|]);
      }
    case TcpRx(data) =>
      StuckCloses(st.session, st.config.address, st.handler.value, st.rx, data);
      NackIsSent(st.session, NackCode.OutOfMemory);
      CallsExtend(st.session.trace, TcpSent(NackFrame(0x03)));
      var (after, v) := ReceiveTcp(st, data);
      CallsExtend(after.session.trace, Answered(v));
  }

  lemma {:induction false} StuckUntilReset(st: State, inputs: seq<Input>)
    requires st.handler.Some? && Stuck(st.session.tester, st.rx)
    requires forall i :: 0 <= i < |inputs| ==> !IsReset(inputs[i])
    ensures SameStuck(st, Run(st, inputs))
  {
    hide Stuck, Apply, Calls;
    if inputs != [] {
      StuckUntilReset(st, inputs[..|inputs| - 1]);
      StuckStep(Run(st, inputs[..|inputs| - 1]), inputs[|inputs| - 1]);
    }
  }

  /**
   * Once a chunk that fitted was answered by closing, every later chunk is, and the diagnostic
   * application is not called again, until the platform resets the connection.
   */
  lemma ClosedUntilReset(st: State, data: Bytes, later: seq<Input>, more: Bytes)
    requires st.handler.Some? && data != [] && Fits(st.rx, data) && ReceiveTcp(st, data).1.Close?
    requires more != [] && forall i :: 0 <= i < |later| ==> !IsReset(later[i])
    ensures var closed := Apply(st, TcpRx(data));
            var after := Run(closed, later);
            && ReceiveTcp(after, more).1.Close?
            && Calls(Apply(after, TcpRx(more)).session.trace) == Calls(closed.session.trace)
            && after.session.tester == closed.session.tester
  {
    hide Stuck, Process, Calls, SendNack, Run;
    CauseStays(st.session, st.config.address, st.handler.value, st.rx + data);
    StuckUntilReset(Apply(st, TcpRx(data)), later);
    StuckStep(Run(Apply(st, TcpRx(data)), later), TcpRx(more));
  }

  /** States whose connections are at the same point, whatever was sent and called before. */
  ghost predicate SamePoint(a: State, b: State) {
    a.config == b.config && a.handler == b.handler && a.rx == b.rx && a.session.tester == b.session.tester
  }

  lemma SamePointStep(a: State, b: State, input: Input)
    requires SamePoint(a, b)
    ensures SamePoint(Apply(a, input), Apply(b, input))
    ensures input.TcpRx? ==> ReceiveTcp(a, input.data).1 == ReceiveTcp(b, input.data).1
  {
    hide Process, SendNack, UdpReply, StagedBytes;
    if input.TcpRx? && a.handler.Some? {
      NackIsSent(a.session, NackCode.OutOfMemory);
      NackIsSent(b.session, NackCode.OutOfMemory);
      ProcessDecision(a.session, b.session, a.config.address, a.handler.value, a.rx + input.data);
    }
  }

  lemma {:induction false} SamePointRun(a: State, b: State, inputs: seq<Input>)
    requires SamePoint(a, b)
    ensures SamePoint(Run(a, inputs), Run(b, inputs))
  {
    hide Apply;
    if inputs != [] {
      SamePointRun(a, b, inputs[..|inputs| - 1]);
      SamePointStep(Run(a, inputs[..|inputs| - 1]), Run(b, inputs[..|inputs| - 1]), inputs[|inputs| - 1]);
    }
  }

  /**
   * A chunk that did not fit is lost instead: whatever inputs follow, configuration, slot, buffer and
   * the verdict on every further chunk are as if it had never been sent.
   */
  lemma RefusedChunkIsLost(st: State, lost: Bytes, later: seq<Input>, data: Bytes)
    requires st.handler.Some? && lost != [] && !Fits(st.rx, lost)
    ensures ReceiveTcp(st, lost).1.Close?
    ensures var (with, without) := (Run(Apply(st, TcpRx(lost)), later), Run(st, later));
            SamePoint(with, without) && ReceiveTcp(with, data).1 == ReceiveTcp(without, data).1
  {
    hide Process, SendNack, Run;
    NackIsSent(st.session, NackCode.OutOfMemory);
    SamePointRun(Apply(st, TcpRx(lost)), st, later);
    SamePointStep(Run(Apply(st, TcpRx(lost)), later), Run(st, later), TcpRx(data));
  }
}
