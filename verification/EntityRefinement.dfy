/**
 * The bounded, chunk-fed entity against an unbounded parser of the whole stream, and the TCP side of
 * a run against the same run without its datagrams.
 */
module EntityRefinement {
  import opened Wire
  import opened Codes
  import opened Messages
  import opened Framer
  import opened EntitySpec
  import opened EntityTrace

  // -------------------------------------------------------------- projections

  /** What of a trace is looked at: all but the datagrams sent, with or without the verdicts handed back. */
  datatype View = WithVerdicts | WithoutVerdicts

  predicate InView(view: View, e: Event) {
    !e.UdpSent? && (view.WithoutVerdicts? ==> !e.Answered?)
  }

  function Seen(view: View, tr: Trace): Trace {
    if tr == [] then []
    else
      var front, e := tr[..|tr| - 1], tr[|tr| - 1];
      Seen(view, front) + (if InView(view, e) then [e] else [])
  }

  lemma {:induction false} SeenConcat(view: View, a: Trace, b: Trace)
    ensures Seen(view, a + b) == Seen(view, a) + Seen(view, b)
  {
    if b == [] {
      assert a + b == a;
    } else {
      var front := b[..|b| - 1];
      assert (a + b)[..|a + b| - 1] == a + front;
      SeenConcat(view, a, front);
    }
  }

  lemma UnseenVanishes(view: View, tr: Trace, e: Event)
    requires !InView(view, e)
    ensures Seen(view, tr + [e]) == Seen(view, tr)
  {
    assert (tr + [e])[..|tr|] == tr;
  }

  /** A dispatch whose answers depend on the viewed part of the past only. */
  ghost predicate Blind(view: View, h: UdsHandler) {
    forall t1, t2, request, buffer ::
      Seen(view, t1) == Seen(view, t2) ==> h(t1, request, buffer) == h(t2, request, buffer)
  }

  /** Sessions that differ at most in events out of view. */
  ghost predicate Alike(view: View, s1: Session, s2: Session) {
    s1.tester == s2.tester && s1.uds == s2.uds && Seen(view, s1.trace) == Seen(view, s2.trace)
  }

  // ----------------------------------------- alike sessions do exactly the same things

  lemma AlikeStays(view: View, s1: Session, s2: Session, e: Trace)
    requires Seen(view, s1.trace) == Seen(view, s2.trace)
    ensures Seen(view, s1.trace + e) == Seen(view, s2.trace + e)
  {
    SeenConcat(view, s1.trace, e);
    SeenConcat(view, s2.trace, e);
  }

  lemma SameDispatch(view: View, s1: Session, s2: Session, own: u16, h: UdsHandler, tester: u16, request: Bytes)
    returns (e: Trace)
    requires Alike(view, s1, s2) && Blind(view, h)
    ensures var d1, d2 := Dispatch(s1, own, h, tester, request), Dispatch(s2, own, h, tester, request);
            d1.tester == s1.tester && d2.tester == s2.tester && d1.uds == d2.uds
            && d1.trace == s1.trace + e && d2.trace == s2.trace + e
  {
    hide Dispatch, DiagnosticFrame, Seen;
    Dispatched(s1, own, h, tester, request);
    Dispatched(s2, own, h, tester, request);
    var reply := h(s1.trace, request, s1.uds);
    assert reply == h(s2.trace, request, s2.uds);
    var call := UdsCalled(request, reply);
    if reply.returned > 0 {
      var send := TcpSent(DiagnosticFrame(own, tester, Reported(reply)));
      e := [call, send];
      assert s1.trace + [call] + [send] == s1.trace + e;
      assert s2.trace + [call] + [send] == s2.trace + e;
    } else {
      e := [call];
    }
  }

  lemma SameFrame(view: View, s1: Session, s2: Session, own: u16, h: UdsHandler, f: RawFrame) returns (e: Trace)
    requires Alike(view, s1, s2) && Blind(view, h)
    ensures var (r1, v1) := HandleFrame(s1, own, h, f);
            var (r2, v2) := HandleFrame(s2, own, h, f);
            v1 == v2 && r1.tester == r2.tester && r1.uds == r2.uds
            && r1.trace == s1.trace + e && r2.trace == s2.trace + e
  {
    hide HandleFrame, ReplyTo, Dispatch, Seen, Blind;
    var reply := TcpSent(ReplyTo(own, s1.tester, f));
    e := [Framed(f), reply];
    assert s1.trace + [Framed(f)] + [reply] == s1.trace + e;
    assert s2.trace + [Framed(f)] + [reply] == s2.trace + e;
    if IsActivation(f) {
      HandledActivation(s1, own, h, f);
      HandledActivation(s2, own, h, f);
    } else if IsDiagnostic(f) {
      HandledDiagnostic(s1, own, h, f);
      HandledDiagnostic(s2, own, h, f);
      if Accepted(own, s1.tester, f) {
        var d1, d2 := s1.Log(Framed(f)).Log(reply), s2.Log(Framed(f)).Log(reply);
        AlikeStays(view, s1, s2, e);
        var more := SameDispatch(view, d1, d2, own, h, SourceOf(f), f.payload[4..]);
        assert (s1.trace + e) + more == s1.trace + (e + more);
        assert (s2.trace + e) + more == s2.trace + (e + more);
        e := e + more;
      }
    } else {
      HandledOther(s1, own, h, f);
      HandledOther(s2, own, h, f);
    }
  }

  /** The same bytes make alike sessions send the same frames, make the same calls and reach the same verdict. */
  lemma {:induction false} SameProcess(view: View, s1: Session, s2: Session, own: u16, h: UdsHandler, buf: Bytes)
    returns (e: Trace)
    requires Alike(view, s1, s2) && Blind(view, h)
    ensures var o1, o2 := Process(s1, own, h, buf), Process(s2, own, h, buf);
            && o1.verdict == o2.verdict && o1.rest == o2.rest
            && o1.session.tester == o2.session.tester && o1.session.uds == o2.session.uds
            && o1.session.trace == s1.trace + e && o2.session.trace == s2.trace + e
    decreases |buf|
  {
    hide HandleFrame, TryFrame, Oversize, SendNack, Seen, Blind;
    var code := if Oversize(buf) then MessageTooLarge else IncorrectPatternFormat;
    NackIsSent(s1, code);
    NackIsSent(s2, code);
    if Oversize(buf) || TryFrame(buf).Err? {
      e := [TcpSent(NackFrame(code.Byte()))];
    } else if TryFrame(buf).value.None? {
      e := [];
    } else {
      var (f, n) := TryFrame(buf).value.value;
      e := SameFrame(view, s1, s2, own, h, f);
      var (r1, v1) := HandleFrame(s1, own, h, f);
      var (r2, v2) := HandleFrame(s2, own, h, f);
      if v1.KeepOpen? {
        AlikeStays(view, s1, s2, e);
        var more := SameProcess(view, r1, r2, own, h, buf[n..]);
        assert (s1.trace + e) + more == s1.trace + (e + more);
        assert (s2.trace + e) + more == s2.trace + (e + more);
        e := e + more;
      }
    }
  }

  // -------------------------------------------------------- stopping and resuming

  lemma OversizeIsStable(buf: Bytes, more: Bytes)
    requires TryFrame(buf) != Ok(None) || Oversize(buf)
    ensures Oversize(buf + more) == Oversize(buf)
  {
    hide DecodeHeader;
    assert (buf + more)[..HEADER_SIZE] == buf[..HEADER_SIZE];
  }

  /** A stream may be handled in two goes, as long as the first did not give up. */
  lemma {:induction false} ProcessResumes(s: Session, own: u16, h: UdsHandler, buf: Bytes, more: Bytes)
    ensures var o := Process(s, own, h, buf);
            Process(s, own, h, buf + more)
            == if o.verdict.Close? then o.(rest := o.rest + more)
               else Process(o.session, own, h, o.rest + more)
    decreases |buf|
  {
    hide HandleFrame, TryFrame, Oversize, SendNack;
    if Oversize(buf) {
      OversizeIsStable(buf, more);
    } else if TryFrame(buf) != Ok(None) {
      OversizeIsStable(buf, more);
      FramingIsStable(buf, more);
      if TryFrame(buf).Ok? {
        var (f, n) := TryFrame(buf).value.value;
        var (s', v) := HandleFrame(s, own, h, f);
        if v.KeepOpen? {
          assert (buf + more)[n..] == buf[n..] + more;
          ProcessResumes(s', own, h, buf[n..], more);
        }
      }
    }
  }

  /** Nothing can be done with these bytes until more arrive. */
  predicate Settled(rx: Bytes) {
    !Oversize(rx) && TryFrame(rx) == Ok(None)
  }

  lemma {:induction false} KeepOpenSettles(s: Session, own: u16, h: UdsHandler, buf: Bytes)
    requires Process(s, own, h, buf).verdict.KeepOpen?
    ensures Settled(Process(s, own, h, buf).rest)
    ensures |Process(s, own, h, buf).rest| <= |buf|
    decreases |buf|
  {
    hide HandleFrame, TryFrame, Oversize, SendNack;
    if TryFrame(buf) != Ok(None) {
      var (f, n) := TryFrame(buf).value.value;
      var (s', v) := HandleFrame(s, own, h, f);
      KeepOpenSettles(s', own, h, buf[n..]);
    }
  }

  /** A residue always leaves room: it is shorter than the buffer, so one more byte is never refused. */
  lemma SettledLeavesRoom(rx: Bytes, b: u8)
    requires Settled(rx)
    ensures |rx| < TCP_RX_CAP && Fits(rx, [b])
  {
    hide DecodeHeader;
  }

  lemma EmptyIsSettled()
    ensures Settled([])
  {
  }

  // ----------------------------------------------------------- feeding in chunks

  /** Feed chunks one after another, stopping at the first verdict to close. */
  function Feed(st: State, chunks: seq<Bytes>): (State, Verdict) {
    if chunks == [] then (st, KeepOpen)
    else
      var (before, verdict) := Feed(st, chunks[..|chunks| - 1]);
      if verdict.Close? then (before, Close)
      else
        var (after, v) := ReceiveTcp(before, chunks[|chunks| - 1]);
        (after.Log(Answered(v)), v)
  }

  function StreamInputs(chunks: seq<Bytes>): seq<Input> {
    if chunks == [] then [] else StreamInputs(chunks[..|chunks| - 1]) + [TcpRx(chunks[|chunks| - 1])]
  }

  /** Feeding is the run of the chunks up to the first that is answered by closing. */
  lemma {:induction false} FeedIsARun(st: State, chunks: seq<Bytes>) returns (k: nat)
    ensures k <= |chunks| && (Feed(st, chunks).1.KeepOpen? ==> k == |chunks|)
    ensures Feed(st, chunks).0 == Run(st, StreamInputs(chunks[..k]))
  {
    hide ReceiveTcp;
    k := 0;
    if chunks != [] {
      var front := chunks[..|chunks| - 1];
      k := FeedIsARun(st, front);
      assert chunks[..k] == front[..k];
      if Feed(st, front).1.KeepOpen? {
        assert front[..k] == front;
        k := |chunks|;
        assert chunks[..k] == chunks;
        assert StreamInputs(chunks)[..|front|] == StreamInputs(front) by { StreamLength(front); }
      }
    }
  }

  lemma {:induction false} StreamLength(chunks: seq<Bytes>)
    ensures |StreamInputs(chunks)| == |chunks|
  {
    if chunks != [] {
      StreamLength(chunks[..|chunks| - 1]);
    }
  }

  /** Every chunk found room behind the bytes still waiting. */
  predicate AllFit(st: State, chunks: seq<Bytes>) {
    chunks != [] ==>
      var front := chunks[..|chunks| - 1];
      AllFit(st, front) && (Feed(st, front).1.KeepOpen? ==> Fits(Feed(st, front).0.rx, chunks[|chunks| - 1]))
  }

  /** The whole stream at once, in an unbounded buffer. */
  function WholeStream(st: State, chunks: seq<Bytes>): Outcome
    requires st.handler.Some?
  {
    Process(st.session, st.config.address, st.handler.value, st.rx + Joined(chunks))
  }

  /** The chunk-fed entity has done exactly what the whole-stream parser did. */
  ghost predicate Matches(st: State, chunks: seq<Bytes>)
    requires st.handler.Some?
  {
    var (fed, verdict) := Feed(st, chunks);
    var o := WholeStream(st, chunks);
    Alike(WithoutVerdicts, fed.session, o.session) && verdict == o.verdict && (verdict.KeepOpen? ==> fed.rx == o.rest)
  }

  /** Feeding keeps identity and dispatch, and leaves a residue whenever the connection stays open. */
  lemma {:induction false} FeedKeeps(st: State, chunks: seq<Bytes>)
    requires st.handler.Some? && Settled(st.rx)
    ensures var (fed, verdict) := Feed(st, chunks);
            fed.config == st.config && fed.handler == st.handler
            && (verdict.KeepOpen? ==> Settled(fed.rx) && |fed.rx| <= |st.rx| + |Joined(chunks)|)
  {
    hide Process, Settled, SendNack;
    if chunks != [] {
      var front, last := chunks[..|chunks| - 1], chunks[|chunks| - 1];
      JoinedLast(chunks);
      FeedKeeps(st, front);
      var (before, verdict) := Feed(st, front);
      var (session, own, h, buf) := (before.session, before.config.address, st.handler.value, before.rx + last);
      if Process(session, own, h, buf).verdict.KeepOpen? {
        KeepOpenSettles(session, own, h, buf);
      }
    }
  }

  /** A settled residue is handled by doing nothing. */
  lemma SettledWaits(s: Session, own: u16, h: UdsHandler, rx: Bytes)
    requires Settled(rx)
    ensures Process(s, own, h, rx) == Outcome(s, rx, KeepOpen)
  {
    hide Oversize, TryFrame;
  }

  lemma VerdictIsNotASessionEvent(s: Session, v: Verdict)
    ensures Seen(WithoutVerdicts, s.Log(Answered(v)).trace) == Seen(WithoutVerdicts, s.trace)
  {
    UnseenVanishes(WithoutVerdicts, s.trace, Answered(v));
  }

  /** One more fitting chunk: the two sides are still in agreement. */
  lemma NextChunkMatches(st: State, front: seq<Bytes>, last: Bytes)
    requires st.handler.Some? && Blind(WithoutVerdicts, st.handler.value) && Settled(st.rx)
    requires Matches(st, front) && (Feed(st, front).1.KeepOpen? ==> Fits(Feed(st, front).0.rx, last))
    ensures Matches(st, front + [last])
  {
    hide Process, Blind, Seen, Settled, SendNack;
    var chunks := front + [last];
    assert chunks[..|chunks| - 1] == front;
    var own, h := st.config.address, st.handler.value;
    var (before, verdict) := Feed(st, front);
    var o := WholeStream(st, front);
    ProcessResumes(st.session, own, h, st.rx + Joined(front), last);
    JoinedLast(chunks);
    assert st.rx + Joined(chunks) == (st.rx + Joined(front)) + last;
    FeedKeeps(st, front);
    if verdict.KeepOpen? {
      var e := SameProcess(WithoutVerdicts, before.session, o.session, own, h, before.rx + last);
      AlikeStays(WithoutVerdicts, before.session, o.session, e);
      var (after, v) := ReceiveTcp(before, last);
      if last == [] {
        assert before.rx + last == before.rx;
        SettledWaits(before.session, own, h, before.rx);
      }
      VerdictIsNotASessionEvent(after.session, v);
    }
  }

  /**
   * Reassembly refinement: if every chunk found room, the bounded entity has sent the same frames,
   * made the same calls, holds the same tester and reached the same verdict as the unbounded parser
   * of the whole stream, and holds the same unread bytes while the connection is open.
   */
  lemma {:induction false} ReassemblyRefines(st: State, chunks: seq<Bytes>)
    requires st.handler.Some? && Blind(WithoutVerdicts, st.handler.value) && Settled(st.rx) && AllFit(st, chunks)
    ensures Matches(st, chunks)
  {
    hide Blind, Settled, Matches, ReceiveTcp;
    if chunks == [] {
      NoChunksMatch(st);
    } else {
      var front, last := chunks[..|chunks| - 1], chunks[|chunks| - 1];
      ReassemblyRefines(st, front);
      NextChunkMatches(st, front, last);
      assert front + [last] == chunks;
    }
  }

  lemma NoChunksMatch(st: State)
    requires st.handler.Some? && Settled(st.rx)
    ensures Matches(st, [])
  {
    hide Process, Seen, Settled;
    assert st.rx + Joined([]) == st.rx;
    SettledWaits(st.session, st.config.address, st.handler.value, st.rx);
  }

  // ------------------------------------------------ what no dispatch can influence

  lemma FrameDecision(s1: Session, s2: Session, own: u16, h: UdsHandler, f: RawFrame)
    requires s1.tester == s2.tester
    ensures HandleFrame(s1, own, h, f).1 == HandleFrame(s2, own, h, f).1
    ensures HandleFrame(s1, own, h, f).0.tester == HandleFrame(s2, own, h, f).0.tester
  {
    hide HandleFrame, ReplyTo, Dispatch, ActivationVerdict, DiagnosticFrame;
    if IsActivation(f) {
      HandledActivation(s1, own, h, f);
      HandledActivation(s2, own, h, f);
    } else if IsDiagnostic(f) {
      HandledDiagnostic(s1, own, h, f);
      HandledDiagnostic(s2, own, h, f);
      var r := TcpSent(ReplyTo(own, s1.tester, f));
      Dispatched(s1.Log(Framed(f)).Log(r), own, h, SourceOf(f), f.payload[4..]);
      Dispatched(s2.Log(Framed(f)).Log(r), own, h, SourceOf(f), f.payload[4..]);
    } else {
      HandledOther(s1, own, h, f);
      HandledOther(s2, own, h, f);
    }
  }

  /** Verdict, tester and unread bytes depend on the tester and the bytes alone, whatever the dispatch does. */
  lemma {:induction false} ProcessDecision(s1: Session, s2: Session, own: u16, h: UdsHandler, buf: Bytes)
    requires s1.tester == s2.tester
    ensures var o1, o2 := Process(s1, own, h, buf), Process(s2, own, h, buf);
            o1.verdict == o2.verdict && o1.rest == o2.rest && o1.session.tester == o2.session.tester
    decreases |buf|
  {
    hide HandleFrame, TryFrame, Oversize, SendNack;
    if Oversize(buf) || TryFrame(buf).Err? {
      var code := if Oversize(buf) then MessageTooLarge else IncorrectPatternFormat;
      NackIsSent(s1, code);
      NackIsSent(s2, code);
    } else if TryFrame(buf) != Ok(None) {
      var (f, n) := TryFrame(buf).value.value;
      FrameDecision(s1, s2, own, h, f);
      ProcessDecision(HandleFrame(s1, own, h, f).0, HandleFrame(s2, own, h, f).0, own, h, buf[n..]);
    }
  }

  /** For every dispatch: verdict, tester and unread bytes are those of the whole stream. */
  ghost predicate Decides(st: State, chunks: seq<Bytes>)
    requires st.handler.Some?
  {
    var (fed, verdict) := Feed(st, chunks);
    var o := WholeStream(st, chunks);
    fed.session.tester == o.session.tester && verdict == o.verdict && (verdict.KeepOpen? ==> fed.rx == o.rest)
  }

  lemma {:induction false} ReassemblyDecides(st: State, chunks: seq<Bytes>)
    requires st.handler.Some? && Settled(st.rx) && AllFit(st, chunks)
    ensures Decides(st, chunks)
  {
    hide Process, Settled, SendNack;
    var own, h := st.config.address, st.handler.value;
    if chunks == [] {
      assert st.rx + Joined([]) == st.rx;
      SettledWaits(st.session, own, h, st.rx);
    } else {
      var front, last := chunks[..|chunks| - 1], chunks[|chunks| - 1];
      ReassemblyDecides(st, front);
      FeedKeeps(st, front);
      var (before, verdict) := Feed(st, front);
      var o := WholeStream(st, front);
      ProcessResumes(st.session, own, h, st.rx + Joined(front), last);
      JoinedLast(chunks);
      assert st.rx + Joined(chunks) == (st.rx + Joined(front)) + last;
      if verdict.KeepOpen? {
        ProcessDecision(before.session, o.session, own, h, before.rx + last);
        if last == [] {
          assert before.rx + last == before.rx;
          SettledWaits(before.session, own, h, before.rx);
        }
      }
    }
  }

  /** So how a stream is cut up does not matter. */
  lemma ChunkingDoesNotMatter(st: State, chunks1: seq<Bytes>, chunks2: seq<Bytes>)
    requires st.handler.Some? && Blind(WithoutVerdicts, st.handler.value) && Settled(st.rx)
    requires Joined(chunks1) == Joined(chunks2) && AllFit(st, chunks1) && AllFit(st, chunks2)
    ensures var (fed1, v1) := Feed(st, chunks1);
            var (fed2, v2) := Feed(st, chunks2);
            Alike(WithoutVerdicts, fed1.session, fed2.session) && v1 == v2 && (v1.KeepOpen? ==> fed1.rx == fed2.rx)
  {
    hide Blind, Settled, Feed, Process;
    ReassemblyRefines(st, chunks1);
    ReassemblyRefines(st, chunks2);
  }
}
