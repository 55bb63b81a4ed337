/**
 * The stream codec: a loop that drops frames of unsupported type, delivers the first decodable one,
 * and refuses to go past a frame it cannot trust. Proved against a parse of the whole stream.
 */
module Codec {
  import opened Wire
  import opened Codes
  import opened Messages
  import opened RoundTrip
  import opened Framer

  // ------------------------------------------------------------------- one frame

  /** What the codec makes of the front of its buffer. */
  datatype Head =
    | NeedMore
    | Fatal(error: MessageError)
    | Deliver(message: Message, consumed: nat)
    | Skip(consumed: nat)

  function HeadOf(buf: Bytes): (h: Head)
    ensures h.Deliver? || h.Skip? ==> HEADER_SIZE <= h.consumed <= |buf|
  {
    match TryFrame(buf)
    case Err(e) => Fatal(e)
    case Ok(None) => NeedMore
    case Ok(Some((frame, n))) =>
      match DecodePayload(frame.payload, frame.header.payloadType)
      case Ok(p) => Deliver(Message(frame.header, p), n)
      case Err(e) => if e.IsFramingFatal() then Fatal(e) else Skip(n)
  }

  lemma HeadIsStable(buf: Bytes, more: Bytes)
    requires !HeadOf(buf).NeedMore?
    ensures HeadOf(buf + more) == HeadOf(buf)
  {
    hide TryFrame, DecodePayload;
    FramingIsStable(buf, more);
  }

  lemma EmptyNeedsMore()
    ensures HeadOf([]) == NeedMore
  {
  }

  /** The frame at the front of a buffer is judged on its own bytes. */
  lemma HeadStandsAlone(buf: Bytes)
    requires HeadOf(buf).Deliver? || HeadOf(buf).Skip?
    ensures HeadOf(buf[..HeadOf(buf).consumed]) == HeadOf(buf)
  {
    hide TryFrame, DecodePayload;
    FrameStandsAlone(buf);
  }

  /**
   * The codec's policy, by the bytes: what waits, what is fatal, what is skipped and what is delivered
   * is decided by the complement bytes, the type number and the length field alone.
   */
  lemma PolicyByBytes(buf: Bytes)
    ensures if |buf| < HEADER_SIZE then HeadOf(buf) == NeedMore
            else if buf[1] != 0xFF - buf[0] then HeadOf(buf) == Fatal(VersionInverseIncorrect(0xFF - buf[0], buf[1]))
            else
              var (w, n) := (U16At(buf, 2), U32At(buf, 4));
              if |buf| < HEADER_SIZE + n then HeadOf(buf) == NeedMore
              else if ShortestBody(w).None? then HeadOf(buf) == Skip(HEADER_SIZE + n)
              else if n < ShortestBody(w).value then HeadOf(buf) == Fatal(Incomplete)
              else
                && HeadOf(buf).Deliver? && HeadOf(buf).consumed == HEADER_SIZE + n
                && HeaderBytes(HeadOf(buf).message.header) == buf[..HEADER_SIZE]
                && DecodePayload(buf[HEADER_SIZE..HEADER_SIZE + n], PayloadTypeOf(w)) == Ok(HeadOf(buf).message.payload)
  {
    hide TryFrame, DecodePayload, PayloadTypeOf, ShortestBody, HeaderBytes;
    FramingByBytes(buf);
    if StartsWithFrame(buf) {
      AcceptedBodies(FirstFrame(buf).payload, U16At(buf, 2));
    }
  }

  /** A delivered message is of the variant its header type announces, and canonical. */
  lemma DeliveredIsTyped(buf: Bytes)
    ensures HeadOf(buf).Deliver? ==> CanonicalMessage(HeadOf(buf).message)
  {
    hide TryFrame, DecodePayload, CanonicalPayload;
    if HeadOf(buf).Deliver? {
      var frame := FirstFrame(buf);
      FrameStandsAlone(buf);
      DecodedPayload(frame.payload, frame.header.payloadType);
    }
  }

  // ------------------------------------------------- whole-stream parse (reference)

  datatype Parse = Parse(messages: seq<Message>, rest: Bytes, error: Option<MessageError>)

  /** Every message of a stream in order, skipping unsupported frames and stopping at the first fatal one. */
  function ParseStream(s: Bytes): Parse
    decreases |s|
  {
    match HeadOf(s)
    case NeedMore => Parse([], s, None)
    case Fatal(e) => Parse([], s, Some(e))
    case Deliver(m, n) => var p := ParseStream(s[n..]); p.(messages := [m] + p.messages)
    case Skip(n) => ParseStream(s[n..])
  }

  lemma ParseUnfolds(s: Bytes)
    ensures var (h, p) := (HeadOf(s), ParseStream(s));
            && (h.NeedMore? ==> p == Parse([], s, None))
            && (h.Fatal? ==> p == Parse([], s, Some(h.error)))
            && (h.Skip? ==> p == ParseStream(s[h.consumed..]))
            && (h.Deliver? ==>
                  var later := ParseStream(s[h.consumed..]);
                  p == Parse([h.message] + later.messages, later.rest, later.error))
  {
    hide HeadOf;
  }

  /** Parsing can stop anywhere and resume on what was left. */
  lemma {:induction false} ParseResumes(s: Bytes, more: Bytes)
    ensures var p := ParseStream(s);
            var q := ParseStream(p.rest + more);
            ParseStream(s + more) == Parse(p.messages + q.messages, q.rest, q.error)
    decreases |s|
  {
    hide HeadOf, ParseStream;
    var h := HeadOf(s);
    ParseUnfolds(s);
    ParseUnfolds(s + more);
    var q := ParseStream(ParseStream(s).rest + more);
    if h.Deliver? || h.Skip? {
      HeadIsStable(s, more);
      assert (s + more)[h.consumed..] == s[h.consumed..] + more;
      ParseResumes(s[h.consumed..], more);
      if h.Deliver? {
        var later := ParseStream(s[h.consumed..]).messages;
        assert ([h.message] + later) + q.messages == [h.message] + (later + q.messages);
      }
    } else if h.Fatal? {
      HeadIsStable(s, more);
      assert [] + q.messages == q.messages;
    } else {
      assert [] + q.messages == q.messages;
    }
  }

  // ------------------------------------------------------- the decoder's buffer

  class BytesMut {
    var data: Bytes

    constructor (initial: Bytes)
      ensures data == initial
    {
      data := initial;
    }

    method Extend(more: Bytes)
      modifies this
      ensures data == old(data) + more
    {
      data := data + more;
    }

    /** Drop the first `n` bytes. */
    method SplitTo(n: nat)
      requires n <= |data|
      modifies this
      ensures data == old(data)[n..]
    {
      data := data[n..];
    }
  }

  /** What one call of the decoder returns and what it leaves in the buffer. */
  function DecodeOnce(buf: Bytes): (r: (Result<Option<Message>>, Bytes))
    ensures r.0.Ok? && r.0.value.Some? ==> |r.1| < |buf|
    decreases |buf|
  {
    match HeadOf(buf)
    case NeedMore => (Ok(None), buf)
    case Fatal(e) => (Err(e), buf)
    case Deliver(m, n) => (Ok(Some(m)), buf[n..])
    case Skip(n) => DecodeOnce(buf[n..])
  }

  method Decode(src: BytesMut) returns (r: Result<Option<Message>>)
    modifies src
    ensures (r, src.data) == DecodeOnce(old(src.data))
  {
    while true
      invariant DecodeOnce(src.data) == DecodeOnce(old(src.data))
      decreases |src.data|
    {
      var framed := TryFrame(src.data);
      if framed.Err? {
        return Err(framed.error);
      }
      if framed.value.None? {
        return Ok(None);
      }
      var (frame, consumed) := framed.value.value;
      var decoded := DecodePayload(frame.payload, frame.header.payloadType);
      if decoded.Ok? {
        src.SplitTo(consumed);
        return Ok(Some(Message(frame.header, decoded.value)));
      }
      if decoded.error.IsFramingFatal() {
        return Err(decoded.error);
      }
      src.SplitTo(consumed);
    }
  }

  /** One decoder call peels exactly the first message off the whole-stream parse. */
  lemma {:induction false} DecodeOncePeels(buf: Bytes)
    ensures var (r, rest) := DecodeOnce(buf);
            var p := ParseStream(buf);
            match r
            case Ok(Some(m)) => p == ParseStream(rest).(messages := [m] + ParseStream(rest).messages)
            case Ok(None) => p == Parse([], rest, None)
            case Err(e) => p == Parse([], rest, Some(e))
    decreases |buf|
  {
    hide HeadOf;
    var h := HeadOf(buf);
    if h.Skip? {
      DecodeOncePeels(buf[h.consumed..]);
    }
  }

  predicate AllTyped(ms: seq<Message>) {
    forall i :: 0 <= i < |ms| ==> CanonicalMessage(ms[i])
  }

  lemma {:induction false} ParsedMessagesAreTyped(s: Bytes)
    ensures AllTyped(ParseStream(s).messages)
    decreases |s|
  {
    hide HeadOf, CanonicalMessage;
    var h := HeadOf(s);
    if h.Deliver? {
      DeliveredIsTyped(s);
    }
    if h.Deliver? || h.Skip? {
      ParsedMessagesAreTyped(s[h.consumed..]);
    }
  }

  /** A fatal error repeats, and nothing more is consumed, however many bytes arrive after it. */
  lemma {:induction false} FatalIsSticky(buf: Bytes, more: Bytes)
    requires DecodeOnce(buf).0.Err?
    ensures var (r, rest) := DecodeOnce(buf);
            DecodeOnce(rest + more) == (r, rest + more)
    decreases |buf|
  {
    hide HeadOf;
    var h := HeadOf(buf);
    if h.Skip? {
      FatalIsSticky(buf[h.consumed..], more);
    } else {
      HeadIsStable(buf, more);
    }
  }

  // ---------------------------------------------------------- reading in chunks

  /** A reader that calls the decoder after every chunk until it asks for more or fails. */
  datatype Reader = Reader(messages: seq<Message>, buffer: Bytes, error: Option<MessageError>)

  function Drain(r: Reader): Reader
    decreases |r.buffer|
  {
    match DecodeOnce(r.buffer)
    case (Ok(Some(m)), rest) => Drain(Reader(r.messages + [m], rest, None))
    case (Ok(None), rest) => Reader(r.messages, rest, None)
    case (Err(e), rest) => Reader(r.messages, rest, Some(e))
  }

  function ReadChunks(chunks: seq<Bytes>): Reader {
    if chunks == [] then Reader([], [], None)
    else
      var before := ReadChunks(chunks[..|chunks| - 1]);
      Drain(before.(buffer := before.buffer + chunks[|chunks| - 1]))
  }

  lemma {:induction false} DrainParses(r: Reader)
    ensures var p := ParseStream(r.buffer);
            Drain(r) == Reader(r.messages + p.messages, p.rest, p.error)
    decreases |r.buffer|
  {
    hide HeadOf;
    DecodeOncePeels(r.buffer);
    match DecodeOnce(r.buffer)
    case (Ok(Some(m)), rest) =>
      DrainParses(Reader(r.messages + [m], rest, None));
      var q := ParseStream(rest);
      assert (r.messages + [m]) + q.messages == r.messages + ([m] + q.messages);
    case _ =>
  }

  /**
   * Codec refinement: for every chunking, the messages delivered, the bytes left over and the final
   * error are those of one parse of the concatenated stream.
   */
  lemma {:induction false} ChunkedDecodeIsParse(chunks: seq<Bytes>)
    ensures var p := ParseStream(Joined(chunks));
            ReadChunks(chunks) == Reader(p.messages, p.rest, p.error)
  {
    hide HeadOf;
    if chunks == [] {
      EmptyNeedsMore();
    } else {
      var front, last := chunks[..|chunks| - 1], chunks[|chunks| - 1];
      ChunkedDecodeIsParse(front);
      JoinedLast(chunks);
      ParseResumes(Joined(front), last);
      var before := ReadChunks(front);
      DrainParses(before.(buffer := before.buffer + last));
    }
  }

  /** So every message a reader hands on, whatever it was fed, is of the variant its header announces. */
  lemma ReadMessagesAreTyped(chunks: seq<Bytes>)
    ensures AllTyped(ReadChunks(chunks).messages)
  {
    hide AllTyped, ParseStream, ReadChunks;
    ChunkedDecodeIsParse(chunks);
    ParsedMessagesAreTyped(Joined(chunks));
  }

  // ------------------------------------------------- which bytes were consumed

  /** One complete frame, nothing more, that the codec delivers or skips. */
  predicate Consumable(f: Bytes) {
    (HeadOf(f).Deliver? || HeadOf(f).Skip?) && HeadOf(f).consumed == |f|
  }

  predicate AllConsumable(frames: seq<Bytes>) {
    frames != [] ==> Consumable(frames[0]) && AllConsumable(frames[1..])
  }

  function DeliveredBy(frames: seq<Bytes>): seq<Message> {
    if frames == [] then []
    else (if HeadOf(frames[0]).Deliver? then [HeadOf(frames[0]).message] else []) + DeliveredBy(frames[1..])
  }

  /**
   * Any way of cutting a stream into consumable frames and a residue that is not one determines the
   * parse: the messages are those frames' own, and the residue is what is left.
   */
  lemma {:induction false} SegmentsDetermineParse(frames: seq<Bytes>, residue: Bytes)
    requires AllConsumable(frames) && (HeadOf(residue).NeedMore? || HeadOf(residue).Fatal?)
    ensures ParseStream(Joined(frames) + residue)
            == Parse(DeliveredBy(frames), residue,
                     if HeadOf(residue).Fatal? then Some(HeadOf(residue).error) else None)
  {
    hide HeadOf;
    if frames == [] {
      assert Joined(frames) + residue == residue;
    } else {
      var f := frames[0];
      assert Consumable(f);
      var tail := Joined(frames[1..]) + residue;
      assert Joined(frames) + residue == f + tail;
      HeadIsStable(f, tail);
      assert (f + tail)[|f|..] == tail;
      SegmentsDetermineParse(frames[1..], residue);
    }
  }

  /** The frames the codec removes from a stream, in order. */
  function FramesIn(s: Bytes): seq<Bytes>
    decreases |s|
  {
    var h := HeadOf(s);
    if h.Deliver? || h.Skip? then [s[..h.consumed]] + FramesIn(s[h.consumed..]) else []
  }

  lemma {:induction false} FramesAreConsumable(s: Bytes)
    ensures AllConsumable(FramesIn(s))
    ensures DeliveredBy(FramesIn(s)) == ParseStream(s).messages
    decreases |s|
  {
    hide HeadOf;
    var h := HeadOf(s);
    if h.Deliver? || h.Skip? {
      HeadStandsAlone(s);
      FramesAreConsumable(s[h.consumed..]);
      assert FramesIn(s)[1..] == FramesIn(s[h.consumed..]);
    }
  }

  lemma {:induction false} FramesAreConserved(s: Bytes)
    ensures s == Joined(FramesIn(s)) + ParseStream(s).rest
    ensures HeadOf(ParseStream(s).rest).NeedMore? || HeadOf(ParseStream(s).rest).Fatal?
    decreases |s|
  {
    hide HeadOf;
    var h := HeadOf(s);
    if h.Deliver? || h.Skip? {
      var tail := s[h.consumed..];
      FramesAreConserved(tail);
      assert FramesIn(s)[1..] == FramesIn(tail);
      CutAndJoin(s, h.consumed, Joined(FramesIn(tail)), ParseStream(tail).rest);
    }
  }

  /** Every stream is cut that way: the bytes removed are exactly the delivered and the skipped frames. */
  lemma ParseSegments(s: Bytes)
    ensures AllConsumable(FramesIn(s))
    ensures DeliveredBy(FramesIn(s)) == ParseStream(s).messages
    ensures s == Joined(FramesIn(s)) + ParseStream(s).rest
    ensures HeadOf(ParseStream(s).rest).NeedMore? || HeadOf(ParseStream(s).rest).Fatal?
  {
    hide HeadOf, AllConsumable, Joined;
    FramesAreConsumable(s);
    FramesAreConserved(s);
  }

  // ------------------------------------------------------ unique decodability

  predicate Sendable(m: Message) {
    EncodedSize(m.payload) <= U32_MAX && CanonicalMessage(m)
  }

  predicate AllSendable(ms: seq<Message>) {
    forall i :: 0 <= i < |ms| ==> Sendable(ms[i])
  }

  function EncodeAll(ms: seq<Message>): Bytes
    requires AllSendable(ms)
  {
    if ms == [] then [] else (assert Sendable(ms[0]); EncodeMessage(ms[0]).value) + EncodeAll(ms[1..])
  }

  function DerivedAll(ms: seq<Message>): seq<Message>
    requires AllSendable(ms)
  {
    if ms == [] then [] else (assert Sendable(ms[0]); [ms[0].Derived()]) + DerivedAll(ms[1..])
  }

  lemma {:induction false} EncodedStreamParses(ms: seq<Message>)
    requires AllSendable(ms)
    ensures ParseStream(EncodeAll(ms)) == Parse(DerivedAll(ms), [], None)
  {
    hide TryFrame, DecodePayload, EncodeMessage, CanonicalMessage, PayloadBytes;
    if ms == [] {
      EmptyNeedsMore();
    } else {
      assert Sendable(ms[0]);
      var bytes, tail := EncodeMessage(ms[0]).value, EncodeAll(ms[1..]);
      CanonicalMessageFrames(ms[0], tail);
      assert (bytes + tail)[|bytes|..] == tail;
      EncodedStreamParses(ms[1..]);
    }
  }

  /** Whatever the chunking, a stream of printed canonical messages is read back as exactly those messages. */
  lemma SentMessagesAreReceived(ms: seq<Message>, chunks: seq<Bytes>)
    requires AllSendable(ms)
    requires Joined(chunks) == EncodeAll(ms)
    ensures ReadChunks(chunks) == Reader(DerivedAll(ms), [], None)
  {
    ChunkedDecodeIsParse(chunks);
    EncodedStreamParses(ms);
  }

  /** Two lists of messages with the same bytes are the same list, up to the derived header fields. */
  lemma EncodingIsInjective(ms: seq<Message>, ns: seq<Message>)
    requires AllSendable(ms)
    requires AllSendable(ns)
    requires EncodeAll(ms) == EncodeAll(ns)
    ensures DerivedAll(ms) == DerivedAll(ns)
  {
    EncodedStreamParses(ms);
    EncodedStreamParses(ns);
  }
}
