/**
 * Framing only: delimit one frame at the front of a buffer without looking into its body.
 */
module Framer {
  import opened Wire
  import opened Codes
  import opened Messages
  import opened RoundTrip

  datatype RawFrame = RawFrame(header: Header, payload: Bytes)

  function TryFrame(buf: Bytes): (r: Result<Option<(RawFrame, nat)>>)
    ensures r.Ok? && r.value.Some? ==>
              var (frame, n) := r.value.value;
              HEADER_SIZE <= n <= |buf| && n == HEADER_SIZE + frame.header.length
              && frame.payload == buf[HEADER_SIZE..n]
    ensures r.Err? ==> |buf| >= HEADER_SIZE && r.error.IsFramingFatal()
  {
    if |buf| < HEADER_SIZE then Ok(None)
    else
      var (header, _) :- DecodeHeader(buf[..HEADER_SIZE]);
      if |buf| - HEADER_SIZE < header.length then Ok(None)
      else
        var total := HEADER_SIZE + header.length;
        Ok(Some((RawFrame(header, buf[HEADER_SIZE..total]), total)))
  }

  /** The buffer starts with a complete frame. */
  predicate StartsWithFrame(buf: Bytes) {
    TryFrame(buf).Ok? && TryFrame(buf).value.Some?
  }

  function FirstFrame(buf: Bytes): RawFrame
    requires StartsWithFrame(buf)
  {
    TryFrame(buf).value.value.0
  }

  function FirstLength(buf: Bytes): (n: nat)
    requires StartsWithFrame(buf)
    ensures HEADER_SIZE <= n <= |buf|
  {
    TryFrame(buf).value.value.1
  }

  /** The bytes are one complete frame and nothing else. */
  predicate IsFrame(b: Bytes) {
    StartsWithFrame(b) && FirstLength(b) == |b|
  }

  /** More bytes never change a frame or an error already found. */
  lemma FramingIsStable(buf: Bytes, more: Bytes)
    requires TryFrame(buf) != Ok(None)
    ensures TryFrame(buf + more) == TryFrame(buf)
  {
    assert (buf + more)[..HEADER_SIZE] == buf[..HEADER_SIZE];
    if StartsWithFrame(buf) {
      var n := FirstLength(buf);
      assert (buf + more)[HEADER_SIZE..n] == buf[HEADER_SIZE..n];
    }
  }

  /** The framer's three answers, by the bytes alone: two complementary bytes and the length field decide. */
  lemma FramingByBytes(buf: Bytes)
    ensures TryFrame(buf).Err? <==> |buf| >= HEADER_SIZE && buf[1] != 0xFF - buf[0]
    ensures StartsWithFrame(buf) <==>
              |buf| >= HEADER_SIZE && buf[1] == 0xFF - buf[0] && |buf| >= HEADER_SIZE + DeclaredLength(buf)
    ensures StartsWithFrame(buf) ==>
              FirstLength(buf) == HEADER_SIZE + DeclaredLength(buf)
              && FirstFrame(buf).payload == buf[HEADER_SIZE..FirstLength(buf)]
              && HeaderBytes(FirstFrame(buf).header) == buf[..HEADER_SIZE]
              && FirstFrame(buf).header.payloadType == PayloadTypeOf(U16At(buf, 2))
    ensures TryFrame(buf).Err? ==> TryFrame(buf) == Err(VersionInverseIncorrect(0xFF - buf[0], buf[1]))
  {
    if |buf| >= HEADER_SIZE {
      HeaderByBytes(buf[..HEADER_SIZE]);
    }
  }

  /** The length field of a header. */
  function DeclaredLength(buf: Bytes): u32
    requires |buf| >= HEADER_SIZE
  {
    U32At(buf, 4)
  }

  lemma HeaderByBytes(b: Bytes)
    requires |b| == HEADER_SIZE
    ensures DecodeHeader(b).Ok? <==> b[1] == 0xFF - b[0]
    ensures DecodeHeader(b).Ok? ==>
              DecodeHeader(b).value.0.length == DeclaredLength(b) && HeaderBytes(DecodeHeader(b).value.0) == b
              && DecodeHeader(b).value.0.payloadType == PayloadTypeOf(U16At(b, 2))
    ensures DecodeHeader(b).Err? ==> DecodeHeader(b) == Err(VersionInverseIncorrect(0xFF - b[0], b[1]))
  {
    if DecodeHeader(b).Ok? {
      DecodedHeaderBytes(b);
      assert b[..HEADER_SIZE] == b;
    }
  }

  /** Every proper prefix of a frame asks for more bytes. */
  lemma PrefixNeedsMore(buf: Bytes, k: nat)
    requires StartsWithFrame(buf) && k < FirstLength(buf)
    ensures TryFrame(buf[..k]) == Ok(None)
  {
    if k >= HEADER_SIZE {
      assert buf[..k][..HEADER_SIZE] == buf[..HEADER_SIZE];
    }
  }

  /** The frame that was found stands alone as exactly those bytes. */
  lemma FrameStandsAlone(buf: Bytes)
    requires StartsWithFrame(buf)
    ensures var n := FirstLength(buf);
            IsFrame(buf[..n]) && FirstFrame(buf[..n]) == FirstFrame(buf)
            && buf[..n] == HeaderBytes(FirstFrame(buf).header) + FirstFrame(buf).payload
            && FirstFrame(buf).header.inverse == FirstFrame(buf).header.version.Inverse()
            && FirstFrame(buf).header.version.Canonical() && CanonicalPayloadType(FirstFrame(buf).header.payloadType)
  {
    var n := FirstLength(buf);
    assert buf[..n][..HEADER_SIZE] == buf[..HEADER_SIZE];
    assert buf[..n][HEADER_SIZE..n] == buf[HEADER_SIZE..n];
    DecodedHeaderBytes(buf[..HEADER_SIZE]);
    assert buf[..HEADER_SIZE][..HEADER_SIZE] == buf[..HEADER_SIZE];
  }

  /** A header is read from its own eight bytes, whatever follows. */
  lemma HeaderIsLocal(buf: Bytes)
    requires |buf| >= HEADER_SIZE
    ensures match DecodeHeader(buf[..HEADER_SIZE])
            case Ok((h, _)) => DecodeHeader(buf) == Ok((h, buf[HEADER_SIZE..]))
            case Err(e) => DecodeHeader(buf) == Err(e)
  {
    var b := buf[..HEADER_SIZE];
    assert ReadU8(b).value.0 == ReadU8(buf).value.0;
    var r1, s1 := ReadU8(b).value.1, ReadU8(buf).value.1;
    assert r1 == s1[..7];
    var r2, s2 := ReadU8(r1).value.1, ReadU8(s1).value.1;
    assert r2 == s2[..6];
    var r3, s3 := ReadU16(r2).value.1, ReadU16(s2).value.1;
    assert r3 == s3[..4];
    assert ReadU32(s3).value.1 == buf[HEADER_SIZE..];
  }

  lemma ShortHeader(buf: Bytes)
    requires |buf| < HEADER_SIZE
    ensures DecodeHeader(buf) == Err(Incomplete)
  {
  }

  /** The fused decoder is the framer followed by the body parser; asking for more is its `Incomplete`. */
  lemma FusedDecodeAgrees(buf: Bytes)
    ensures match TryFrame(buf)
            case Err(e) => DecodeMessage(buf) == Err(e)
            case Ok(None) => DecodeMessage(buf) == Err(Incomplete)
            case Ok(Some((frame, n))) =>
              match DecodePayload(frame.payload, frame.header.payloadType)
              case Err(e) => DecodeMessage(buf) == Err(e)
              case Ok(p) => DecodeMessage(buf) == Ok((Message(frame.header, p), buf[n..]))
  {
    hide DecodePayload, DecodeHeader;
    if |buf| < HEADER_SIZE {
      ShortHeader(buf);
    } else {
      HeaderIsLocal(buf);
      if StartsWithFrame(buf) {
        var n := FirstLength(buf);
        var rest := buf[HEADER_SIZE..];
        assert rest[..n - HEADER_SIZE] == buf[HEADER_SIZE..n];
        assert rest[n - HEADER_SIZE..] == buf[n..];
      }
    }
  }

  /** The frame a message is printed as, up to codes that do not stand for themselves. */
  lemma PrintedMessageFrames(m: Message, rest: Bytes)
    requires EncodedSize(m.payload) <= U32_MAX
    ensures var bytes := EncodeMessage(m).value;
            StartsWithFrame(bytes + rest)
            && FirstLength(bytes + rest) == |bytes|
            && FirstFrame(bytes + rest)
               == RawFrame(m.DerivedHeader().(version := VersionOf(m.header.version.Byte()),
                                              payloadType := PayloadTypeOf(PayloadTypeWord(m.header.payloadType))),
                           PayloadBytes(m.payload))
  {
    var bytes := EncodeMessage(m).value;
    var all := bytes + rest;
    assert all[..HEADER_SIZE] == HeaderBytes(m.DerivedHeader()) + [];
    HeaderBack(m.DerivedHeader(), []);
    assert all[HEADER_SIZE..|bytes|] == PayloadBytes(m.payload);
  }

  /** For canonical messages the frame is the message's own. */
  lemma CanonicalMessageFrames(m: Message, rest: Bytes)
    requires EncodedSize(m.payload) <= U32_MAX && CanonicalMessage(m)
    ensures var bytes := EncodeMessage(m).value;
            TryFrame(bytes + rest) == Ok(Some((RawFrame(m.DerivedHeader(), PayloadBytes(m.payload)), |bytes|)))
            && DecodePayload(PayloadBytes(m.payload), m.header.payloadType) == Ok(m.payload)
  {
    PrintedMessageFrames(m, rest);
    VersionBack(m.header.version);
    PayloadTypeBack(m.header.payloadType);
    PayloadRoundTrip(m.header.payloadType, m.payload);
  }
}
