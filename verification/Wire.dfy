/**
 * Bytes on the wire: fixed-width unsigned integers, the error taxonomy, and the big-endian
 * readers and printers every message body is built from.
 */
module Wire {

  type u8 = x: int | 0 <= x < 0x100
  type u16 = x: int | 0 <= x < 0x1_0000
  type u32 = x: int | 0 <= x < 0x1_0000_0000
  type i32 = x: int | -0x8000_0000 <= x < 0x8000_0000

  const U32_MAX: int := 0xFFFF_FFFF

  type Bytes = seq<u8>
  type Bytes4 = s: Bytes | |s| == 4 witness [0, 0, 0, 0]
  type Bytes6 = s: Bytes | |s| == 6 witness [0, 0, 0, 0, 0, 0]
  type Bytes17 = s: Bytes | |s| == 17 witness seq(17, i => 0)

  datatype Option<+T> = None | Some(value: T)

  /** Message type selector of a header; the two catch-alls keep the raw value they did not recognise. */
  datatype PayloadType =
    | NegativeAcknowledge
    | VehicleIdentificationRequest
    | VehicleIdentificationRequestWithEID
    | VehicleIdentificationRequestWithVIN
    | VehicleAnnouncement
    | RoutingActivationRequest
    | RoutingActivationResponse
    | AliveCheckRequest
    | AliveCheckResponse
    | EntityStatusRequest
    | EntityStatusResponse
    | PowerModeInfoRequest
    | PowerModeInfoResponse
    | DiagnosticMessage
    | DiagnosticMessagePositiveAcknowledge
    | DiagnosticMessageNegativeAcknowledge
    | Reserved(raw: u16)
    | ReservedVehicleManufacturer(raw: u16)

  datatype MessageError =
    | VersionInverseIncorrect(expected: u8, value: u8)
    | PayloadLengthTooShort(length: nat, minimum: u32)
    | PayloadTooLarge(size: nat)
    | UnexpectedPayloadType(payloadType: PayloadType)
    | UnsupportedPayloadType(payloadType: PayloadType)
    | Incomplete
    | TrailingBytes
    | Io
  {
    /** Stream sync is lost; everything else only spoils one frame. */
    predicate IsFramingFatal() {
      VersionInverseIncorrect? || Incomplete?
    }
  }

  datatype Result<+T> = Ok(value: T) | Err(error: MessageError) {
    predicate IsFailure() {
      Err?
    }

    function PropagateFailure<U>(): Result<U>
      requires Err?
    {
      Err(error)
    }

    function Extract(): T
      requires Ok?
    {
      value
    }
  }

  // ---------------------------------------------------------------- printers

  function U16Bytes(v: u16): (r: Bytes)
    ensures |r| == 2
  {
    [v / 0x100, v % 0x100]
  }

  /** The last `n` base-256 digits of a number, the most significant first. */
  function BigEndian(v: nat, n: nat): (r: Bytes)
    ensures |r| == n
    decreases n
  {
    if n == 0 then [] else BigEndian(v / 0x100, n - 1) + [v % 0x100]
  }

  function U32Bytes(v: u32): (r: Bytes)
    ensures |r| == 4
  {
    BigEndian(v, 4)
  }

  lemma U32Halves(hi: u16, lo: u16)
    ensures var v: nat := hi * 0x1_0000 + lo;
            BigEndian(v, 4) == U16Bytes(hi) + U16Bytes(lo)
  {
    var v: nat := hi * 0x1_0000 + lo;
    var v1, v2, v3 := v / 0x100, v / 0x100 / 0x100, v / 0x100 / 0x100 / 0x100;
    assert v2 == hi && v1 % 0x100 == lo / 0x100 && v % 0x100 == lo % 0x100 && v3 == hi / 0x100;
    assert BigEndian(v3, 1) == [hi / 0x100] by { assert BigEndian(v3 / 0x100, 0) == []; }
    assert BigEndian(v2, 2) == BigEndian(v3, 1) + [hi % 0x100];
    assert BigEndian(v1, 3) == BigEndian(v2, 2) + [lo / 0x100];
    assert BigEndian(v, 4) == BigEndian(v1, 3) + [lo % 0x100];
  }

  // ---------------------------------------------------------------- readers

  /** The big-endian number in the two bytes at a position. */
  function U16At(b: Bytes, at: nat): u16
    requires at + 2 <= |b|
  {
    var hi: int := b[at];
    hi * 0x100 + b[at + 1]
  }

  function U32At(b: Bytes, at: nat): u32
    requires at + 4 <= |b|
  {
    var hi: int := U16At(b, at);
    hi * 0x1_0000 + U16At(b, at + 2)
  }

  function ReadU8(buf: Bytes): (r: Result<(u8, Bytes)>)
    ensures r.Ok? <==> |buf| >= 1
    ensures r.Err? ==> r.error == Incomplete
    ensures r.Ok? ==> buf == [r.value.0] + r.value.1
  {
    if |buf| < 1 then Err(Incomplete) else Ok((buf[0], buf[1..]))
  }

  function ReadU16(buf: Bytes): (r: Result<(u16, Bytes)>)
    ensures r.Ok? <==> |buf| >= 2
    ensures r.Err? ==> r.error == Incomplete
    ensures r.Ok? ==> r.value.1 == buf[2..]
  {
    if |buf| < 2 then Err(Incomplete) else Ok((U16At(buf, 0), buf[2..]))
  }

  function ReadU32(buf: Bytes): (r: Result<(u32, Bytes)>)
    ensures r.Ok? <==> |buf| >= 4
    ensures r.Err? ==> r.error == Incomplete
    ensures r.Ok? ==> r.value.1 == buf[4..]
  {
    if |buf| < 4 then Err(Incomplete)
    else Ok((U32At(buf, 0), buf[4..]))
  }

  /** `take` and `read_array`: exactly `n` bytes, or nothing. */
  function ReadArray(buf: Bytes, n: nat): (r: Result<(Bytes, Bytes)>)
    ensures r.Ok? <==> |buf| >= n
    ensures r.Err? ==> r.error == Incomplete
    ensures r.Ok? ==> |r.value.0| == n && buf == r.value.0 + r.value.1
  {
    if |buf| < n then Err(Incomplete) else Ok((buf[..n], buf[n..]))
  }

  /** A four-byte tail that is present exactly when four bytes are left. */
  function ReadOptional4(buf: Bytes): (r: (Option<Bytes4>, Bytes))
    ensures r.0.Some? <==> |buf| >= 4
    ensures buf == TailBytes(r.0) + r.1
  {
    if |buf| < 4 then (None, buf) else (Some(buf[..4]), buf[4..])
  }

  function TailBytes(tail: Option<Bytes4>): Bytes {
    if tail.Some? then tail.value else []
  }

  lemma U16AtSplits(b: Bytes, at: nat)
    requires at + 2 <= |b|
    ensures U16Bytes(U16At(b, at)) == b[at..at + 2]
  {
  }

  /** A reader that succeeds splits its input into the printed form of what it read and the rest. */
  lemma ReadU16Splits(buf: Bytes)
    ensures ReadU16(buf).Ok? <==> |buf| >= 2
    ensures ReadU16(buf).Ok? ==> buf == U16Bytes(ReadU16(buf).value.0) + ReadU16(buf).value.1
    ensures ReadU16(buf).Err? ==> ReadU16(buf).error == Incomplete
  {
  }

  lemma ReadU32Splits(buf: Bytes)
    ensures ReadU32(buf).Ok? <==> |buf| >= 4
    ensures ReadU32(buf).Ok? ==> buf == U32Bytes(ReadU32(buf).value.0) + ReadU32(buf).value.1
    ensures ReadU32(buf).Err? ==> ReadU32(buf).error == Incomplete
  {
    hide U16Bytes, BigEndian, U16At;
    if |buf| >= 4 {
      U32Halves(U16At(buf, 0), U16At(buf, 2));
      U16AtSplits(buf, 0);
      U16AtSplits(buf, 2);
      assert buf == (buf[0..2] + buf[2..4]) + buf[4..];
    }
  }

  // ------------------------------------------------- readers undo the printers

  lemma ReadU8Back(v: u8, rest: Bytes)
    ensures ReadU8([v] + rest) == Ok((v, rest))
  {
    assert ([v] + rest)[1..] == rest;
  }

  lemma ReadU16Back(v: u16, rest: Bytes)
    ensures ReadU16(U16Bytes(v) + rest) == Ok((v, rest))
  {
    assert (U16Bytes(v) + rest)[2..] == rest;
  }

  lemma ReadU32Back(v: u32, rest: Bytes)
    ensures ReadU32(U32Bytes(v) + rest) == Ok((v, rest))
  {
    var (hi, lo) := (v / 0x1_0000, v % 0x1_0000);
    U32Halves(hi, lo);
    assert U32Bytes(v) == U16Bytes(hi) + U16Bytes(lo);
    assert (U32Bytes(v) + rest)[4..] == rest;
  }

  lemma ReadArrayBack(a: Bytes, rest: Bytes)
    ensures ReadArray(a + rest, |a|) == Ok((a, rest))
  {
    assert (a + rest)[..|a|] == a;
    assert (a + rest)[|a|..] == rest;
  }

  lemma ReadOptional4Back(tail: Option<Bytes4>)
    ensures ReadOptional4(TailBytes(tail)) == (tail, [])
  {
    if tail.Some? {
      assert tail.value[..4] == tail.value;
    }
  }

  /** Closing a right-nested print over what follows it. */
  lemma Regroup(a: Bytes, b: Bytes, c: Bytes, rest: Bytes)
    ensures a + (b + (c + rest)) == (a + (b + c)) + rest
  {
  }

  lemma CutAndJoin(s: Bytes, n: nat, middle: Bytes, rest: Bytes)
    requires n <= |s| && s[n..] == middle + rest
    ensures (s[..n] + middle) + rest == s
  {
    assert s == s[..n] + s[n..];
  }

  /** Byte strings one after another. */
  function Joined(parts: seq<Bytes>): Bytes {
    if parts == [] then [] else parts[0] + Joined(parts[1..])
  }

  lemma {:induction false} JoinedConcat(a: seq<Bytes>, b: seq<Bytes>)
    ensures Joined(a + b) == Joined(a) + Joined(b)
  {
    if a == [] {
      assert a + b == b;
    } else {
      assert (a + b)[1..] == a[1..] + b;
      JoinedConcat(a[1..], b);
      Regroup([], a[0], Joined(a[1..]), Joined(b));
    }
  }

  lemma JoinedLast(parts: seq<Bytes>)
    requires parts != []
    ensures Joined(parts) == Joined(parts[..|parts| - 1]) + parts[|parts| - 1]
  {
    var front, last := parts[..|parts| - 1], parts[|parts| - 1];
    assert parts == front + [last] && Joined([last]) == last;
    JoinedConcat(front, [last]);
  }
}
