/** The CRYPTO frame (section 19.6 of RFC 9000): how much data fits, and the parser's range check. */
module CryptoCodec {
  import opened Basics
  import opened VarInts

  datatype CryptoFrame = CryptoFrame(offset: VarInt, length: VarInt)

  /** The space a frame with `n` bytes of data takes. */
  function Space(offset: VarInt, n: VarInt): nat { 1 + Size(offset) + Size(n) + n }

  /** The implementation gives up on larger capacities. */
  const MAX_REMAINING: nat := 0x4000_0001

  function EstimateMaxCapacity(capacity: nat, offset: VarInt): (n: Option<nat>)
    requires capacity <= 1 + Size(offset) + 2 + MAX_REMAINING
    ensures n.Some? ==> 1 <= n.value <= 0x3fff_ffff
  {
    var overhead := 1 + Size(offset) + 2;
    if capacity < overhead then None
    else
      var remaining := capacity - overhead;
      Some(if remaining <= 62 then remaining + 1
           else if remaining <= 0x3fff then remaining
           else if remaining <= 0x4001 then 0x3fff
           else remaining - 2)
  }

  /** Larger data never takes less space. */
  lemma SpaceGrows(offset: VarInt, a: VarInt, b: VarInt)
    requires a <= b
    ensures Space(offset, a) <= Space(offset, b)
  {
  }

  /** The answer fits, nothing larger does, and there is no answer exactly when one byte does not fit. */
  lemma EstimateIsMaximal(capacity: nat, offset: VarInt, m: VarInt)
    requires capacity <= 1 + Size(offset) + 2 + MAX_REMAINING
    ensures var n := EstimateMaxCapacity(capacity, offset);
            && (n.None? <==> Space(offset, 1) > capacity)
            && (n.Some? ==> Space(offset, n.value) <= capacity && (m > n.value ==> Space(offset, m) > capacity))
  {
    var n := EstimateMaxCapacity(capacity, offset);
    if n.Some? && m > n.value { SpaceGrows(offset, n.value + 1, m); }
  }

  // ---------------------------------------------------------------- the header

  function Put(frame: CryptoFrame): Bytes { VarInts.Put(frame.offset) + VarInts.Put(frame.length) }

  datatype ParseError = Incomplete | TooLarge

  /** The check adds the offset to itself. */
  function Parse(input: Bytes): Result<(CryptoFrame, Bytes), ParseError> {
    match VarInts.Parse(input)
    case None => Err(Incomplete)
    case Some((offset, rest)) =>
      match VarInts.Parse(rest)
      case None => Err(Incomplete)
      case Some((length, rest)) =>
        if offset + offset > VARINT_MAX then Err(TooLarge) else Ok((CryptoFrame(offset, length), rest))
  }

  lemma ParsePut(frame: CryptoFrame, rest: Bytes)
    ensures Parse(Put(frame) + rest) == if 2 * frame.offset <= VARINT_MAX then Ok((frame, rest)) else Err(TooLarge)
  {
    Assoc(VarInts.Put(frame.offset), VarInts.Put(frame.length), rest);
    RoundTrip(frame.offset, VarInts.Put(frame.length) + rest);
    RoundTrip(frame.length, rest);
  }

  /** A header that announces data past the largest offset, and is accepted. */
  lemma IllegalHeaderAccepted()
    ensures var frame := CryptoFrame(1, VARINT_MAX);
            frame.offset + frame.length > VARINT_MAX && Parse(Put(frame)) == Ok((frame, []))
  {
    var frame := CryptoFrame(1, VARINT_MAX);
    ParsePut(frame, []);
    assert Put(frame) + [] == Put(frame);
  }

  // ---------------------------------------------------------------- the frame with its data

  function PutFrame(offset: VarInt, data: Bytes): Bytes
    requires |data| <= VARINT_MAX
  {
    Put(CryptoFrame(offset, |data|)) + data
  }

  /** The frame, its data, and what follows. */
  function ParseFrame(input: Bytes): Result<(CryptoFrame, Bytes, Bytes), ParseError> {
    match Parse(input)
    case Err(e) => Err(e)
    case Ok((frame, rest)) =>
      if |rest| < frame.length then Err(Incomplete) else Ok((frame, rest[..frame.length], rest[frame.length..]))
  }

  lemma ParsePutFrame(offset: VarInt, data: Bytes, rest: Bytes)
    requires |data| <= VARINT_MAX
    ensures ParseFrame(PutFrame(offset, data) + rest)
         == if 2 * offset <= VARINT_MAX then Ok((CryptoFrame(offset, |data|), data, rest)) else Err(TooLarge)
  {
    Assoc(Put(CryptoFrame(offset, |data|)), data, rest);
    ParsePut(CryptoFrame(offset, |data|), data + rest);
    assert (data + rest)[..|data|] == data && (data + rest)[|data|..] == rest;
  }

  /** A frame survives the wire if and only if twice its offset is still a variable-length integer. */
  lemma RoundTripIff(offset: VarInt, data: Bytes, rest: Bytes)
    requires |data| <= VARINT_MAX
    ensures ParseFrame(PutFrame(offset, data) + rest) == Ok((CryptoFrame(offset, |data|), data, rest)) <==> 2 * offset <= VARINT_MAX
  {
    ParsePutFrame(offset, data, rest);
  }

  /** A legal frame, one byte at offset 2^61, that is refused. */
  lemma LegalFrameRefused(byte: Byte)
    ensures 0x2000_0000_0000_0000 + 1 <= VARINT_MAX
    ensures ParseFrame(PutFrame(0x2000_0000_0000_0000, [byte])) == Err(TooLarge)
  {
    ParsePutFrame(0x2000_0000_0000_0000, [byte], []);
    assert PutFrame(0x2000_0000_0000_0000, [byte]) + [] == PutFrame(0x2000_0000_0000_0000, [byte]);
  }

  lemma ParseShortens(input: Bytes)
    ensures VarInts.Parse(input).Some? ==> |VarInts.Parse(input).value.1| < |input|
  {
  }

  /**
   No illegal frame is accepted as a whole from fewer than 2^61 bytes: what the doubled offset lets
   through past the largest offset announces more data than that.
   */
  lemma AcceptedIsLegal(input: Bytes)
    requires |input| < 0x2000_0000_0000_0000
    ensures ParseFrame(input).Ok? ==> ParseFrame(input).value.0.offset + ParseFrame(input).value.0.length <= VARINT_MAX
  {
    ParseShortens(input);
    if VarInts.Parse(input).Some? { ParseShortens(VarInts.Parse(input).value.1); }
  }
}
