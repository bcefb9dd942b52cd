/** The ACK frame (section 19.3 of RFC 9000): its encoding, and the packet number ranges it denotes. */
module AckCodec {
  import opened Basics
  import opened VarInts
  import RecoveryModel

  datatype EcnCounts = EcnCounts(ect0: VarInt, ect1: VarInt, ce: VarInt)

  /** A gap and the length of the range below it. */
  type Pair = (VarInt, VarInt)

  datatype AckFrame = AckFrame(largest: VarInt, delay: VarInt, firstRange: VarInt, ranges: seq<Pair>, ecn: Option<EcnCounts>)

  /** The range count is itself a variable-length integer. */
  predicate Encodable(f: AckFrame) { |f.ranges| <= VARINT_MAX }

  // ---------------------------------------------------------------- encoding

  function PutPair(pair: Pair): Bytes { Put(pair.0) + Put(pair.1) }

  function PutRanges(rs: seq<Pair>): Bytes { PutAll(PutPair, rs) }

  function PutEcn(ecn: Option<EcnCounts>): Bytes {
    match ecn
    case None => []
    case Some(e) => Put(e.ect0) + (Put(e.ect1) + Put(e.ce))
  }

  function TypeByte(f: AckFrame): Byte { if f.ecn.Some? then 3 else 2 }

  function Body(f: AckFrame): Bytes
    requires Encodable(f)
  {
    Put(f.largest) + (Put(f.delay) + (Put(|f.ranges|) + (Put(f.firstRange) + (PutRanges(f.ranges) + PutEcn(f.ecn)))))
  }

  function Encode(f: AckFrame): Bytes
    requires Encodable(f)
  {
    [TypeByte(f)] + Body(f)
  }

  function RangesSize(rs: seq<Pair>): nat {
    if rs == [] then 0 else RangesSize(rs[..|rs| - 1]) + Size(rs[|rs| - 1].0) + Size(rs[|rs| - 1].1)
  }

  function EncodingSize(f: AckFrame): nat
    requires Encodable(f)
  {
    1 + Size(f.largest) + Size(f.delay) + Size(|f.ranges|) + Size(f.firstRange) + RangesSize(f.ranges)
    + match f.ecn case None => 0 case Some(e) => Size(e.ect0) + Size(e.ect1) + Size(e.ce)
  }

  // ---------------------------------------------------------------- decoding

  function ParsePair(input: Bytes): Option<(Pair, Bytes)> {
    match Parse(input)
    case None => None
    case Some((gap, rest)) =>
      match Parse(rest)
      case None => None
      case Some((range, rest)) => Some(((gap, range), rest))
  }

  function ParseRanges(input: Bytes, count: nat): Option<(seq<Pair>, Bytes)> { Repeat(ParsePair, [], input, count) }

  function ParseEcn(input: Bytes): Option<(EcnCounts, Bytes)> {
    match Parse(input)
    case None => None
    case Some((ect0, rest)) =>
      match Parse(rest)
      case None => None
      case Some((ect1, rest)) =>
        match Parse(rest)
        case None => None
        case Some((ce, rest)) => Some((EcnCounts(ect0, ect1, ce), rest))
  }

  datatype Header = Header(largest: VarInt, delay: VarInt, count: VarInt, firstRange: VarInt)

  function ParseHeader(input: Bytes): Option<(Header, Bytes)> {
    match Parse(input)
    case None => None
    case Some((largest, rest)) =>
      match Parse(rest)
      case None => None
      case Some((delay, rest)) =>
        match Parse(rest)
        case None => None
        case Some((count, rest)) =>
          match Parse(rest)
          case None => None
          case Some((first, rest)) => Some((Header(largest, delay, count, first), rest))
  }

  /** The parser behind the frame type, which tells whether ECN counts follow. */
  function ParseBody(input: Bytes, ecn: bool): Option<(AckFrame, Bytes)> {
    match ParseHeader(input)
    case None => None
    case Some((h, rest)) =>
      match ParseRanges(rest, h.count)
      case None => None
      case Some((ranges, rest)) =>
        if !ecn then Some((AckFrame(h.largest, h.delay, h.firstRange, ranges, None), rest))
        else match ParseEcn(rest)
             case None => None
             case Some((e, rest)) => Some((AckFrame(h.largest, h.delay, h.firstRange, ranges, Some(e)), rest))
  }

  function Decode(input: Bytes): Option<(AckFrame, Bytes)> {
    if input == [] || (input[0] != 2 && input[0] != 3) then None else ParseBody(input[1..], input[0] == 3)
  }

  lemma PairsUndone()
    ensures Undoes(ParsePair, PutPair)
  {
    forall pair: Pair, rest: Bytes ensures ParsePair(PutPair(pair) + rest) == Some((pair, rest)) {
      Assoc(Put(pair.0), Put(pair.1), rest);
      RoundTrip(pair.0, Put(pair.1) + rest);
      RoundTrip(pair.1, rest);
    }
  }

  lemma EcnRoundTrip(ecn: EcnCounts, rest: Bytes)
    ensures ParseEcn(PutEcn(Some(ecn)) + rest) == Some((ecn, rest))
  {
    assert PutEcn(Some(ecn)) + rest == Put(ecn.ect0) + (Put(ecn.ect1) + (Put(ecn.ce) + rest));
    RoundTrip(ecn.ect0, Put(ecn.ect1) + (Put(ecn.ce) + rest));
    RoundTrip(ecn.ect1, Put(ecn.ce) + rest);
    RoundTrip(ecn.ce, rest);
  }

  lemma HeaderRoundTrip(h: Header, rest: Bytes)
    ensures ParseHeader(Put(h.largest) + (Put(h.delay) + (Put(h.count) + (Put(h.firstRange) + rest)))) == Some((h, rest))
  {
    RoundTrip(h.largest, Put(h.delay) + (Put(h.count) + (Put(h.firstRange) + rest)));
    RoundTrip(h.delay, Put(h.count) + (Put(h.firstRange) + rest));
    RoundTrip(h.count, Put(h.firstRange) + rest);
    RoundTrip(h.firstRange, rest);
  }

  lemma BodyThen(f: AckFrame, rest: Bytes)
    requires Encodable(f)
    ensures Body(f) + rest
         == Put(f.largest) + (Put(f.delay) + (Put(|f.ranges|) + (Put(f.firstRange) + (PutRanges(f.ranges) + (PutEcn(f.ecn) + rest)))))
  {
    var e := PutEcn(f.ecn);
    var r := PutRanges(f.ranges) + e;
    var c := Put(f.firstRange) + r;
    var b := Put(|f.ranges|) + c;
    var a := Put(f.delay) + b;
    Assoc(Put(f.largest), a, rest);
    Assoc(Put(f.delay), b, rest);
    Assoc(Put(|f.ranges|), c, rest);
    Assoc(Put(f.firstRange), r, rest);
    Assoc(PutRanges(f.ranges), e, rest);
  }

  lemma BodyRoundTrip(f: AckFrame, rest: Bytes)
    requires Encodable(f)
    ensures ParseBody(Body(f) + rest, f.ecn.Some?) == Some((f, rest))
  {
    BodyThen(f, rest);
    HeaderRoundTrip(Header(f.largest, f.delay, |f.ranges|, f.firstRange), PutRanges(f.ranges) + (PutEcn(f.ecn) + rest));
    PairsUndone();
    RepeatUndoes(ParsePair, PutPair, [], f.ranges, PutEcn(f.ecn) + rest);
    assert [] + f.ranges == f.ranges;
    if f.ecn.Some? {
      EcnRoundTrip(f.ecn.value, rest);
    } else {
      assert PutEcn(f.ecn) + rest == rest;
    }
  }

  /** Any encodable frame is decoded back, leaving exactly what followed it. */
  lemma FrameRoundTrip(f: AckFrame, rest: Bytes)
    requires Encodable(f)
    ensures Decode(Encode(f) + rest) == Some((f, rest))
  {
    BodyRoundTrip(f, rest);
    TailOf(TypeByte(f), Body(f), rest);
  }

  lemma TailOf(t: Byte, b: Bytes, rest: Bytes)
    ensures (([t] + b) + rest)[0] == t && (([t] + b) + rest)[1..] == b + rest
  {
  }

  lemma {:induction false} RangesSizeExact(rs: seq<Pair>)
    ensures |PutRanges(rs)| == RangesSize(rs)
    decreases |rs|
  {
    if rs != [] {
      var n := |rs| - 1;
      RangesSizeExact(rs[..n]);
      assert rs == rs[..n] + [rs[n]];
      PutAllPush(PutPair, rs[..n], rs[n]);
    }
  }

  /** The announced size is the number of bytes written. */
  lemma SizeExact(f: AckFrame)
    requires Encodable(f)
    ensures |Encode(f)| == EncodingSize(f)
  {
    RangesSizeExact(f.ranges);
  }

  /** Append the ranges to a buffer, one by one. */
  method AppendRanges(buffer: Bytes, rs: seq<Pair>) returns (out: Bytes)
    ensures out == buffer + PutRanges(rs)
  {
    out := buffer;
    for i := 0 to |rs|
      invariant out == buffer + PutRanges(rs[..i])
    {
      assert rs[..i + 1] == rs[..i] + [rs[i]];
      PutAllPush(PutPair, rs[..i], rs[i]);
      Assoc(buffer, PutRanges(rs[..i]), PutPair(rs[i]));
      Assoc(out, Put(rs[i].0), Put(rs[i].1));
      out := out + Put(rs[i].0) + Put(rs[i].1);
    }
    assert rs[..|rs|] == rs;
  }

  method AppendEcn(buffer: Bytes, f: AckFrame) returns (out: Bytes)
    requires Encodable(f)
    ensures out == buffer + PutEcn(f.ecn)
  {
    out := buffer;
    if f.ecn.Some? { out := out + Put(f.ecn.value.ect0) + Put(f.ecn.value.ect1) + Put(f.ecn.value.ce); }
  }

  /** Write the frame field by field. */
  method PutFrame(buffer: Bytes, f: AckFrame) returns (out: Bytes)
    requires Encodable(f)
    ensures out == buffer + Encode(f)
  {
    out := buffer + [TypeByte(f)];
    out := out + Put(f.largest);
    out := out + Put(f.delay);
    out := out + Put(|f.ranges|);
    out := out + Put(f.firstRange);
    out := AppendRanges(out, f.ranges);
    out := AppendEcn(out, f);
    Nested(buffer + [TypeByte(f)], Put(f.largest), Put(f.delay), Put(|f.ranges|), Put(f.firstRange), PutRanges(f.ranges), PutEcn(f.ecn));
    Assoc(buffer, [TypeByte(f)], Body(f));
  }

  lemma Nested(x: Bytes, a: Bytes, b: Bytes, c: Bytes, d: Bytes, e: Bytes, g: Bytes)
    ensures x + a + b + c + d + e + g == x + (a + (b + (c + (d + (e + g)))))
  {
    Assoc(x + a + b + c + d, e, g);
    Assoc(x + a + b + c, d, e + g);
    Assoc(x + a + b, c, d + (e + g));
    Assoc(x + a, b, c + (d + (e + g)));
    Assoc(x, a, b + (c + (d + (e + g))));
  }

  /** Parse `count` items in a loop; running out of input fails the whole frame. */
  method ReadMany<T>(parse: Bytes -> Option<(T, Bytes)>, input: Bytes, count: nat) returns (r: Option<(seq<T>, Bytes)>)
    ensures r == Repeat(parse, [], input, count)
  {
    var items: seq<T>, remain, left: nat := [], input, count;
    while left > 0
      invariant Repeat(parse, [], input, count) == Repeat(parse, items, remain, left)
    {
      var next := parse(remain);
      if next.None? { return None; }
      items, remain, left := items + [next.value.0], next.value.1, left - 1;
    }
    r := Some((items, remain));
  }

  /** The parser behind the frame type: four integers, the counted ranges, and the ECN counts if announced. */
  method ReadFrame(input: Bytes, ecn: bool) returns (r: Option<(AckFrame, Bytes)>)
    ensures r == ParseBody(input, ecn)
  {
    var header := ParseHeader(input);
    if header.None? { return None; }
    var (h, rest) := header.value;
    var ranges := ReadMany(ParsePair, rest, h.count);
    if ranges.None? { return None; }
    if !ecn { return Some((AckFrame(h.largest, h.delay, h.firstRange, ranges.value.0, None), ranges.value.1)); }
    var counts := ParseEcn(ranges.value.1);
    if counts.None? { return None; }
    r := Some((AckFrame(h.largest, h.delay, h.firstRange, ranges.value.0, Some(counts.value.0)), counts.value.1));
  }

  // ---------------------------------------------------------------- the ranges

  /** What lies between the lower end of one range and the lower end of the next. */
  function Total(rs: seq<Pair>): nat { if rs == [] then 0 else rs[0].0 + 2 + rs[0].1 + Total(rs[1..]) }

  /** Walking down from `left` never passes zero. */
  predicate Fits(left: nat, rs: seq<Pair>) {
    rs == [] || (rs[0].0 + 2 <= left && rs[0].1 <= left - rs[0].0 - 2 && Fits(left - rs[0].0 - 2 - rs[0].1, rs[1..]))
  }

  predicate WellFormed(f: AckFrame) { f.firstRange <= f.largest && Fits(f.largest - f.firstRange, f.ranges) }

  function Walk(left: nat, rs: seq<Pair>): RecoveryModel.AckRanges
    requires Fits(left, rs)
  {
    if rs == [] then []
    else
      var right := left - rs[0].0 - 2;
      [(right - rs[0].1, right)] + Walk(right - rs[0].1, rs[1..])
  }

  function Ranges(f: AckFrame): RecoveryModel.AckRanges
    requires WellFormed(f)
  {
    [(f.largest - f.firstRange, f.largest)] + Walk(f.largest - f.firstRange, f.ranges)
  }

  lemma {:induction false} FitsIff(left: nat, rs: seq<Pair>)
    ensures Fits(left, rs) <==> Total(rs) <= left
    decreases |rs|
  {
    if rs != [] && rs[0].0 + 2 + rs[0].1 <= left { FitsIff(left - rs[0].0 - 2 - rs[0].1, rs[1..]); }
  }

  /** Iterating the ranges stays at or above zero if and only if the fields add up to at most the largest number. */
  lemma WellFormedIff(f: AckFrame)
    ensures WellFormed(f) <==> f.firstRange + Total(f.ranges) <= f.largest
  {
    if f.firstRange <= f.largest { FitsIff(f.largest - f.firstRange, f.ranges); }
  }

  /** A frame that the parser lets through and whose first range would already end below zero. */
  lemma FirstRangeBelowZero(rest: Bytes)
    ensures var f := AckFrame(0, 0, 1, [], None);
            Encodable(f) && Decode(Encode(f) + rest) == Some((f, rest)) && !WellFormed(f)
  {
    FrameRoundTrip(AckFrame(0, 0, 1, [], None), rest);
  }

  lemma {:induction false} WalkAt(left: nat, rs: seq<Pair>, j: nat)
    requires Fits(left, rs) && j < |rs|
    ensures j < |Walk(left, rs)| && Total(rs[..j + 1]) <= left
    ensures Walk(left, rs)[j] == (left - Total(rs[..j + 1]), left - Total(rs[..j + 1]) + rs[j].1)
    decreases |rs|
  {
    var next := left - rs[0].0 - 2 - rs[0].1;
    assert rs[..j + 1][1..] == rs[1..][..j];
    if j > 0 {
      WalkAt(next, rs[1..], j - 1);
      assert rs[1..][..j - 1 + 1] == rs[1..][..j];
    }
  }

  /** The closed form: each lower end is the largest number less all gaps and lengths down to it. */
  lemma RangeAt(f: AckFrame, j: nat)
    requires WellFormed(f) && j < |f.ranges|
    ensures j + 1 < |Ranges(f)| && f.firstRange + Total(f.ranges[..j + 1]) <= f.largest
    ensures var low := f.largest - f.firstRange - Total(f.ranges[..j + 1]);
            Ranges(f)[j + 1] == (low, low + f.ranges[j].1)
  {
    WalkAt(f.largest - f.firstRange, f.ranges, j);
  }

  /** What the frame acknowledges, read off its fields. */
  ghost predicate Acknowledges(f: AckFrame, pn: nat) {
    || f.largest - f.firstRange <= pn <= f.largest
    || exists j :: 0 <= j < |f.ranges| && Within(f, j, pn)
  }

  predicate Within(f: AckFrame, j: nat, pn: nat)
    requires j < |f.ranges|
  {
    var low := f.largest - f.firstRange - Total(f.ranges[..j + 1]);
    low <= pn <= low + f.ranges[j].1
  }

  lemma {:induction false} WalkLength(left: nat, rs: seq<Pair>)
    requires Fits(left, rs)
    ensures |Walk(left, rs)| == |rs|
    decreases |rs|
  {
    if rs != [] { WalkLength(left - rs[0].0 - 2 - rs[0].1, rs[1..]); }
  }

  /** The ranges handed to loss recovery cover exactly the packet numbers the frame acknowledges. */
  lemma CoversIffAcknowledges(f: AckFrame, pn: nat)
    requires WellFormed(f)
    ensures RecoveryModel.Covered(Ranges(f), pn) <==> Acknowledges(f, pn)
  {
    var rs := Ranges(f);
    WalkLength(f.largest - f.firstRange, f.ranges);
    forall j | 0 <= j < |f.ranges| ensures rs[j + 1].0 <= pn <= rs[j + 1].1 <==> Within(f, j, pn) {
      RangeAt(f, j);
    }
    if RecoveryModel.Covered(rs, pn) {
      var i :| 0 <= i < |rs| && rs[i].0 <= pn <= rs[i].1;
      if i > 0 { assert rs[i - 1 + 1].0 <= pn <= rs[i - 1 + 1].1 <==> Within(f, i - 1, pn); }
    }
    assert rs[0] == (f.largest - f.firstRange, f.largest);
  }

  /** Each range is ordered; consecutive ranges descend and leave at least one number between them. */
  predicate Separated(rs: RecoveryModel.AckRanges) {
    && (forall i :: 0 <= i < |rs| ==> rs[i].0 <= rs[i].1)
    && (forall i :: 0 <= i < |rs| - 1 ==> rs[i + 1].1 + 2 <= rs[i].0)
  }

  lemma {:induction false} WalkSeparated(left: nat, right: nat, rs: seq<Pair>)
    requires Fits(left, rs) && left <= right
    ensures Separated([(left, right)] + Walk(left, rs))
    decreases |rs|
  {
    if rs != [] {
      var r := left - rs[0].0 - 2;
      var l := r - rs[0].1;
      WalkSeparated(l, r, rs[1..]);
      var tail := [(l, r)] + Walk(l, rs[1..]);
      var all := [(left, right)] + tail;
      forall i | 0 <= i < |all| - 1 ensures all[i + 1].1 + 2 <= all[i].0 {
        if i > 0 { assert all[i + 1] == tail[i] && all[i] == tail[i - 1]; }
      }
      forall i | 0 <= i < |all| ensures all[i].0 <= all[i].1 {
        if i > 0 { assert all[i] == tail[i - 1]; }
      }
    }
  }

  lemma RangesSeparated(f: AckFrame)
    requires WellFormed(f)
    ensures Separated(Ranges(f))
  {
    WalkSeparated(f.largest - f.firstRange, f.largest, f.ranges);
  }

  lemma {:induction false} Descends(rs: RecoveryModel.AckRanges, i: nat, j: nat)
    requires Separated(rs) && i < j < |rs|
    ensures rs[j].1 + 2 <= rs[i].0
    decreases j - i
  {
    assert rs[j - 1 + 1].1 + 2 <= rs[j - 1].0;
    if i < j - 1 { Descends(rs, i, j - 1); }
  }

  /** No packet number is acknowledged by two ranges, and none above the largest. */
  lemma AcknowledgedOnce(f: AckFrame, pn: nat, i: nat, j: nat)
    requires WellFormed(f) && i < |Ranges(f)| && j < |Ranges(f)|
    requires Ranges(f)[i].0 <= pn <= Ranges(f)[i].1 && Ranges(f)[j].0 <= pn <= Ranges(f)[j].1
    ensures i == j && pn <= f.largest
  {
    RangesSeparated(f);
    if i < j { Descends(Ranges(f), i, j); }
    if j < i { Descends(Ranges(f), j, i); }
    if i > 0 { Descends(Ranges(f), 0, i); }
  }

  // ---------------------------------------------------------------- frames for ranges

  /** The gap and range fields that describe `rs` below `left`. */
  function Gaps(left: VarInt, rs: RecoveryModel.AckRanges): seq<Pair>
    requires Separated(rs) && (rs != [] ==> rs[0].1 + 2 <= left)
  {
    if rs == [] then []
    else
      SeparatedTail(rs);
      [(left - rs[0].1 - 2, rs[0].1 - rs[0].0)] + Gaps(rs[0].0, rs[1..])
  }

  lemma SeparatedTail(rs: RecoveryModel.AckRanges)
    requires Separated(rs) && rs != []
    ensures Separated(rs[1..]) && (rs[1..] != [] ==> rs[1..][0].1 + 2 <= rs[0].0)
  {
    var tail := rs[1..];
    assert tail != [] ==> rs[0 + 1].1 + 2 <= rs[0].0;
    forall i | 0 <= i < |tail| - 1 ensures tail[i + 1].1 + 2 <= tail[i].0 {
      assert rs[i + 1 + 1].1 + 2 <= rs[i + 1].0;
    }
  }

  function FrameOf(rs: RecoveryModel.AckRanges, delay: VarInt): AckFrame
    requires Separated(rs) && rs != [] && rs[0].1 <= VARINT_MAX
  {
    SeparatedTail(rs);
    AckFrame(rs[0].1, delay, rs[0].1 - rs[0].0, Gaps(rs[0].0, rs[1..]), None)
  }

  lemma {:induction false} WalkGaps(left: VarInt, rs: RecoveryModel.AckRanges)
    requires Separated(rs) && (rs != [] ==> rs[0].1 + 2 <= left)
    ensures Fits(left, Gaps(left, rs)) && Walk(left, Gaps(left, rs)) == rs
    decreases |rs|
  {
    if rs != [] {
      SeparatedTail(rs);
      WalkGaps(rs[0].0, rs[1..]);
      assert Gaps(left, rs)[1..] == Gaps(rs[0].0, rs[1..]);
      assert rs == [rs[0]] + rs[1..];
    }
  }

  /** Every separated list of ranges is denoted by a frame. */
  lemma RangesOfFrame(rs: RecoveryModel.AckRanges, delay: VarInt)
    requires Separated(rs) && rs != [] && rs[0].1 <= VARINT_MAX
    ensures WellFormed(FrameOf(rs, delay)) && Ranges(FrameOf(rs, delay)) == rs
  {
    SeparatedTail(rs);
    WalkGaps(rs[0].0, rs[1..]);
    assert rs == [rs[0]] + rs[1..];
  }

  lemma {:induction false} GapsWalk(left: VarInt, right: nat, rs: seq<Pair>)
    requires Fits(left, rs) && left <= right
    ensures Separated(Walk(left, rs)) && (rs != [] ==> Walk(left, rs)[0].1 + 2 <= left) && Gaps(left, Walk(left, rs)) == rs
    decreases |rs|
  {
    WalkSeparated(left, right, rs);
    var walk := Walk(left, rs);
    assert ([(left, right)] + walk)[1..] == walk;
    SeparatedTail([(left, right)] + walk);
    if rs != [] {
      var r := left - rs[0].0 - 2;
      GapsWalk(r - rs[0].1, r, rs[1..]);
      assert walk[1..] == Walk(r - rs[0].1, rs[1..]);
      assert rs == [rs[0]] + rs[1..];
    }
  }

  /** A well-formed frame is determined by its ranges and its delay. */
  lemma FrameOfRanges(f: AckFrame)
    requires WellFormed(f) && f.ecn.None?
    ensures Separated(Ranges(f)) && FrameOf(Ranges(f), f.delay) == f
  {
    RangesSeparated(f);
    var left := f.largest - f.firstRange;
    GapsWalk(left, f.largest, f.ranges);
    assert Ranges(f)[1..] == Walk(left, f.ranges);
  }

  lemma {:induction false} TotalSnoc(rs: seq<Pair>, p: Pair)
    ensures Total(rs + [p]) == Total(rs) + p.0 + 2 + p.1
    decreases |rs|
  {
    if rs == [] {
      assert rs + [p] == [p];
    } else {
      assert (rs + [p])[1..] == rs[1..] + [p];
      TotalSnoc(rs[1..], p);
    }
  }

  lemma {:induction false} WalkSnoc(left: nat, rs: seq<Pair>, p: Pair)
    requires Fits(left, rs + [p])
    ensures Fits(left, rs) && Total(rs + [p]) <= left
    ensures var low := left - Total(rs + [p]);
            Walk(left, rs + [p]) == Walk(left, rs) + [(low, low + p.1)]
    decreases |rs|
  {
    FitsIff(left, rs + [p]);
    TotalSnoc(rs, p);
    FitsIff(left, rs);
    if rs == [] {
      assert rs + [p] == [p];
    } else {
      assert (rs + [p])[1..] == rs[1..] + [p];
      WalkSnoc(left - rs[0].0 - 2 - rs[0].1, rs[1..], p);
    }
  }

  lemma {:induction false} TotalOfPrefix(rs: seq<Pair>, n: nat)
    requires n <= |rs|
    ensures Total(rs[..n]) <= Total(rs)
    decreases |rs| - n
  {
    if n == |rs| {
      assert rs[..n] == rs;
    } else {
      assert rs[..n + 1] == rs[..n] + [rs[n]];
      TotalSnoc(rs[..n], rs[n]);
      TotalOfPrefix(rs, n + 1);
    }
  }

  /** The frame with only its first `n` pairs. */
  function Cut(f: AckFrame, n: nat): AckFrame
    requires n <= |f.ranges|
  {
    f.(ranges := f.ranges[..n])
  }

  /** One more pair can be walked exactly when it ends at or above zero; it then adds the range it denotes. */
  lemma CutGrows(f: AckFrame, n: nat)
    requires n < |f.ranges| && WellFormed(Cut(f, n))
    ensures f.firstRange + Total(f.ranges[..n]) <= f.largest
    ensures var low := f.largest - f.firstRange - Total(f.ranges[..n]) - f.ranges[n].0 - 2 - f.ranges[n].1;
            && Total(f.ranges[..n + 1]) == Total(f.ranges[..n]) + f.ranges[n].0 + 2 + f.ranges[n].1
            && (WellFormed(Cut(f, n + 1)) <==> 0 <= low)
            && (0 <= low ==> Ranges(Cut(f, n + 1)) == Ranges(Cut(f, n)) + [(low, low + f.ranges[n].1)])
  {
    assert f.ranges[..n + 1] == f.ranges[..n] + [f.ranges[n]];
    TotalSnoc(f.ranges[..n], f.ranges[n]);
    WellFormedIff(Cut(f, n));
    WellFormedIff(Cut(f, n + 1));
    if WellFormed(Cut(f, n + 1)) { WalkSnoc(f.largest - f.firstRange, f.ranges[..n], f.ranges[n]); }
  }

  /**
   Produce the ranges in one downward pass, up to the first subtraction that would go below zero.
   Exactly the well-formed frames are walked to the end.
   */
  method IterRanges(f: AckFrame) returns (out: RecoveryModel.AckRanges, complete: bool)
    ensures complete <==> WellFormed(f)
    ensures complete ==> out == Ranges(f)
    ensures out == [] <==> f.largest < f.firstRange
    ensures out != [] && !complete ==>
              && |out| <= |f.ranges|
              && WellFormed(Cut(f, |out| - 1)) && out == Ranges(Cut(f, |out| - 1))
              && !WellFormed(Cut(f, |out|))
  {
    if f.largest < f.firstRange { return [], false; }
    var left: nat := f.largest - f.firstRange;
    out := [(left, f.largest)];
    for i := 0 to |f.ranges|
      invariant WellFormed(Cut(f, i)) && out == Ranges(Cut(f, i)) && |out| == i + 1
      invariant left == f.largest - f.firstRange - Total(f.ranges[..i])
    {
      var gap: nat, range: nat := f.ranges[i].0, f.ranges[i].1;
      CutGrows(f, i);
      if left < gap + 2 || left - gap - 2 < range {
        TotalOfPrefix(f.ranges, i + 1);
        WellFormedIff(f);
        WellFormedIff(Cut(f, i + 1));
        return out, false;
      }
      var right := left - gap - 2;
      left := right - range;
      out := out + [(left, right)];
    }
    assert Cut(f, |f.ranges|) == f;
    complete := true;
  }
}
