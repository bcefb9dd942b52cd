/** The record in which a TLS session and the authorities it was made with are stored. */
module SessionCodec {
  import opened Basics
  import opened VarInts

  datatype Authority = Authority(name: Bytes, certificates: seq<Bytes>)

  datatype Context = Context(local: Option<Authority>, remote: Option<Authority>)

  /** `validName` stands for UTF-8 and DNS name syntax, which foreign code checks. */
  datatype Limits = Limits(maxSessionBytes: nat, maxCertificates: nat, maxChainBytes: nat, validName: Bytes -> bool)

  const U16_END: nat := 0x1_0000
  const U32_END: nat := 0x1_0000_0000

  // ---------------------------------------------------------------- encoding

  /** The bytes behind their length. */
  function Prefixed(bs: Bytes): Bytes { BigEndian(|bs|, 4) + bs }

  function PutBytes(bs: Bytes): Option<Bytes> { if |bs| < U32_END then Some(Prefixed(bs)) else None }

  function Join(a: Option<Bytes>, b: Option<Bytes>): Option<Bytes> {
    if a.Some? && b.Some? then Some(a.value + b.value) else None
  }

  predicate AllShort(cs: seq<Bytes>) { forall i :: 0 <= i < |cs| ==> |cs[i]| < U32_END }

  /** One certificate that is too long fails them all. */
  function PutCertificates(cs: seq<Bytes>): Option<Bytes> { if AllShort(cs) then Some(PutAll(Prefixed, cs)) else None }

  function PutAuthority(a: Authority): Option<Bytes> {
    if |a.certificates| >= U16_END then None
    else Join(PutBytes(a.name), Join(Some(BigEndian(|a.certificates|, 2)), PutCertificates(a.certificates)))
  }

  function PutProjection(p: Option<Authority>): Option<Bytes> {
    match p
    case None => Some([0])
    case Some(a) => Join(Some([1]), PutAuthority(a))
  }

  function Encode(c: Context, tls: Bytes, limit: nat): Option<Bytes> {
    var out := Join(PutProjection(c.local), Join(PutProjection(c.remote), PutBytes(tls)));
    if out.Some? && |out.value| <= limit then out else None
  }

  // ---------------------------------------------------------------- decoding

  function TakeBytes(input: Bytes): Option<(Bytes, Bytes)> {
    if |input| < 4 then None
    else
      var n := Value(input, 4);
      if |input| < 4 + n then None else Some((input[4..4 + n], input[4 + n..]))
  }

  /** Take `count` items whose total size stays within `budget`. */
  function TakeMany(take: Bytes -> Option<(Bytes, Bytes)>, input: Bytes, count: nat, budget: nat): Option<(seq<Bytes>, Bytes)>
    decreases count
  {
    if count == 0 then Some(([], input))
    else match take(input)
         case None => None
         case Some((c, rest)) =>
           if |c| > budget then None
           else match TakeMany(take, rest, count - 1, budget - |c|)
                case None => None
                case Some((cs, rest)) => Some(([c] + cs, rest))
  }

  function TakeCertificates(input: Bytes, count: nat, budget: nat): Option<(seq<Bytes>, Bytes)> {
    TakeMany(TakeBytes, input, count, budget)
  }

  function TakeAuthority(input: Bytes, limits: Limits): Option<(Authority, Bytes)> {
    match TakeBytes(input)
    case None => None
    case Some((name, rest)) =>
      if !limits.validName(name) || |rest| < 2 then None
      else
        var count := Value(rest, 2);
        if count == 0 || count > limits.maxCertificates then None
        else match TakeCertificates(rest[2..], count, limits.maxChainBytes)
             case None => None
             case Some((cs, rest)) => Some((Authority(name, cs), rest))
  }

  function TakeProjection(input: Bytes, limits: Limits): Option<(Option<Authority>, Bytes)> {
    if input == [] then None
    else if input[0] == 0 then Some((None, input[1..]))
    else if input[0] == 1 then
      match TakeAuthority(input[1..], limits)
      case None => None
      case Some((a, rest)) => Some((Some(a), rest))
    else None
  }

  function Decode(input: Bytes, limits: Limits): Option<(Context, Bytes)> {
    if |input| > limits.maxSessionBytes then None
    else match TakeProjection(input, limits)
         case None => None
         case Some((local, rest)) =>
           match TakeProjection(rest, limits)
           case None => None
           case Some((remote, rest)) =>
             match TakeBytes(rest)
             case None => None
             case Some((tls, rest)) => if rest == [] then Some((Context(local, remote), tls)) else None
  }

  // ---------------------------------------------------------------- what can be decoded

  function ChainBytes(cs: seq<Bytes>): nat { if cs == [] then 0 else |cs[0]| + ChainBytes(cs[1..]) }

  predicate Acceptable(p: Option<Authority>, limits: Limits) {
    p.Some? ==>
      && limits.validName(p.value.name)
      && 1 <= |p.value.certificates| <= limits.maxCertificates
      && ChainBytes(p.value.certificates) <= limits.maxChainBytes
  }

  // ---------------------------------------------------------------- decoding undoes encoding

  lemma Widths()
    ensures Pow256(2) == U16_END && Pow256(4) == U32_END
  {
    Powers();
  }

  lemma ValueOfPrefix(x: nat, n: nat, rest: Bytes)
    requires x < Pow256(n)
    ensures Value(BigEndian(x, n) + rest, n) == x && (BigEndian(x, n) + rest)[n..] == rest
  {
    BigEndianValue(x, n);
    ValuePrefix(BigEndian(x, n), BigEndian(x, n) + rest, n);
  }

  lemma TakePut(bs: Bytes, rest: Bytes)
    requires |bs| < U32_END
    ensures TakeBytes(PutBytes(bs).value + rest) == Some((bs, rest))
  {
    Widths();
    var input := PutBytes(bs).value + rest;
    Assoc(BigEndian(|bs|, 4), bs, rest);
    ValueOfPrefix(|bs|, 4, bs + rest);
    assert input[4..4 + |bs|] == (bs + rest)[..|bs|] == bs;
    assert input[4 + |bs|..] == (bs + rest)[|bs|..] == rest;
  }

  lemma {:induction false} TakeManyUndoes(
    take: Bytes -> Option<(Bytes, Bytes)>, put: Bytes -> Bytes, cs: seq<Bytes>, budget: nat, rest: Bytes)
    requires forall i, r: Bytes :: 0 <= i < |cs| ==> take(put(cs[i]) + r) == Some((cs[i], r))
    ensures TakeMany(take, PutAll(put, cs) + rest, |cs|, budget) == if ChainBytes(cs) <= budget then Some((cs, rest)) else None
    decreases |cs|
  {
    if cs == [] {
      assert PutAll(put, cs) + rest == rest;
    } else {
      var tail := cs[1..];
      Assoc(put(cs[0]), PutAll(put, tail), rest);
      assert take(put(cs[0]) + (PutAll(put, tail) + rest)) == Some((cs[0], PutAll(put, tail) + rest));
      forall i, r: Bytes | 0 <= i < |tail| ensures take(put(tail[i]) + r) == Some((tail[i], r)) {
        assert take(put(cs[i + 1]) + r) == Some((cs[i + 1], r));
      }
      if |cs[0]| <= budget { TakeManyUndoes(take, put, tail, budget - |cs[0]|, rest); }
      assert [cs[0]] + tail == cs;
    }
  }

  lemma TakePutCertificates(cs: seq<Bytes>, budget: nat, rest: Bytes)
    requires AllShort(cs)
    ensures TakeCertificates(PutCertificates(cs).value + rest, |cs|, budget)
         == if ChainBytes(cs) <= budget then Some((cs, rest)) else None
  {
    forall i, r: Bytes | 0 <= i < |cs| ensures TakeBytes(Prefixed(cs[i]) + r) == Some((cs[i], r)) {
      TakePut(cs[i], r);
    }
    TakeManyUndoes(TakeBytes, Prefixed, cs, budget, rest);
  }

  lemma TakePutAuthority(a: Authority, limits: Limits, rest: Bytes)
    requires PutAuthority(a).Some?
    ensures TakeAuthority(PutAuthority(a).value + rest, limits) == if Acceptable(Some(a), limits) then Some((a, rest)) else None
  {
    Widths();
    var n, cs := BigEndian(|a.certificates|, 2), PutCertificates(a.certificates).value;
    var behind := n + (cs + rest);
    Assoc(PutBytes(a.name).value, n + cs, rest);
    Assoc(n, cs, rest);
    TakePut(a.name, behind);
    ValueOfPrefix(|a.certificates|, 2, cs + rest);
    TakePutCertificates(a.certificates, limits.maxChainBytes, rest);
  }

  lemma TakePutProjection(p: Option<Authority>, limits: Limits, rest: Bytes)
    requires PutProjection(p).Some?
    ensures TakeProjection(PutProjection(p).value + rest, limits) == if Acceptable(p, limits) then Some((p, rest)) else None
  {
    match p
    case None => assert ([0] + rest)[1..] == rest;
    case Some(a) =>
      Assoc([1], PutAuthority(a).value, rest);
      assert ([1] + (PutAuthority(a).value + rest))[1..] == PutAuthority(a).value + rest;
      TakePutAuthority(a, limits, rest);
  }

  /** A record is read back unchanged if and only if both authorities are acceptable; otherwise it is refused. */
  lemma DecodeEncode(c: Context, tls: Bytes, limits: Limits)
    requires Encode(c, tls, limits.maxSessionBytes).Some?
    ensures Decode(Encode(c, tls, limits.maxSessionBytes).value, limits)
         == if Acceptable(c.local, limits) && Acceptable(c.remote, limits) then Some((c, tls)) else None
  {
    var remote, state := PutProjection(c.remote).value, PutBytes(tls).value;
    TakePutProjection(c.local, limits, remote + state);
    TakePutProjection(c.remote, limits, state);
    assert state + [] == state;
    TakePut(tls, []);
  }

  // ---------------------------------------------------------------- encoding undoes decoding

  lemma SplitAt4(input: Bytes, n: nat)
    requires 4 + n <= |input|
    ensures input == (input[..4] + input[4..4 + n]) + input[4 + n..]
  {
  }

  lemma PutTake(input: Bytes)
    requires TakeBytes(input).Some?
    ensures var (bs, rest) := TakeBytes(input).value;
            |bs| < U32_END && input == Prefixed(bs) + rest
  {
    Widths();
    ValueBigEndian(input, 4);
    SplitAt4(input, Value(input, 4));
  }

  lemma {:induction false} PutTakeMany(take: Bytes -> Option<(Bytes, Bytes)>, put: Bytes -> Bytes, input: Bytes, count: nat, budget: nat)
    requires TakeMany(take, input, count, budget).Some?
    requires forall x: Bytes :: take(x).Some? ==> |take(x).value.0| < U32_END && x == put(take(x).value.0) + take(x).value.1
    ensures var (cs, rest) := TakeMany(take, input, count, budget).value;
            |cs| == count && ChainBytes(cs) <= budget && AllShort(cs) && input == PutAll(put, cs) + rest
    decreases count
  {
    var (cs, rest) := TakeMany(take, input, count, budget).value;
    if count == 0 {
      assert input == [] + rest;
    } else {
      var (c, behind) := take(input).value;
      PutTakeMany(take, put, behind, count - 1, budget - |c|);
      var tail := TakeMany(take, behind, count - 1, budget - |c|).value.0;
      assert cs == [c] + tail && cs[1..] == tail;
      Assoc(put(c), PutAll(put, tail), rest);
    }
  }

  lemma PutTakeCertificates(input: Bytes, count: nat, budget: nat)
    requires TakeCertificates(input, count, budget).Some?
    ensures var (cs, rest) := TakeCertificates(input, count, budget).value;
            |cs| == count && ChainBytes(cs) <= budget && AllShort(cs) && input == PutAll(Prefixed, cs) + rest
  {
    forall x: Bytes | TakeBytes(x).Some?
      ensures |TakeBytes(x).value.0| < U32_END && x == Prefixed(TakeBytes(x).value.0) + TakeBytes(x).value.1
    {
      PutTake(x);
    }
    PutTakeMany(TakeBytes, Prefixed, input, count, budget);
  }

  lemma PutTakeAuthority(input: Bytes, limits: Limits)
    requires TakeAuthority(input, limits).Some?
    ensures var (a, rest) := TakeAuthority(input, limits).value;
            Acceptable(Some(a), limits) && PutAuthority(a).Some? && input == PutAuthority(a).value + rest
  {
    var (a, rest) := TakeAuthority(input, limits).value;
    var (name, behind) := TakeBytes(input).value;
    var count := Value(behind, 2);
    Widths();
    PutTake(input);
    ValueBigEndian(behind, 2);
    PutTakeCertificates(behind[2..], count, limits.maxChainBytes);
    var cs := PutCertificates(a.certificates).value;
    assert behind == behind[..2] + behind[2..];
    Assoc(BigEndian(count, 2), cs, rest);
    Assoc(PutBytes(name).value, BigEndian(count, 2) + cs, rest);
  }

  lemma PutTakeProjection(input: Bytes, limits: Limits)
    requires TakeProjection(input, limits).Some?
    ensures var (p, rest) := TakeProjection(input, limits).value;
            Acceptable(p, limits) && PutProjection(p).Some? && input == PutProjection(p).value + rest
  {
    assert input == [input[0]] + input[1..];
    var (p, rest) := TakeProjection(input, limits).value;
    if p.Some? {
      PutTakeAuthority(input[1..], limits);
      Assoc([1], PutAuthority(p.value).value, rest);
    }
  }

  /** Bytes that decode at all are exactly the encoding of what they decode to. */
  lemma EncodeDecode(input: Bytes, limits: Limits)
    requires Decode(input, limits).Some?
    ensures var (c, tls) := Decode(input, limits).value;
            && Acceptable(c.local, limits) && Acceptable(c.remote, limits)
            && Encode(c, tls, limits.maxSessionBytes) == Some(input)
  {
    var (local, r1) := TakeProjection(input, limits).value;
    var (remote, r2) := TakeProjection(r1, limits).value;
    PutTakeProjection(input, limits);
    PutTakeProjection(r1, limits);
    PutTake(r2);
    var tls := TakeBytes(r2).value.0;
    assert PutBytes(tls).value + [] == PutBytes(tls).value;
  }
}
