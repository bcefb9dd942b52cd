/** The session record written to a growing buffer and read through a cursor. */
module Sessions {
  import opened Basics
  import opened VarInts
  import S = SessionCodec

  class Cursor {
    var remaining: Bytes

    constructor (bytes: Bytes)
      ensures remaining == bytes
    {
      remaining := bytes;
    }

    method TakeU8() returns (r: Option<Byte>)
      modifies this
      ensures old(remaining) == [] ==> r.None? && remaining == old(remaining)
      ensures old(remaining) != [] ==> r == Some(old(remaining)[0]) && remaining == old(remaining)[1..]
    {
      if remaining == [] { return None; }
      r := Some(remaining[0]);
      remaining := remaining[1..];
    }

    method TakeU16() returns (r: Option<nat>)
      modifies this
      ensures |old(remaining)| < 2 ==> r.None? && remaining == old(remaining)
      ensures |old(remaining)| >= 2 ==> r == Some(Value(old(remaining), 2)) && remaining == old(remaining)[2..]
    {
      if |remaining| < 2 { return None; }
      r := Some(Value(remaining, 2));
      remaining := remaining[2..];
    }

    method TakeBytes() returns (r: Option<Bytes>)
      modifies this
      ensures match S.TakeBytes(old(remaining))
              case None => r.None? && remaining == old(remaining)
              case Some((bs, rest)) => r == Some(bs) && remaining == rest
    {
      if |remaining| < 4 { return None; }
      var n := Value(remaining, 4);
      if |remaining| < 4 + n { return None; }
      r := Some(remaining[4..4 + n]);
      remaining := remaining[4 + n..];
    }
  }

  /** The outcome of reading certificates behind those of `done`. */
  ghost function Behind(done: seq<Bytes>, r: Option<(seq<Bytes>, Bytes)>): Option<(seq<Bytes>, Bytes)> {
    match r
    case None => None
    case Some((cs, rest)) => Some((done + cs, rest))
  }

  lemma BehindOne(take: Bytes -> Option<(Bytes, Bytes)>, done: seq<Bytes>, input: Bytes, count: nat, budget: nat)
    requires count > 0 && take(input).Some? && |take(input).value.0| <= budget
    ensures var (c, rest) := take(input).value;
            Behind(done, S.TakeMany(take, input, count, budget)) == Behind(done + [c], S.TakeMany(take, rest, count - 1, budget - |c|))
  {
    var (c, rest) := take(input).value;
    var more := S.TakeMany(take, rest, count - 1, budget - |c|);
    if more.Some? { assert done + ([c] + more.value.0) == (done + [c]) + more.value.0; }
  }

  lemma BehindEnds(done: seq<Bytes>, r: Option<(seq<Bytes>, Bytes)>, rest: Bytes)
    ensures Behind([], r) == r && Behind(done, Some(([], rest))) == Some((done, rest))
  {
    assert done + [] == done;
    if r.Some? { assert [] + r.value.0 == r.value.0; }
  }

  /** Read the certificates one by one, watching the total size. */
  method ReadCertificates(cursor: Cursor, count: nat, maxChainBytes: nat) returns (r: Option<seq<Bytes>>)
    modifies cursor
    ensures match S.TakeCertificates(old(cursor.remaining), count, maxChainBytes)
            case None => r.None?
            case Some((cs, rest)) => r == Some(cs) && cursor.remaining == rest
  {
    var certificates: seq<Bytes>, total: nat := [], 0;
    ghost var whole := S.TakeCertificates(cursor.remaining, count, maxChainBytes);
    BehindEnds([], whole, []);
    for i := 0 to count
      invariant total <= maxChainBytes
      invariant whole == Behind(certificates, S.TakeCertificates(cursor.remaining, count - i, maxChainBytes - total))
    {
      ghost var input := cursor.remaining;
      var c := cursor.TakeBytes();
      if c.None? { return None; }
      if total + |c.value| > maxChainBytes { return None; }
      BehindOne(S.TakeBytes, certificates, input, count - i, maxChainBytes - total);
      total := total + |c.value|;
      certificates := certificates + [c.value];
    }
    BehindEnds(certificates, None, cursor.remaining);
    r := Some(certificates);
  }

  method ReadProjection(cursor: Cursor, limits: S.Limits) returns (r: Option<Option<S.Authority>>)
    modifies cursor
    ensures match S.TakeProjection(old(cursor.remaining), limits)
            case None => r.None?
            case Some((p, rest)) => r == Some(p) && cursor.remaining == rest
  {
    var flag := cursor.TakeU8();
    if flag.None? { return None; }
    if flag.value == 0 { return Some(None); }
    if flag.value != 1 { return None; }
    var name := cursor.TakeBytes();
    if name.None? { return None; }
    if !limits.validName(name.value) { return None; }
    var count := cursor.TakeU16();
    if count.None? { return None; }
    if count.value == 0 || count.value > limits.maxCertificates { return None; }
    var certificates := ReadCertificates(cursor, count.value, limits.maxChainBytes);
    if certificates.None? { return None; }
    r := Some(Some(S.Authority(name.value, certificates.value)));
  }

  /** Nothing may be left over. */
  method Read(encoded: Bytes, limits: S.Limits) returns (r: Option<(S.Context, Bytes)>)
    ensures r == S.Decode(encoded, limits)
  {
    if |encoded| > limits.maxSessionBytes { return None; }
    var cursor := new Cursor(encoded);
    var local := ReadProjection(cursor, limits);
    if local.None? { return None; }
    var remote := ReadProjection(cursor, limits);
    if remote.None? { return None; }
    var tls := cursor.TakeBytes();
    if tls.None? || cursor.remaining != [] { return None; }
    r := Some((S.Context(local.value, remote.value), tls.value));
  }

  method AppendBytes(output: Bytes, bs: Bytes) returns (r: Option<Bytes>)
    ensures r == S.Join(Some(output), S.PutBytes(bs))
  {
    if |bs| >= S.U32_END { return None; }
    r := Some(output + BigEndian(|bs|, 4) + bs);
    Assoc(output, BigEndian(|bs|, 4), bs);
  }

  lemma PutCertificatesPush(cs: seq<Bytes>, c: Bytes)
    ensures S.PutCertificates(cs + [c]) == S.Join(S.PutCertificates(cs), S.PutBytes(c))
  {
    PutAllPush(S.Prefixed, cs, c);
    assert (cs + [c])[|cs|] == c && forall i :: 0 <= i < |cs| ==> (cs + [c])[i] == cs[i];
  }

  lemma JoinAssoc(a: Option<Bytes>, b: Option<Bytes>, c: Option<Bytes>)
    ensures S.Join(S.Join(a, b), c) == S.Join(a, S.Join(b, c))
  {
    if a.Some? && b.Some? && c.Some? { Assoc(a.value, b.value, c.value); }
  }

  method AppendCertificates(output: Bytes, cs: seq<Bytes>) returns (r: Option<Bytes>)
    ensures r == S.Join(Some(output), S.PutCertificates(cs))
  {
    var out := output;
    assert cs[..0] == [] && output + [] == output;
    for i := 0 to |cs|
      invariant S.Join(Some(output), S.PutCertificates(cs[..i])) == Some(out)
    {
      assert cs[..i + 1] == cs[..i] + [cs[i]];
      PutCertificatesPush(cs[..i], cs[i]);
      JoinAssoc(Some(output), S.PutCertificates(cs[..i]), S.PutBytes(cs[i]));
      var next := AppendBytes(out, cs[i]);
      if next.None? { return None; }
      out := next.value;
    }
    assert cs[..|cs|] == cs;
    r := Some(out);
  }

  method AppendAuthority(output: Bytes, a: S.Authority) returns (r: Option<Bytes>)
    ensures r == S.Join(Some(output), S.PutAuthority(a))
  {
    ghost var count := Some(BigEndian(|a.certificates|, 2));
    ghost var tail := S.PutCertificates(a.certificates);
    var named := AppendBytes(output, a.name);
    if named.None? || |a.certificates| >= S.U16_END { return None; }
    r := AppendCertificates(named.value + BigEndian(|a.certificates|, 2), a.certificates);
    JoinAssoc(Some(output), S.PutBytes(a.name), S.Join(count, tail));
    JoinAssoc(named, count, tail);
  }

  method AppendProjection(output: Bytes, p: Option<S.Authority>) returns (r: Option<Bytes>)
    ensures r == S.Join(Some(output), S.PutProjection(p))
  {
    if p.None? { return Some(output + [0]); }
    r := AppendAuthority(output + [1], p.value);
    JoinAssoc(Some(output), Some([1]), S.PutAuthority(p.value));
  }

  /** Both authorities and the TLS state, if they fit the limit together. */
  method Write(c: S.Context, tls: Bytes, limit: nat) returns (r: Option<Bytes>)
    ensures r == S.Encode(c, tls, limit)
  {
    ghost var local, remote, state := S.PutProjection(c.local), S.PutProjection(c.remote), S.PutBytes(tls);
    JoinAssoc(local, remote, state);
    var a := AppendProjection([], c.local);
    if a.None? { return None; }
    assert local.Some? && [] + local.value == local.value;
    var b := AppendProjection(a.value, c.remote);
    if b.None? { return None; }
    var out := AppendBytes(b.value, tls);
    if out.None? || |out.value| > limit { return None; }
    r := out;
  }
}
