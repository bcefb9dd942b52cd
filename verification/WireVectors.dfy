/** The formats byte by byte: samples of RFC 9000, and the layout of frames and records with short fields. */
module WireVectors {
  import opened Basics
  import opened VarInts
  import AckCodec
  import CryptoCodec
  import SessionCodec

  lemma OneByte(x: nat)
    ensures BigEndian(x, 1) == [(x % 256) as Byte]
  {
    assert BigEndian(x / 256, 0) == [];
  }

  lemma TwoBytes(x: nat)
    ensures BigEndian(x, 2) == [(x / 256 % 256) as Byte, (x % 256) as Byte]
  {
    OneByte(x / 256);
  }

  lemma FourBytes(x: nat)
    ensures BigEndian(x, 4)
         == [(x / 0x100_0000 % 256) as Byte, (x / 0x1_0000 % 256) as Byte, (x / 256 % 256) as Byte, (x % 256) as Byte]
  {
    TwoBytes(x / 256 / 256);
    assert x / 256 / 256 == x / 0x1_0000 && x / 256 / 256 / 256 == x / 0x100_0000;
    assert BigEndian(x / 256, 3) == BigEndian(x / 256 / 256, 2) + [(x / 256 % 256) as Byte];
  }

  /** The samples of appendix A.1 of RFC 9000 that are shortest encodings. */
  lemma ShortSamples()
    ensures Put(37) == [0x25] && Put(15293) == [0x7b, 0xbd] && Put(494878333) == [0x9d, 0x7f, 0x3e, 0x7d]
  {
    OneByte(37);
    TwoBytes(0x4000 + 15293);
    FourBytes(0x8000_0000 + 494878333);
  }

  lemma LongSample()
    ensures Put(151288809941952652) == [0xc2, 0x19, 0x7c, 0x5e, 0xff, 0x14, 0xe8, 0x8c]
  {
    var x := 0xc219_7c5e_ff14_e88c;
    FourBytes(0xc219_7c5e);
    assert BigEndian(0xc2_197c_5eff, 5) == BigEndian(0xc219_7c5e, 4) + [0xff];
    assert BigEndian(0xc219_7c5e_ff14, 6) == BigEndian(0xc2_197c_5eff, 5) + [0x14];
    assert BigEndian(0xc2_197c_5eff_14e8, 7) == BigEndian(0xc219_7c5e_ff14, 6) + [0xe8];
    assert BigEndian(x, 8) == BigEndian(0xc2_197c_5eff_14e8, 7) + [0x8c];
  }

  /** The sample that is longer than it need be is accepted, too. */
  lemma PaddedSample()
    ensures Parse([0x40, 0x25]) == Some((37, []))
  {
    var bs: Bytes := [0x40, 0x25];
    assert Value(bs, 1) == Value(bs, 0) * 256 + 0x40;
    assert Value(bs, 2) == Value(bs, 1) * 256 + 0x25;
    assert bs[2..] == [];
  }

  lemma Small(x: VarInt)
    requires x < 64
    ensures Put(x) == [x as Byte]
  {
    OneByte(x);
  }

  lemma RangeLayout(gap: VarInt, range: VarInt)
    requires gap < 64 && range < 64
    ensures AckCodec.PutRanges([(gap, range)]) == [gap as Byte, range as Byte]
  {
    Small(gap);
    Small(range);
    var pairs: seq<AckCodec.Pair> := [(gap, range)];
    assert pairs[1..] == [] && AckCodec.PutRanges(pairs[1..]) == [];
    assert AckCodec.PutRanges(pairs) == AckCodec.PutPair(pairs[0]) + AckCodec.PutRanges(pairs[1..]);
  }

  lemma EcnLayout(ecn: AckCodec.EcnCounts)
    requires ecn.ect0 < 64 && ecn.ect1 < 64 && ecn.ce < 64
    ensures AckCodec.PutEcn(Some(ecn)) == [ecn.ect0 as Byte, ecn.ect1 as Byte, ecn.ce as Byte]
  {
    Small(ecn.ect0);
    Small(ecn.ect1);
    Small(ecn.ce);
  }

  /** Largest, delay, number of further ranges, first range, then gap and range; ECN counts last. */
  lemma AckBodyLayout(largest: VarInt, delay: VarInt, first: VarInt, gap: VarInt, range: VarInt, ecn: Option<AckCodec.EcnCounts>)
    requires largest < 64 && delay < 64 && first < 64 && gap < 64 && range < 64
    ensures AckCodec.Body(AckCodec.AckFrame(largest, delay, first, [(gap, range)], ecn))
         == [largest as Byte, delay as Byte, 1, first as Byte, gap as Byte, range as Byte] + AckCodec.PutEcn(ecn)
  {
    Small(largest);
    Small(delay);
    Small(1);
    Small(first);
    RangeLayout(gap, range);
  }

  /** The frame type tells whether ECN counts follow. */
  lemma AckLayout(largest: VarInt, delay: VarInt, first: VarInt, gap: VarInt, range: VarInt, ecn: AckCodec.EcnCounts)
    requires largest < 64 && delay < 64 && first < 64 && gap < 64 && range < 64 && ecn.ect0 < 64 && ecn.ect1 < 64 && ecn.ce < 64
    ensures AckCodec.Encode(AckCodec.AckFrame(largest, delay, first, [(gap, range)], None))
         == [2, largest as Byte, delay as Byte, 1, first as Byte, gap as Byte, range as Byte]
    ensures AckCodec.Encode(AckCodec.AckFrame(largest, delay, first, [(gap, range)], Some(ecn)))
         == [3, largest as Byte, delay as Byte, 1, first as Byte, gap as Byte, range as Byte,
             ecn.ect0 as Byte, ecn.ect1 as Byte, ecn.ce as Byte]
  {
    AckBodyLayout(largest, delay, first, gap, range, None);
    AckBodyLayout(largest, delay, first, gap, range, Some(ecn));
    EcnLayout(ecn);
  }

  /** Offset, length, data. */
  lemma CryptoLayout(offset: VarInt, data: Bytes)
    requires offset < 64 && |data| < 64
    ensures CryptoCodec.PutFrame(offset, data) == [offset as Byte, |data| as Byte] + data
  {
    Small(offset);
    Small(|data|);
  }

  lemma ShortPrefixed(bs: Bytes)
    requires |bs| < 256
    ensures SessionCodec.Prefixed(bs) == [0, 0, 0, |bs| as Byte] + bs
  {
    FourBytes(|bs|);
  }

  function AuthorityBytes(name: Bytes, certificate: Bytes): Bytes
    requires |name| < 256 && |certificate| < 256
  {
    [1] + (([0, 0, 0, |name| as Byte] + name) + ([0, 1] + ([0, 0, 0, |certificate| as Byte] + certificate)))
  }

  /** A flag, the name, the number of certificates and the certificates. */
  lemma AuthorityLayout(name: Bytes, certificate: Bytes)
    requires |name| < 256 && |certificate| < 256
    ensures SessionCodec.PutProjection(Some(SessionCodec.Authority(name, [certificate]))) == Some(AuthorityBytes(name, certificate))
    ensures SessionCodec.PutProjection(None) == Some([0])
  {
    ShortPrefixed(name);
    ShortPrefixed(certificate);
    TwoBytes(1);
    var cs := [certificate];
    assert cs[1..] == [] && PutAll(SessionCodec.Prefixed, cs[1..]) == [];
    assert PutAll(SessionCodec.Prefixed, cs) == SessionCodec.Prefixed(cs[0]) + PutAll(SessionCodec.Prefixed, cs[1..]);
    assert SessionCodec.AllShort(cs);
    var body := [0, 0, 0, |certificate| as Byte] + certificate;
    assert body + [] == body;
    assert SessionCodec.PutCertificates(cs) == Some(body);
    assert SessionCodec.PutBytes(name) == Some([0, 0, 0, |name| as Byte] + name);
    assert BigEndian(|cs|, 2) == [0, 1];
  }

  /** Local authority, remote authority, TLS state. */
  lemma SessionLayout(name: Bytes, certificate: Bytes, tls: Bytes, limit: nat)
    requires |name| < 256 && |certificate| < 256 && |tls| < 256 && limit >= 1000
    ensures var a, state := Some(SessionCodec.Authority(name, [certificate])), [0, 0, 0, |tls| as Byte] + tls;
            && SessionCodec.Encode(SessionCodec.Context(a, None), tls, limit) == Some(AuthorityBytes(name, certificate) + ([0] + state))
            && SessionCodec.Encode(SessionCodec.Context(None, a), tls, limit) == Some([0] + (AuthorityBytes(name, certificate) + state))
  {
    AuthorityLayout(name, certificate);
    ShortPrefixed(tls);
  }
}
