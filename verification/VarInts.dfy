/** Big-endian numbers and QUIC variable-length integers (section 16 of RFC 9000). */
module VarInts {
  import opened Basics

  type Bytes = seq<Byte>

  type VarInt = x: nat | x <= VARINT_MAX

  // ---------------------------------------------------------------- big-endian numbers

  function Pow256(n: nat): (p: nat)
    ensures p > 0
  {
    if n == 0 then 1 else 256 * Pow256(n - 1)
  }

  function BigEndian(x: nat, n: nat): (bs: Bytes)
    ensures |bs| == n
  {
    if n == 0 then [] else BigEndian(x / 256, n - 1) + [(x % 256) as Byte]
  }

  /** The number in the first `n` bytes. */
  function Value(bs: Bytes, n: nat): nat
    requires n <= |bs|
  {
    if n == 0 then 0 else Value(bs, n - 1) * 256 + bs[n - 1] as nat
  }

  lemma {:induction false} ValuePrefix(a: Bytes, b: Bytes, n: nat)
    requires n <= |a| && n <= |b| && forall i :: 0 <= i < n ==> a[i] == b[i]
    ensures Value(a, n) == Value(b, n)
    decreases n
  {
    if n > 0 { ValuePrefix(a, b, n - 1); }
  }

  lemma {:induction false} BigEndianValue(x: nat, n: nat)
    requires x < Pow256(n)
    ensures Value(BigEndian(x, n), n) == x
    decreases n
  {
    if n > 0 {
      BigEndianValue(x / 256, n - 1);
      ValuePrefix(BigEndian(x / 256, n - 1), BigEndian(x, n), n - 1);
    }
  }

  lemma {:induction false} ValueBigEndian(bs: Bytes, n: nat)
    requires n <= |bs|
    ensures Value(bs, n) < Pow256(n) && BigEndian(Value(bs, n), n) == bs[..n]
    decreases n
  {
    if n > 0 {
      ValueBigEndian(bs, n - 1);
      assert bs[..n] == bs[..n - 1] + [bs[n - 1]];
    }
  }

  lemma Shift(a: nat, p: nat, v: nat, b: nat)
    requires a * p <= v < (a + 1) * p && b < 256
    ensures a * (256 * p) <= v * 256 + b < (a + 1) * (256 * p)
  {
    Swap(a, p);
    Swap(a + 1, p);
  }

  lemma Swap(a: nat, p: nat)
    ensures a * (256 * p) == (a * p) * 256
  {
  }

  /** The first byte is the most significant. */
  lemma {:induction false} LeadingByte(bs: Bytes, n: nat)
    requires 0 < n <= |bs|
    ensures bs[0] as nat * Pow256(n - 1) <= Value(bs, n) < (bs[0] as nat + 1) * Pow256(n - 1)
    decreases n
  {
    if n == 1 {
      assert Value(bs, 1) == Value(bs, 0) * 256 + bs[0] as nat;
    } else {
      LeadingByte(bs, n - 1);
      Shift(bs[0] as nat, Pow256(n - 2), Value(bs, n - 1), bs[n - 1] as nat);
    }
  }

  // ---------------------------------------------------------------- lists of items

  function PutAll<T>(put: T -> Bytes, xs: seq<T>): Bytes {
    if xs == [] then [] else put(xs[0]) + PutAll(put, xs[1..])
  }

  /** Run `parse` another `count` times behind the items of `done`. */
  function Repeat<T>(parse: Bytes -> Option<(T, Bytes)>, done: seq<T>, input: Bytes, count: nat): Option<(seq<T>, Bytes)>
    decreases count
  {
    if count == 0 then Some((done, input))
    else match parse(input)
         case None => None
         case Some((item, rest)) => Repeat(parse, done + [item], rest, count - 1)
  }

  lemma Assoc<T>(a: seq<T>, b: seq<T>, c: seq<T>)
    ensures (a + b) + c == a + (b + c)
  {
  }

  /** `parse` undoes `put`, whatever follows. */
  ghost predicate Undoes<T(!new)>(parse: Bytes -> Option<(T, Bytes)>, put: T -> Bytes) {
    forall x: T, rest: Bytes :: parse(put(x) + rest) == Some((x, rest))
  }

  lemma {:induction false} RepeatUndoes<T(!new)>(
    parse: Bytes -> Option<(T, Bytes)>, put: T -> Bytes, done: seq<T>, xs: seq<T>, rest: Bytes)
    requires Undoes(parse, put)
    ensures Repeat(parse, done, PutAll(put, xs) + rest, |xs|) == Some((done + xs, rest))
    decreases |xs|
  {
    if xs == [] {
      assert PutAll(put, xs) + rest == rest && done + xs == done;
    } else {
      Assoc(put(xs[0]), PutAll(put, xs[1..]), rest);
      RepeatUndoes(parse, put, done + [xs[0]], xs[1..], rest);
      assert done + [xs[0]] + xs[1..] == done + xs;
    }
  }

  lemma {:induction false} PutAllPush<T>(put: T -> Bytes, xs: seq<T>, x: T)
    ensures PutAll(put, xs + [x]) == PutAll(put, xs) + put(x)
    decreases |xs|
  {
    if xs == [] {
      assert [] + [x] == [x] && [x][1..] == [];
    } else {
      assert (xs + [x])[1..] == xs[1..] + [x];
      PutAllPush(put, xs[1..], x);
      Assoc(put(xs[0]), PutAll(put, xs[1..]), put(x));
    }
  }

  // ---------------------------------------------------------------- variable-length integers

  /** The length in bytes as the two leading bits give it. */
  function Length(prefix: nat): nat
    requires prefix < 4
  {
    if prefix == 0 then 1 else if prefix == 1 then 2 else if prefix == 2 then 4 else 8
  }

  function Prefix(x: VarInt): (prefix: nat)
    ensures prefix < 4
  {
    if x < 0x40 then 0 else if x < 0x4000 then 1 else if x < 0x4000_0000 then 2 else 3
  }

  /** The number of bytes the shortest encoding takes. */
  function Size(x: VarInt): nat {
    if x < 0x40 then 1 else if x < 0x4000 then 2 else if x < 0x4000_0000 then 4 else 8
  }

  /** The leading bits added to a value. */
  function Tagged(x: VarInt): nat {
    if x < 0x40 then x else if x < 0x4000 then 0x4000 + x else if x < 0x4000_0000 then 0x8000_0000 + x else 0xc000_0000_0000_0000 + x
  }

  /** The leading bits taken off again. */
  function Untagged(prefix: nat, v: nat): VarInt
    requires prefix < 4
  {
    if prefix == 0 then v % 0x40
    else if prefix == 1 then v % 0x4000
    else if prefix == 2 then v % 0x4000_0000
    else v % 0x4000_0000_0000_0000
  }

  function Put(x: VarInt): (bs: Bytes)
    ensures |bs| == Size(x)
  {
    BigEndian(Tagged(x), Size(x))
  }

  /** `None` asks for more input. Longer encodings than necessary are accepted. */
  function Parse(input: Bytes): (r: Option<(VarInt, Bytes)>)
    ensures r.Some? ==> |r.value.1| < |input|
  {
    if input == [] then None
    else
      var prefix := input[0] as nat / 64;
      var n := Length(prefix);
      if |input| < n then None else Some((Untagged(prefix, Value(input, n)), input[n..]))
  }

  lemma Powers()
    ensures Pow256(0) == 1 && Pow256(1) == 0x100 && Pow256(3) == 0x100_0000 && Pow256(7) == 0x100_0000_0000_0000
    ensures Pow256(2) == 0x1_0000 && Pow256(4) == 0x1_0000_0000 && Pow256(8) == 0x1_0000_0000_0000_0000
  {
    assert Pow256(1) == 256 * Pow256(0);
    assert Pow256(2) == 256 * Pow256(1);
    assert Pow256(3) == 256 * Pow256(2);
    assert Pow256(4) == 256 * Pow256(3);
    assert Pow256(5) == 256 * Pow256(4);
    assert Pow256(6) == 256 * Pow256(5);
    assert Pow256(7) == 256 * Pow256(6);
    assert Pow256(8) == 256 * Pow256(7);
  }

  lemma PutValue(x: VarInt)
    ensures Value(Put(x), Size(x)) == Tagged(x) && Put(x)[0] as nat / 64 == Prefix(x)
  {
    Powers();
    BigEndianValue(Tagged(x), Size(x));
    LeadingByte(Put(x), Size(x));
  }

  lemma UntaggedTagged(x: VarInt)
    ensures Untagged(Prefix(x), Tagged(x)) == x && Length(Prefix(x)) == Size(x)
  {
  }

  /** What was put is parsed back, whatever follows. */
  lemma RoundTrip(x: VarInt, rest: Bytes)
    ensures Parse(Put(x) + rest) == Some((x, rest))
  {
    var input := Put(x) + rest;
    PutValue(x);
    UntaggedTagged(x);
    ValuePrefix(Put(x), input, Size(x));
    assert input[Size(x)..] == rest;
  }
}
