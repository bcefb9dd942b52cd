/** Local endpoints: socket addresses, relayed aliases, and the scope that decides their advertisement. */
module Endpoints {
  import opened Basics
  import opened Sorting

  type Octet = x: nat | x < 0x100
  type Word = x: nat | x < 0x1_0000

  datatype Ipv4 = Ipv4(a: Octet, b: Octet, c: Octet, d: Octet) {
    predicate Loopback() { a == 127 }
    predicate Private() { a == 10 || (a == 172 && 16 <= b <= 31) || (a == 192 && b == 168) }
    predicate LinkLocal() { a == 169 && b == 254 }
    predicate Documentation() {
      (a == 192 && b == 0 && c == 2) || (a == 198 && b == 51 && c == 100) || (a == 203 && b == 0 && c == 113)
    }
    predicate Routable() {
      && a != 0 && !Private() && !(a == 100 && 64 <= b <= 127) && !Loopback() && !LinkLocal()
      && !(a == 192 && b == 0 && c == 0 && d != 9 && d != 10)
      && !Documentation()
      && !(a == 192 && b == 88 && c == 99)
      && !(a == 198 && (b == 18 || b == 19))
      && a < 224
    }
  }

  datatype Ipv6 = Ipv6(s0: Word, s1: Word, s2: Word, s3: Word, s4: Word, s5: Word, s6: Word, s7: Word) {
    predicate ZeroUpTo4() { s0 == 0 && s1 == 0 && s2 == 0 && s3 == 0 && s4 == 0 }
    predicate Loopback() { ZeroUpTo4() && s5 == 0 && s6 == 0 && s7 == 1 }
    function Mapped(): Option<Ipv4> {
      if ZeroUpTo4() && s5 == 0xffff then Some(Ipv4(s6 / 0x100, s6 % 0x100, s7 / 0x100, s7 % 0x100)) else None
    }
    predicate UniqueLocal() { s0 / 0x200 == 0x7e }
    predicate LinkLocal() { s0 / 0x40 == 0x3fa }
    predicate Routable() {
      if s0 == 0x64 && s1 == 0xff9b && s2 == 0 && s3 == 0 && s4 == 0 && s5 == 0 then true
      else if s0 / 0x2000 != 1 then false
      else if s0 == 0x2001 && s1 < 0x200 then
        || (s1 == 1 && s2 == 0 && s3 == 0 && s4 == 0 && s5 == 0 && s6 == 0 && 1 <= s7 <= 3)
        || s1 == 3
        || (s1 == 4 && s2 == 0x112)
        || 0x20 <= s1 <= 0x3f
      else !(s0 == 0x2001 && s1 == 0xdb8) && s0 != 0x2002 && !(s0 == 0x3fff && s1 / 0x1000 == 0)
    }
  }

  datatype SocketAddr = V4(ip4: Ipv4, port: Word) | V6(ip6: Ipv6, port: Word, flow: nat, zone: nat)

  datatype EndpointAddr = Direct(address: SocketAddr) | Mediate(agent: SocketAddr, outer: SocketAddr) {
    function Addr(): SocketAddr { if Direct? then address else outer }
  }

  datatype Scope = Loopback | Internal | External

  /** Direct addresses outside the recognised classes have no scope and are never advertised. */
  function ScopeOf(e: EndpointAddr): (scope: Option<Scope>)
    ensures scope == Some(External) && e.Direct? ==>
              match e.address
              case V4(ip, _) => ip.Routable() && !ip.Private() && !ip.Loopback()
              case V6(ip, _, _, _) => ip.Routable() && ip.Mapped().None?
  {
    match e
    case Mediate(_, _) => Some(External)
    case Direct(V4(ip, _)) =>
      if ip.Loopback() then Some(Loopback)
      else if ip.Private() || ip.LinkLocal() then Some(Internal)
      else if ip.Routable() then Some(External)
      else None
    case Direct(V6(ip, _, _, _)) =>
      var mapped := ip.Mapped();
      if ip.Loopback() || (mapped.Some? && mapped.value.Loopback()) then Some(Loopback)
      else if ip.UniqueLocal() || ip.LinkLocal() || (mapped.Some? && (mapped.value.Private() || mapped.value.LinkLocal())) then Some(Internal)
      else if ip.Routable() then Some(External)
      else None
  }

  datatype NatType = Blocked | FullCone | RestrictedCone | RestrictedPort | Symmetric | Dynamic

  // ---------------------------------------------------------------- order

  /** Socket addresses compare by family, address, port, flow label and zone. */
  function AddrKey(a: SocketAddr): seq<nat> {
    match a
    case V4(ip, port) => [0, ip.a, ip.b, ip.c, ip.d, port]
    case V6(ip, port, flow, zone) => [1, ip.s0, ip.s1, ip.s2, ip.s3, ip.s4, ip.s5, ip.s6, ip.s7, port, flow, zone]
  }

  function EndpointKey(e: EndpointAddr): seq<nat> { [if e.Direct? then 0 else 1] + Body(e) }

  function EntryKey(entry: (SocketAddr, EndpointAddr)): seq<nat> { AddrKey(entry.0) + EndpointKey(entry.1) }

  /** No address key is a proper prefix of another, so concatenated keys can be taken apart. */
  lemma AddrKeyPrefix(a: SocketAddr, b: SocketAddr, x: seq<nat>, y: seq<nat>)
    requires AddrKey(a) + x == AddrKey(b) + y
    ensures a == b && x == y
  {
    var whole := AddrKey(a) + x;
    assert whole[0] == AddrKey(a)[0] && whole[0] == AddrKey(b)[0];
    assert forall i :: 0 <= i < |AddrKey(a)| ==> whole[i] == AddrKey(a)[i] && (AddrKey(b) + y)[i] == AddrKey(b)[i];
    var n := |AddrKey(a)|;
    assert AddrKey(a) == whole[..n] == AddrKey(b);
    if a.V4? {
      assert AddrKey(a)[1] == AddrKey(b)[1] && AddrKey(a)[2] == AddrKey(b)[2] && AddrKey(a)[3] == AddrKey(b)[3];
      assert AddrKey(a)[4] == AddrKey(b)[4] && AddrKey(a)[5] == AddrKey(b)[5];
    } else {
      assert forall i :: 1 <= i < 12 ==> AddrKey(a)[i] == AddrKey(b)[i];
      assert a.ip6 == b.ip6;
    }
    assert x == whole[n..] == y;
  }

  lemma KeysInjective()
    ensures Injective(EndpointKey) && Injective(EntryKey)
  {
    forall e, f | EndpointKey(e) == EndpointKey(f) ensures e == f { EndpointKeyInjective(e, f); }
    forall p: (SocketAddr, EndpointAddr), q: (SocketAddr, EndpointAddr) | EntryKey(p) == EntryKey(q) ensures p == q {
      AddrKeyPrefix(p.0, q.0, EndpointKey(p.1), EndpointKey(q.1));
      EndpointKeyInjective(p.1, q.1);
    }
  }

  lemma ConsInjective(x: nat, s: seq<nat>, y: nat, t: seq<nat>)
    requires [x] + s == [y] + t
    ensures x == y && s == t
  {
    assert ([x] + s)[0] == x && ([x] + s)[1..] == s && ([y] + t)[0] == y && ([y] + t)[1..] == t;
  }

  lemma AddrKeyInjective(a: SocketAddr, b: SocketAddr)
    requires AddrKey(a) == AddrKey(b)
    ensures a == b
  {
    AddrKeyPrefix(a, b, [], []);
  }

  function Body(e: EndpointAddr): seq<nat> {
    match e
    case Direct(a) => AddrKey(a)
    case Mediate(agent, outer) => AddrKey(agent) + AddrKey(outer)
  }

  lemma EndpointKeyInjective(e: EndpointAddr, f: EndpointAddr)
    requires EndpointKey(e) == EndpointKey(f)
    ensures e == f
  {
    ConsInjective(if e.Direct? then 0 else 1, Body(e), if f.Direct? then 0 else 1, Body(f));
    if e.Direct? {
      AddrKeyInjective(e.address, f.address);
    } else {
      AddrKeyPrefix(e.agent, f.agent, AddrKey(e.outer), AddrKey(f.outer));
      AddrKeyInjective(e.outer, f.outer);
    }
  }
}
