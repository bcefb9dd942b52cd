/** What each operation does to the directory, said of where endpoints are found afterwards. */
module DirectoryFacts {
  import opened Basics
  import opened Endpoints
  import opened AddressBookModel

  /** The new endpoint is found at its binding, on the side its scope says; it was not there, and nothing else moves. */
  lemma InsertActs(b: Book, bound: SocketAddr, e: EndpointAddr, scope: Scope, interface: Option<Device>, x: EndpointAddr)
    ensures var r := Insert(b, bound, e, scope, interface);
            && (Locate(b.dir, e).Some? ==> r == Err(Duplicate(e)))
            && (Locate(b.dir, e).None? && bound in b.dir.interfaces && b.dir.interfaces[bound] != interface ==>
                  r == Err(ConflictingInterface(bound)))
            && (Locate(b.dir, e).None? && (bound in b.dir.interfaces ==> b.dir.interfaces[bound] == interface) ==>
                  && r.Ok? && Locate(r.value.dir, x) == (if x == e then Some(bound) else Locate(b.dir, x))
                  && (x in r.value.dir.outer <==> x in b.dir.outer || (x == e && scope == External))
                  && bound in r.value.dir.interfaces && r.value.dir.interfaces[bound] == interface
                  && r.value.dir.natType == b.dir.natType)
  {
  }

  /** The replacement takes over the binding and the side of the endpoint it replaces. */
  lemma ReplaceActs(b: Book, prior: EndpointAddr, e: EndpointAddr, x: EndpointAddr)
    requires Disjoint(b.dir)
    ensures var r := Replace(b, prior, e);
            && (Locate(b.dir, prior).None? ==> r == Err(NotFound(prior)))
            && (Locate(b.dir, prior).Some? && prior == e ==> r == Ok(b))
            && (Locate(b.dir, prior).Some? && prior != e && Locate(b.dir, e).Some? ==> r == Err(Duplicate(e)))
            && (Locate(b.dir, prior).Some? && prior != e && Locate(b.dir, e).None? ==>
                  && r.Ok?
                  && Locate(r.value.dir, x) == (if x == e then Locate(b.dir, prior) else if x == prior then None else Locate(b.dir, x))
                  && (e in r.value.dir.outer <==> prior in b.dir.outer)
                  && r.value.dir.natType == b.dir.natType && r.value.dir.interfaces == b.dir.interfaces)
  {
  }

  lemma RemoveActs(b: Book, e: EndpointAddr, x: EndpointAddr)
    ensures Locate(Remove(b, e).dir, x) == if x == e then None else Locate(b.dir, x)
    ensures Remove(b, e).dir.natType == b.dir.natType && Remove(b, e).dir.interfaces == b.dir.interfaces
  {
  }

  /** Nothing is left of the binding, its interface and classification included; nothing else goes. */
  lemma RemoveBoundActs(b: Book, bound: SocketAddr, es: seq<EndpointAddr>, x: EndpointAddr, other: SocketAddr)
    requires Disjoint(b.dir) && ListsBound(es, b.dir, bound) && other != bound
    ensures var d := RemoveBound(b, bound, es).dir;
            && Locate(d, x) == (if Locate(b.dir, x) == Some(bound) then None else Locate(b.dir, x))
            && bound !in d.natType && bound !in d.interfaces
            && (other in d.natType <==> other in b.dir.natType) && (other in d.natType ==> d.natType[other] == b.dir.natType[other])
            && (other in d.interfaces <==> other in b.dir.interfaces)
  {
    LocateWithoutBound(b.dir, bound, x);
  }

  lemma SetNatActs(b: Book, bound: SocketAddr, natType: NatType, es: seq<EndpointAddr>, x: EndpointAddr, other: SocketAddr)
    requires ListsBound(es, b.dir, bound) && other != bound
    ensures var d := SetNat(b, bound, natType, es).dir;
            && bound in d.natType && d.natType[bound] == natType && Locate(d, x) == Locate(b.dir, x)
            && (other in d.natType <==> other in b.dir.natType) && (other in d.natType ==> d.natType[other] == b.dir.natType[other])
            && d.interfaces == b.dir.interfaces
  {
  }

  /** Neither subscribing nor hanging up touches the directory. */
  lemma SubscribingLeavesDirectory(b: Book, scopes: set<Scope>, entries: seq<(SocketAddr, EndpointAddr)>, i: nat)
    requires ListsScope(entries, b.dir, scopes)
    ensures SubscribePunch(b, scopes, entries).dir == b.dir && Hang(b, i).dir == b.dir
  {
  }

  // ---------------------------------------------------------------- what is advertised

  /**
   An endpoint is advertised to those interested in its scope: as a full cone inside, and outside as its
   binding is classified, once it is.
   */
  lemma AdvertisedAs(d: Directory, scopes: set<Scope>, e: EndpointAddr, bound: SocketAddr)
    requires Locate(d, e) == Some(bound) && ScopeOf(e).Some?
    ensures ScopeOf(e).value !in scopes ==> Expected(d, scopes, e).None?
    ensures ScopeOf(e).value in scopes && ScopeOf(e) != Some(External) ==> Expected(d, scopes, e) == Some((bound, FullCone))
    ensures ScopeOf(e).value in scopes && ScopeOf(e) == Some(External) ==>
              Expected(d, scopes, e) == if bound in d.natType then Some((bound, d.natType[bound])) else None
  {
  }

  /** Since the last time the binding went, an endpoint of it in scope was announced, classified or not. */
  predicate SeenSince(cs: seq<Change>, bound: SocketAddr, scopes: set<Scope>) {
    cs != [] &&
    var c := cs[|cs| - 1];
    || (c.Appear? && c.bound == bound && InScope(c.endpoint, scopes))
    || (c != Unbind(bound) && SeenSince(cs[..|cs| - 1], bound, scopes))
  }

  lemma {:induction false} RemembersSeen(scopes: set<Scope>, cs: seq<Change>, bound: SocketAddr)
    ensures bound in ReceiveAll(Subscriber(scopes, {}, [], false), cs).bounds <==> SeenSince(cs, bound, scopes)
    ensures ReceiveAll(Subscriber(scopes, {}, [], false), cs).scopes == scopes
    decreases |cs|
  {
    if cs != [] { RemembersSeen(scopes, cs[..|cs| - 1], bound); }
  }

  /** A subscriber is told that a binding is gone if and only if it could have seen something of it. */
  lemma UnbindReportedIff(scopes: set<Scope>, cs: seq<Change>, bound: SocketAddr)
    ensures var s := ReceiveAll(Subscriber(scopes, {}, [], false), cs);
            ReceiveAll(Subscriber(scopes, {}, [], false), cs + [Unbind(bound)]).events
            == s.events + if SeenSince(cs, bound, scopes) then [BoundRemoved(bound)] else []
  {
    assert (cs + [Unbind(bound)])[..|cs|] == cs;
    RemembersSeen(scopes, cs, bound);
  }

  // ---------------------------------------------------------------- scopes

  function ScopeOf4(ip: Ipv4): Option<Scope> { ScopeOf(Direct(V4(ip, 0))) }

  function ScopeOf6(ip: Ipv6): Option<Scope> { ScopeOf(Direct(V6(ip, 0, 0, 0))) }

  /** Loopback, the private and link-local networks, a public address, documentation, unspecified and broadcast addresses. */
  lemma Ipv4Samples()
    ensures ScopeOf4(Ipv4(127, 0, 0, 1)) == Some(Loopback)
    ensures ScopeOf4(Ipv4(10, 1, 2, 3)) == ScopeOf4(Ipv4(172, 31, 0, 1)) == ScopeOf4(Ipv4(192, 168, 0, 1)) == Some(Internal)
    ensures ScopeOf4(Ipv4(169, 254, 0, 1)) == Some(Internal) && ScopeOf4(Ipv4(8, 8, 8, 8)) == Some(External)
    ensures ScopeOf4(Ipv4(203, 0, 113, 1)).None? && ScopeOf4(Ipv4(0, 0, 0, 0)).None? && ScopeOf4(Ipv4(255, 255, 255, 255)).None?
  {
  }

  lemma Ipv6Samples()
    ensures ScopeOf6(Ipv6(0, 0, 0, 0, 0, 0, 0, 1)) == Some(Loopback)
    ensures ScopeOf6(Ipv6(0xfe80, 0, 0, 0, 0, 0, 0, 1)) == ScopeOf6(Ipv6(0xfd00, 0, 0, 0, 0, 0, 0, 1)) == Some(Internal)
    ensures ScopeOf6(Ipv6(0x2606, 0x4700, 0, 0, 0, 0, 0, 1)) == Some(External)
    ensures ScopeOf6(Ipv6(0x2001, 0xdb8, 0, 0, 0, 0, 0, 1)).None? && ScopeOf6(Ipv6(0, 0, 0, 0, 0, 0, 0, 0)).None?
  {
  }

  /** An IPv4 address written as an IPv6 one keeps its scope, but is never external. */
  lemma MappedScope(ip: Ipv4)
    ensures var s6, s7 := ip.a * 0x100 + ip.b, ip.c * 0x100 + ip.d;
            ScopeOf6(Ipv6(0, 0, 0, 0, 0, 0xffff, s6, s7)) == if ScopeOf4(ip) == Some(External) then None else ScopeOf4(ip)
  {
    assert Ipv6(0, 0, 0, 0, 0, 0xffff, ip.a * 0x100 + ip.b, ip.c * 0x100 + ip.d).Mapped() == Some(ip);
  }
}
