/**
 The local endpoint directory: two tables of endpoints, NAT classifications, DNS snapshots, and the
 ordered event streams of its subscribers.
 */
module AddressBookModel {
  import opened Basics
  import opened Sorting
  import opened Endpoints

  // ---------------------------------------------------------------- events and subscribers

  datatype AddressEvent =
    | Added(bound: SocketAddr, endpoint: EndpointAddr, natType: NatType)
    | Removed(bound: SocketAddr, endpoint: EndpointAddr)
    | BoundRemoved(bound: SocketAddr)

  /** What a consumer knows of one endpoint: its binding and NAT type, if it is advertised. */
  type Known = Option<(SocketAddr, NatType)>

  function FoldOne(k: Known, event: AddressEvent, e: EndpointAddr): Known {
    match event
    case Added(bound, endpoint, natType) => if endpoint == e then Some((bound, natType)) else k
    case Removed(_, endpoint) => if endpoint == e then None else k
    case BoundRemoved(_) => k
  }

  /** The consumer's knowledge of `e`: the last event about it decides. */
  function Fold(events: seq<AddressEvent>, e: EndpointAddr): Known {
    if events == [] then None else FoldOne(Fold(events[..|events| - 1], e), events[|events| - 1], e)
  }

  datatype Subscriber = Subscriber(scopes: set<Scope>, bounds: set<SocketAddr>, events: seq<AddressEvent>, closed: bool)

  predicate InScope(e: EndpointAddr, scopes: set<Scope>) { ScopeOf(e).Some? && ScopeOf(e).value in scopes }

  /** One directory change as announced to every subscriber. */
  datatype Change =
    | Appear(bound: SocketAddr, endpoint: EndpointAddr, natType: Option<NatType>)
    | Vanish(bound: SocketAddr, endpoint: EndpointAddr)
    | Unbind(bound: SocketAddr)

  function Receive(s: Subscriber, c: Change): (next: Subscriber)
    ensures next.scopes == s.scopes && next.closed == s.closed && s.events <= next.events
  {
    match c
    case Appear(bound, endpoint, natType) =>
      if !InScope(endpoint, s.scopes) then s
      else if natType.None? then s.(bounds := s.bounds + {bound})
      else s.(bounds := s.bounds + {bound}, events := s.events + [Added(bound, endpoint, natType.value)])
    case Vanish(bound, endpoint) =>
      if InScope(endpoint, s.scopes) then s.(events := s.events + [Removed(bound, endpoint)]) else s
    case Unbind(bound) =>
      if bound in s.bounds then s.(bounds := s.bounds - {bound}, events := s.events + [BoundRemoved(bound)]) else s
  }

  function ReceiveAll(s: Subscriber, cs: seq<Change>): Subscriber {
    if cs == [] then s else Receive(ReceiveAll(s, cs[..|cs| - 1]), cs[|cs| - 1])
  }

  /** Subscribers whose receiver is gone are dropped; the others receive the change, in order. */
  function Broadcast(subs: seq<Subscriber>, c: Change): seq<Subscriber> {
    if subs == [] then []
    else
      var n := |subs| - 1;
      Broadcast(subs[..n], c) + if subs[n].closed then [] else [Receive(subs[n], c)]
  }

  function BroadcastAll(subs: seq<Subscriber>, cs: seq<Change>): seq<Subscriber> {
    if cs == [] then subs else Broadcast(BroadcastAll(subs, cs[..|cs| - 1]), cs[|cs| - 1])
  }

  function Open(subs: seq<Subscriber>): seq<Subscriber> {
    if subs == [] then []
    else
      var n := |subs| - 1;
      Open(subs[..n]) + if subs[n].closed then [] else [subs[n]]
  }

  // ---------------------------------------------------------------- the directory

  datatype Device = Device(name: string, index: nat)

  datatype Directory = Directory(
    inner: map<EndpointAddr, SocketAddr>,
    outer: map<EndpointAddr, SocketAddr>,
    interfaces: map<SocketAddr, Option<Device>>,
    natType: map<SocketAddr, NatType>)

  /** Where an endpoint is published; no endpoint is in both tables. */
  function Locate(d: Directory, e: EndpointAddr): Option<SocketAddr> {
    if e in d.inner then Some(d.inner[e]) else if e in d.outer then Some(d.outer[e]) else None
  }

  function AdvertisementNat(d: Directory, bound: SocketAddr, e: EndpointAddr): Option<NatType> {
    match ScopeOf(e)
    case None => None
    case Some(External) => if bound in d.natType then Some(d.natType[bound]) else None
    case Some(_) => Some(FullCone)
  }

  /** What a subscriber to `scopes` should know of `e`: in-scope endpoints whose NAT type is known. */
  function Expected(d: Directory, scopes: set<Scope>, e: EndpointAddr): Known {
    match Locate(d, e)
    case None => None
    case Some(bound) =>
      if !InScope(e, scopes) then None
      else match AdvertisementNat(d, bound, e)
           case None => None
           case Some(natType) => Some((bound, natType))
  }

  datatype Book = Book(dir: Directory, subs: seq<Subscriber>)

  datatype BookError = Duplicate(endpoint: EndpointAddr) | NotFound(missing: EndpointAddr) | ConflictingInterface(bound: SocketAddr)

  function New(): Book { Book(Directory(map[], map[], map[], map[]), []) }

  function AppearNow(d: Directory, bound: SocketAddr, e: EndpointAddr): Change { Appear(bound, e, AdvertisementNat(d, bound, e)) }

  function WithEntry(d: Directory, inOuter: bool, e: EndpointAddr, bound: SocketAddr): Directory {
    if inOuter then d.(outer := d.outer[e := bound]) else d.(inner := d.inner[e := bound])
  }

  function WithoutEntry(d: Directory, e: EndpointAddr): Directory {
    d.(inner := d.inner - {e}, outer := d.outer - {e})
  }

  function Insert(b: Book, bound: SocketAddr, e: EndpointAddr, scope: Scope, interface: Option<Device>): Result<Book, BookError> {
    if Locate(b.dir, e).Some? then Err(Duplicate(e))
    else if bound in b.dir.interfaces && b.dir.interfaces[bound] != interface then Err(ConflictingInterface(bound))
    else
      var dir := WithEntry(b.dir, scope == External, e, bound).(interfaces := b.dir.interfaces[bound := interface]);
      Ok(Book(dir, BroadcastAll(b.subs, [AppearNow(dir, bound, e)])))
  }

  function Replace(b: Book, prior: EndpointAddr, e: EndpointAddr): Result<Book, BookError> {
    match Locate(b.dir, prior)
    case None => Err(NotFound(prior))
    case Some(bound) =>
      if prior == e then Ok(b)
      else if Locate(b.dir, e).Some? then Err(Duplicate(e))
      else
        var dir := WithEntry(WithoutEntry(b.dir, prior), prior !in b.dir.inner, e, bound);
        Ok(Book(dir, BroadcastAll(b.subs, [Vanish(bound, prior), AppearNow(dir, bound, e)])))
  }

  function Remove(b: Book, e: EndpointAddr): Book {
    match Locate(b.dir, e)
    case None => b
    case Some(bound) => Book(WithoutEntry(b.dir, e), BroadcastAll(b.subs, [Vanish(bound, e)]))
  }

  /** `es` enumerates the endpoints of one binding, in whatever order. */
  ghost predicate ListsBound(es: seq<EndpointAddr>, d: Directory, bound: SocketAddr) {
    forall e :: e in es <==> Locate(d, e) == Some(bound)
  }

  function Vanishes(bound: SocketAddr, es: seq<EndpointAddr>): seq<Change> {
    seq(|es|, i requires 0 <= i < |es| => Vanish(bound, es[i]))
  }

  function Without(m: map<EndpointAddr, SocketAddr>, bound: SocketAddr): map<EndpointAddr, SocketAddr> {
    map e | e in m && m[e] != bound :: m[e]
  }

  function WithoutBound(d: Directory, bound: SocketAddr): Directory {
    Directory(Without(d.inner, bound), Without(d.outer, bound), d.interfaces - {bound}, d.natType - {bound})
  }

  ghost function RemoveBound(b: Book, bound: SocketAddr, es: seq<EndpointAddr>): Book
    requires ListsBound(es, b.dir, bound)
  {
    Book(WithoutBound(b.dir, bound), BroadcastAll(b.subs, Vanishes(bound, es) + [Unbind(bound)]))
  }

  /** The external endpoints of `es`, announced with a new classification. */
  function Reclassified(bound: SocketAddr, es: seq<EndpointAddr>, natType: NatType): seq<Change> {
    if es == [] then []
    else
      var n := |es| - 1;
      Reclassified(bound, es[..n], natType) + if ScopeOf(es[n]) == Some(External) then [Appear(bound, es[n], Some(natType))] else []
  }

  function Classify(d: Directory, bound: SocketAddr, natType: NatType): Directory { d.(natType := d.natType[bound := natType]) }

  ghost function SetNat(b: Book, bound: SocketAddr, natType: NatType, es: seq<EndpointAddr>): Book
    requires ListsBound(es, b.dir, bound)
  {
    if bound in b.dir.natType && b.dir.natType[bound] == natType then b
    else Book(Classify(b.dir, bound, natType), BroadcastAll(b.subs, Reclassified(bound, es, natType)))
  }

  /** `entries` enumerates the endpoints in scope with their bindings, in whatever order. */
  ghost predicate ListsScope(entries: seq<(SocketAddr, EndpointAddr)>, d: Directory, scopes: set<Scope>) {
    && (forall i :: 0 <= i < |entries| ==> Locate(d, entries[i].1) == Some(entries[i].0) && InScope(entries[i].1, scopes))
    && (forall e :: Locate(d, e).Some? && InScope(e, scopes) ==> (Locate(d, e).value, e) in entries)
  }

  function Replay(d: Directory, entries: seq<(SocketAddr, EndpointAddr)>): seq<Change> {
    seq(|entries|, i requires 0 <= i < |entries| => AppearNow(d, entries[i].0, entries[i].1))
  }

  function NewSubscriber(d: Directory, scopes: set<Scope>, entries: seq<(SocketAddr, EndpointAddr)>): Subscriber {
    ReceiveAll(Subscriber(scopes, {}, [], false), Replay(d, entries))
  }

  ghost function SubscribePunch(b: Book, scopes: set<Scope>, entries: seq<(SocketAddr, EndpointAddr)>): Book
    requires ListsScope(entries, b.dir, scopes)
  {
    b.(subs := Open(b.subs) + [NewSubscriber(b.dir, scopes, entries)])
  }

  /** A consumer drops its receiver. */
  function Hang(b: Book, i: nat): Book {
    if i < |b.subs| then b.(subs := b.subs[i := b.subs[i].(closed := true)]) else b
  }

  // ---------------------------------------------------------------- the invariant

  ghost predicate NoneBound(events: seq<AddressEvent>, bound: SocketAddr) {
    forall e :: Fold(events, e).Some? ==> Fold(events, e).value.0 != bound
  }

  /** A binding is reported gone only to a consumer that holds none of its endpoints any more. */
  ghost predicate Quiet(events: seq<AddressEvent>) {
    forall i :: 0 <= i < |events| && events[i].BoundRemoved? ==> NoneBound(events[..i], events[i].bound)
  }

  /** The subscriber remembers the binding of every endpoint in its scopes. */
  predicate Remembers(s: Subscriber, d: Directory, e: EndpointAddr) {
    Locate(d, e).Some? && InScope(e, s.scopes) ==> Locate(d, e).value in s.bounds
  }

  predicate Agrees(s: Subscriber, d: Directory, e: EndpointAddr) { Fold(s.events, e) == Expected(d, s.scopes, e) && Remembers(s, d, e) }

  ghost predicate UpToDate(s: Subscriber, d: Directory) {
    Quiet(s.events) && forall e :: Agrees(s, d, e)
  }

  ghost predicate AllUpToDate(subs: seq<Subscriber>, d: Directory) {
    forall i :: 0 <= i < |subs| && !subs[i].closed ==> UpToDate(subs[i], d)
  }

  ghost predicate Disjoint(d: Directory) { forall e :: !(e in d.inner && e in d.outer) }

  ghost predicate Inv(b: Book) { Disjoint(b.dir) && AllUpToDate(b.subs, b.dir) }

  // ---------------------------------------------------------------- one subscriber

  /** A change as it affects what a consumer interested in `scopes` knows of `e`. */
  function Apply(k: Known, c: Change, scopes: set<Scope>, e: EndpointAddr): Known {
    match c
    case Appear(bound, endpoint, natType) =>
      if endpoint == e && InScope(e, scopes) && natType.Some? then Some((bound, natType.value)) else k
    case Vanish(_, endpoint) => if endpoint == e && InScope(e, scopes) then None else k
    case Unbind(_) => k
  }

  function ApplyAll(k: Known, cs: seq<Change>, scopes: set<Scope>, e: EndpointAddr): Known {
    if cs == [] then k else Apply(ApplyAll(k, cs[..|cs| - 1], scopes, e), cs[|cs| - 1], scopes, e)
  }

  lemma QuietPush(events: seq<AddressEvent>, event: AddressEvent)
    requires Quiet(events) && (event.BoundRemoved? ==> NoneBound(events, event.bound))
    ensures Quiet(events + [event])
  {
    var longer := events + [event];
    forall i | 0 <= i < |longer| && longer[i].BoundRemoved? ensures NoneBound(longer[..i], longer[i].bound) {
      assert longer[..i] == events[..i];
      assert events[..|events|] == events;
    }
  }

  lemma ReceiveFolds(s: Subscriber, c: Change, e: EndpointAddr)
    ensures Fold(Receive(s, c).events, e) == Apply(Fold(s.events, e), c, s.scopes, e)
  {
    match c
    case Appear(bound, endpoint, natType) =>
      if natType.Some? { FoldPush(s.events, Added(bound, endpoint, natType.value), e); }
    case Vanish(bound, endpoint) => FoldPush(s.events, Removed(bound, endpoint), e);
    case Unbind(bound) => FoldPush(s.events, BoundRemoved(bound), e);
  }

  lemma FoldPush(events: seq<AddressEvent>, event: AddressEvent, e: EndpointAddr)
    ensures Fold(events + [event], e) == FoldOne(Fold(events, e), event, e)
  {
    assert (events + [event])[..|events|] == events;
  }

  lemma ReceiveQuiet(s: Subscriber, c: Change)
    requires Quiet(s.events) && (c.Unbind? ==> NoneBound(s.events, c.bound))
    ensures Quiet(Receive(s, c).events)
  {
    var next := Receive(s, c);
    if |next.events| > |s.events| {
      assert next.events == s.events + [next.events[|s.events|]];
      QuietPush(s.events, next.events[|s.events|]);
    }
  }

  ghost predicate NoUnbind(cs: seq<Change>) { forall i :: 0 <= i < |cs| ==> !cs[i].Unbind? }

  lemma {:induction false} ReceiveAllFolds(s: Subscriber, cs: seq<Change>, e: EndpointAddr)
    ensures Fold(ReceiveAll(s, cs).events, e) == ApplyAll(Fold(s.events, e), cs, s.scopes, e)
    ensures ReceiveAll(s, cs).scopes == s.scopes && ReceiveAll(s, cs).closed == s.closed
    decreases |cs|
  {
    if cs != [] {
      var n := |cs| - 1;
      ReceiveAllFolds(s, cs[..n], e);
      ReceiveFolds(ReceiveAll(s, cs[..n]), cs[n], e);
    }
  }

  lemma {:induction false} ReceiveAllQuiet(s: Subscriber, cs: seq<Change>)
    requires Quiet(s.events) && NoUnbind(cs)
    ensures Quiet(ReceiveAll(s, cs).events)
    decreases |cs|
  {
    if cs != [] {
      var n := |cs| - 1;
      ReceiveAllQuiet(s, cs[..n]);
      ReceiveQuiet(ReceiveAll(s, cs[..n]), cs[n]);
    }
  }

  /** Apart from unbinding, what a subscriber remembers of bindings only grows. */
  lemma {:induction false} BoundsGrow(s: Subscriber, cs: seq<Change>)
    requires NoUnbind(cs)
    ensures s.bounds <= ReceiveAll(s, cs).bounds && ReceiveAll(s, cs).scopes == s.scopes
    decreases |cs|
  {
    if cs != [] { BoundsGrow(s, cs[..|cs| - 1]); }
  }

  lemma {:induction false} AppearanceRemembered(s: Subscriber, cs: seq<Change>, i: nat)
    requires NoUnbind(cs) && i < |cs| && cs[i].Appear? && InScope(cs[i].endpoint, s.scopes)
    ensures cs[i].bound in ReceiveAll(s, cs).bounds
    decreases |cs|
  {
    var n := |cs| - 1;
    BoundsGrow(s, cs[..n]);
    if i < n { AppearanceRemembered(s, cs[..n], i); }
  }

  lemma ReceiveOne(s: Subscriber, c: Change)
    ensures ReceiveAll(s, [c]) == Receive(s, c)
  {
    assert [c][..0] == [];
  }

  lemma SubInsert(s: Subscriber, d: Directory, d': Directory, bound: SocketAddr, e: EndpointAddr)
    requires UpToDate(s, d) && Locate(d, e).None? && d'.natType == d.natType
    requires forall x :: Locate(d', x) == if x == e then Some(bound) else Locate(d, x)
    ensures UpToDate(Receive(s, AppearNow(d', bound, e)), d')
  {
    var c := AppearNow(d', bound, e);
    ReceiveQuiet(s, c);
    forall x ensures Agrees(Receive(s, c), d', x) {
      assert Agrees(s, d, x);
      ReceiveFolds(s, c, x);
    }
  }

  lemma SubRemove(s: Subscriber, d: Directory, d': Directory, e: EndpointAddr)
    requires UpToDate(s, d) && Locate(d, e).Some? && d'.natType == d.natType
    requires forall x :: Locate(d', x) == if x == e then None else Locate(d, x)
    ensures UpToDate(Receive(s, Vanish(Locate(d, e).value, e)), d')
  {
    var c := Vanish(Locate(d, e).value, e);
    ReceiveQuiet(s, c);
    forall x ensures Agrees(Receive(s, c), d', x) {
      assert Agrees(s, d, x);
      ReceiveFolds(s, c, x);
    }
  }

  lemma SubReplace(s: Subscriber, d: Directory, mid: Directory, d': Directory, prior: EndpointAddr, e: EndpointAddr)
    requires UpToDate(s, d) && Locate(d, prior).Some? && Locate(d, e).None? && mid.natType == d.natType == d'.natType
    requires forall x :: Locate(mid, x) == if x == prior then None else Locate(d, x)
    requires forall x :: Locate(d', x) == if x == e then Locate(d, prior) else Locate(mid, x)
    ensures UpToDate(ReceiveAll(s, [Vanish(Locate(d, prior).value, prior), AppearNow(d', Locate(d, prior).value, e)]), d')
  {
    var bound := Locate(d, prior).value;
    var c1, c2 := Vanish(bound, prior), AppearNow(d', bound, e);
    SubRemove(s, d, mid, prior);
    SubInsert(Receive(s, c1), mid, d', bound, e);
    ReceiveOne(s, c1);
    assert [c1, c2][..1] == [c1];
  }

  lemma {:induction false} ApplyVanishes(k: Known, bound: SocketAddr, es: seq<EndpointAddr>, scopes: set<Scope>, e: EndpointAddr)
    ensures ApplyAll(k, Vanishes(bound, es), scopes, e) == if e in es && InScope(e, scopes) then None else k
    decreases |es|
  {
    if es != [] {
      var n := |es| - 1;
      assert Vanishes(bound, es)[..n] == Vanishes(bound, es[..n]);
      assert e in es <==> e in es[..n] || e == es[n];
      ApplyVanishes(k, bound, es[..n], scopes, e);
    }
  }

  lemma LocateWithoutBound(d: Directory, bound: SocketAddr, e: EndpointAddr)
    requires Disjoint(d)
    ensures Locate(WithoutBound(d, bound), e) == if Locate(d, e) == Some(bound) then None else Locate(d, e)
  {
  }

  lemma VanishesNoUnbind(bound: SocketAddr, es: seq<EndpointAddr>)
    ensures NoUnbind(Vanishes(bound, es))
  {
  }

  lemma AgreesAfterVanish(s: Subscriber, d: Directory, bound: SocketAddr, es: seq<EndpointAddr>, e: EndpointAddr)
    requires Agrees(s, d, e) && Disjoint(d) && ListsBound(es, d, bound)
    ensures var gone := ReceiveAll(s, Vanishes(bound, es));
            && Agrees(gone, WithoutBound(d, bound), e)
            && (Fold(gone.events, e).Some? ==> Fold(gone.events, e).value.0 != bound)
  {
    VanishesNoUnbind(bound, es);
    BoundsGrow(s, Vanishes(bound, es));
    ReceiveAllFolds(s, Vanishes(bound, es), e);
    ApplyVanishes(Fold(s.events, e), bound, es, s.scopes, e);
    LocateWithoutBound(d, bound, e);
  }

  /** After the endpoints of a binding vanish, nothing of the binding is left to the subscriber. */
  lemma SubVanishAll(s: Subscriber, d: Directory, bound: SocketAddr, es: seq<EndpointAddr>)
    requires UpToDate(s, d) && Disjoint(d) && ListsBound(es, d, bound)
    ensures UpToDate(ReceiveAll(s, Vanishes(bound, es)), WithoutBound(d, bound))
    ensures NoneBound(ReceiveAll(s, Vanishes(bound, es)).events, bound)
  {
    var gone := ReceiveAll(s, Vanishes(bound, es));
    forall e ensures Agrees(gone, WithoutBound(d, bound), e) && (Fold(gone.events, e).Some? ==> Fold(gone.events, e).value.0 != bound) {
      AgreesAfterVanish(s, d, bound, es, e);
    }
    VanishesNoUnbind(bound, es);
    ReceiveAllQuiet(s, Vanishes(bound, es));
  }

  lemma SubRemoveBound(s: Subscriber, d: Directory, bound: SocketAddr, es: seq<EndpointAddr>)
    requires UpToDate(s, d) && Disjoint(d) && ListsBound(es, d, bound)
    ensures UpToDate(ReceiveAll(s, Vanishes(bound, es) + [Unbind(bound)]), WithoutBound(d, bound))
  {
    var cs, d' := Vanishes(bound, es), WithoutBound(d, bound);
    var gone := ReceiveAll(s, cs);
    assert (cs + [Unbind(bound)])[..|cs|] == cs;
    SubVanishAll(s, d, bound, es);
    ReceiveQuiet(gone, Unbind(bound));
    forall e ensures Agrees(Receive(gone, Unbind(bound)), d', e) {
      assert Agrees(gone, d', e);
      ReceiveFolds(gone, Unbind(bound), e);
      LocateWithoutBound(d, bound, e);
    }
  }

  lemma {:induction false} ApplyReclassified(
    k: Known, bound: SocketAddr, es: seq<EndpointAddr>, natType: NatType, scopes: set<Scope>, e: EndpointAddr)
    ensures ApplyAll(k, Reclassified(bound, es, natType), scopes, e)
         == if e in es && ScopeOf(e) == Some(External) && InScope(e, scopes) then Some((bound, natType)) else k
    decreases |es|
  {
    if es != [] {
      var n := |es| - 1;
      ApplyReclassified(k, bound, es[..n], natType, scopes, e);
      assert e in es <==> e in es[..n] || e == es[n];
      var cs := Reclassified(bound, es[..n], natType);
      if ScopeOf(es[n]) == Some(External) {
        assert (cs + [Appear(bound, es[n], Some(natType))])[..|cs|] == cs;
      } else {
        assert cs + [] == cs;
      }
    }
  }

  lemma {:induction false} ReclassifiedAppear(bound: SocketAddr, es: seq<EndpointAddr>, natType: NatType)
    ensures NoUnbind(Reclassified(bound, es, natType))
    decreases |es|
  {
    if es != [] { ReclassifiedAppear(bound, es[..|es| - 1], natType); }
  }

  lemma ExpectedAfterSetNat(d: Directory, bound: SocketAddr, natType: NatType, scopes: set<Scope>, e: EndpointAddr)
    ensures Expected(Classify(d, bound, natType), scopes, e)
         == if Locate(d, e) == Some(bound) && ScopeOf(e) == Some(External) && InScope(e, scopes) then Some((bound, natType))
            else Expected(d, scopes, e)
  {
    assert Locate(Classify(d, bound, natType), e) == Locate(d, e);
  }

  lemma AgreesAfterSetNat(s: Subscriber, d: Directory, bound: SocketAddr, natType: NatType, es: seq<EndpointAddr>, e: EndpointAddr)
    requires Agrees(s, d, e) && ListsBound(es, d, bound)
    ensures Agrees(ReceiveAll(s, Reclassified(bound, es, natType)), Classify(d, bound, natType), e)
  {
    var cs := Reclassified(bound, es, natType);
    ReclassifiedAppear(bound, es, natType);
    ApplyReclassified(Fold(s.events, e), bound, es, natType, s.scopes, e);
    ReceiveAllFolds(s, cs, e);
    ExpectedAfterSetNat(d, bound, natType, s.scopes, e);
    BoundsGrow(s, cs);
  }

  lemma SubSetNat(s: Subscriber, d: Directory, bound: SocketAddr, natType: NatType, es: seq<EndpointAddr>)
    requires UpToDate(s, d) && ListsBound(es, d, bound)
    ensures UpToDate(ReceiveAll(s, Reclassified(bound, es, natType)), Classify(d, bound, natType))
  {
    forall e ensures Agrees(ReceiveAll(s, Reclassified(bound, es, natType)), Classify(d, bound, natType), e) {
      AgreesAfterSetNat(s, d, bound, natType, es, e);
    }
    ReclassifiedAppear(bound, es, natType);
    ReceiveAllQuiet(s, Reclassified(bound, es, natType));
  }

  predicate Mentions(entries: seq<(SocketAddr, EndpointAddr)>, e: EndpointAddr) {
    entries != [] && (entries[|entries| - 1].1 == e || Mentions(entries[..|entries| - 1], e))
  }

  lemma {:induction false} MentionsAt(entries: seq<(SocketAddr, EndpointAddr)>, i: nat)
    requires i < |entries|
    ensures Mentions(entries, entries[i].1)
    decreases |entries|
  {
    if i < |entries| - 1 { MentionsAt(entries[..|entries| - 1], i); }
  }

  lemma {:induction false} MentionedIsListed(entries: seq<(SocketAddr, EndpointAddr)>, d: Directory, scopes: set<Scope>, e: EndpointAddr)
    requires Mentions(entries, e)
    requires forall i :: 0 <= i < |entries| ==> Locate(d, entries[i].1) == Some(entries[i].0) && InScope(entries[i].1, scopes)
    ensures Locate(d, e).Some? && InScope(e, scopes)
    decreases |entries|
  {
    if entries[|entries| - 1].1 != e { MentionedIsListed(entries[..|entries| - 1], d, scopes, e); }
  }

  lemma {:induction false} ApplyReplay(d: Directory, entries: seq<(SocketAddr, EndpointAddr)>, scopes: set<Scope>, e: EndpointAddr)
    requires forall i :: 0 <= i < |entries| ==> Locate(d, entries[i].1) == Some(entries[i].0)
    ensures ApplyAll(None, Replay(d, entries), scopes, e) == if Mentions(entries, e) then Expected(d, scopes, e) else None
    decreases |entries|
  {
    if entries != [] {
      var n := |entries| - 1;
      assert Replay(d, entries)[..n] == Replay(d, entries[..n]);
      ApplyReplay(d, entries[..n], scopes, e);
    }
  }

  lemma AgreesAfterReplay(d: Directory, scopes: set<Scope>, entries: seq<(SocketAddr, EndpointAddr)>, e: EndpointAddr)
    requires ListsScope(entries, d, scopes)
    ensures Agrees(NewSubscriber(d, scopes, entries), d, e)
  {
    var start, cs := Subscriber(scopes, {}, [], false), Replay(d, entries);
    ReceiveAllFolds(start, cs, e);
    ApplyReplay(d, entries, scopes, e);
    if Locate(d, e).Some? && InScope(e, scopes) {
      var i :| 0 <= i < |entries| && entries[i] == (Locate(d, e).value, e);
      AppearanceRemembered(start, cs, i);
      MentionsAt(entries, i);
    } else if Mentions(entries, e) {
      MentionedIsListed(entries, d, scopes, e);
    }
  }

  lemma SubSubscribe(d: Directory, scopes: set<Scope>, entries: seq<(SocketAddr, EndpointAddr)>)
    requires ListsScope(entries, d, scopes)
    ensures UpToDate(NewSubscriber(d, scopes, entries), d)
  {
    ReceiveAllQuiet(Subscriber(scopes, {}, [], false), Replay(d, entries));
    forall e ensures Agrees(NewSubscriber(d, scopes, entries), d, e) { AgreesAfterReplay(d, scopes, entries, e); }
  }

  // ---------------------------------------------------------------- all subscribers

  lemma {:induction false} BroadcastFrom(subs: seq<Subscriber>, c: Change, i: nat) returns (j: nat)
    requires i < |Broadcast(subs, c)|
    ensures j < |subs| && !subs[j].closed && Broadcast(subs, c)[i] == Receive(subs[j], c)
    decreases |subs|
  {
    var n := |subs| - 1;
    if i < |Broadcast(subs[..n], c)| {
      j := BroadcastFrom(subs[..n], c, i);
    } else {
      j := n;
    }
  }

  /** Whoever is still subscribed after some changes is an open subscriber that received all of them. */
  lemma {:induction false} BroadcastAllFrom(subs: seq<Subscriber>, cs: seq<Change>, i: nat) returns (j: nat)
    requires i < |BroadcastAll(subs, cs)| && !BroadcastAll(subs, cs)[i].closed
    ensures j < |subs| && !subs[j].closed && BroadcastAll(subs, cs)[i] == ReceiveAll(subs[j], cs)
    decreases |cs|
  {
    if cs == [] {
      j := i;
    } else {
      var n := |cs| - 1;
      var k := BroadcastFrom(BroadcastAll(subs, cs[..n]), cs[n], i);
      j := BroadcastAllFrom(subs, cs[..n], k);
    }
  }

  lemma {:induction false} OpenFrom(subs: seq<Subscriber>, i: nat) returns (j: nat)
    requires i < |Open(subs)|
    ensures j < |subs| && !subs[j].closed && Open(subs)[i] == subs[j]
    decreases |subs|
  {
    var n := |subs| - 1;
    if i < |Open(subs[..n])| {
      j := OpenFrom(subs[..n], i);
    } else {
      j := n;
    }
  }

  // ---------------------------------------------------------------- operations keep the invariant

  lemma InsertKeepsInv(b: Book, bound: SocketAddr, e: EndpointAddr, scope: Scope, interface: Option<Device>)
    requires Inv(b) && Insert(b, bound, e, scope, interface).Ok?
    ensures Inv(Insert(b, bound, e, scope, interface).value)
  {
    var next := Insert(b, bound, e, scope, interface).value;
    var c := AppearNow(next.dir, bound, e);
    forall i | 0 <= i < |next.subs| && !next.subs[i].closed ensures UpToDate(next.subs[i], next.dir) {
      var j := BroadcastAllFrom(b.subs, [c], i);
      ReceiveOne(b.subs[j], c);
      SubInsert(b.subs[j], b.dir, next.dir, bound, e);
    }
  }

  lemma RemoveKeepsInv(b: Book, e: EndpointAddr)
    requires Inv(b)
    ensures Inv(Remove(b, e))
  {
    if Locate(b.dir, e).Some? {
      var next, c := Remove(b, e), Vanish(Locate(b.dir, e).value, e);
      forall i | 0 <= i < |next.subs| && !next.subs[i].closed ensures UpToDate(next.subs[i], next.dir) {
        var j := BroadcastAllFrom(b.subs, [c], i);
        ReceiveOne(b.subs[j], c);
        SubRemove(b.subs[j], b.dir, next.dir, e);
      }
    }
  }

  lemma ReplaceKeepsInv(b: Book, prior: EndpointAddr, e: EndpointAddr)
    requires Inv(b) && Replace(b, prior, e).Ok?
    ensures Inv(Replace(b, prior, e).value)
  {
    if prior != e {
      var next, bound, mid := Replace(b, prior, e).value, Locate(b.dir, prior).value, WithoutEntry(b.dir, prior);
      forall i | 0 <= i < |next.subs| && !next.subs[i].closed ensures UpToDate(next.subs[i], next.dir) {
        var j := BroadcastAllFrom(b.subs, [Vanish(bound, prior), AppearNow(next.dir, bound, e)], i);
        SubReplace(b.subs[j], b.dir, mid, next.dir, prior, e);
      }
    }
  }

  lemma RemoveBoundKeepsInv(b: Book, bound: SocketAddr, es: seq<EndpointAddr>)
    requires Inv(b) && ListsBound(es, b.dir, bound)
    ensures Inv(RemoveBound(b, bound, es))
  {
    var next := RemoveBound(b, bound, es);
    forall i | 0 <= i < |next.subs| && !next.subs[i].closed ensures UpToDate(next.subs[i], next.dir) {
      var j := BroadcastAllFrom(b.subs, Vanishes(bound, es) + [Unbind(bound)], i);
      SubRemoveBound(b.subs[j], b.dir, bound, es);
    }
  }

  lemma SetNatKeepsInv(b: Book, bound: SocketAddr, natType: NatType, es: seq<EndpointAddr>)
    requires Inv(b) && ListsBound(es, b.dir, bound)
    ensures Inv(SetNat(b, bound, natType, es))
  {
    if !(bound in b.dir.natType && b.dir.natType[bound] == natType) {
      var next := SetNat(b, bound, natType, es);
      forall i | 0 <= i < |next.subs| && !next.subs[i].closed ensures UpToDate(next.subs[i], next.dir) {
        var j := BroadcastAllFrom(b.subs, Reclassified(bound, es, natType), i);
        SubSetNat(b.subs[j], b.dir, bound, natType, es);
      }
    }
  }

  lemma SubscribePunchKeepsInv(b: Book, scopes: set<Scope>, entries: seq<(SocketAddr, EndpointAddr)>)
    requires Inv(b) && ListsScope(entries, b.dir, scopes)
    ensures Inv(SubscribePunch(b, scopes, entries))
  {
    var next := SubscribePunch(b, scopes, entries);
    SubSubscribe(b.dir, scopes, entries);
    forall i | 0 <= i < |next.subs| && !next.subs[i].closed ensures UpToDate(next.subs[i], next.dir) {
      if i < |Open(b.subs)| {
        var j := OpenFrom(b.subs, i);
      }
    }
  }
}
