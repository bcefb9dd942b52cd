/** Whole runs of the address book, and of the advertisements that follow one of its subscriptions. */
module AddressBookRuns {
  import opened Basics
  import opened Endpoints
  import opened AddressBookModel
  import Punching = PunchModel

  datatype Step =
    | InsertStep(bound: SocketAddr, endpoint: EndpointAddr, scope: Scope, interface: Option<Device>)
    | ReplaceStep(prior: EndpointAddr, endpoint: EndpointAddr)
    | RemoveStep(endpoint: EndpointAddr)
    | RemoveBoundStep(bound: SocketAddr, es: seq<EndpointAddr>)
    | SetNatStep(bound: SocketAddr, natType: NatType, es: seq<EndpointAddr>)
    | SubscribeStep(scopes: set<Scope>, entries: seq<(SocketAddr, EndpointAddr)>)
    | HangStep(i: nat)

  /** The enumerations a step works through are those of the directory it meets. */
  ghost predicate Faithful(b: Book, step: Step) {
    match step
    case RemoveBoundStep(bound, es) => ListsBound(es, b.dir, bound)
    case SetNatStep(bound, _, es) => ListsBound(es, b.dir, bound)
    case SubscribeStep(scopes, entries) => ListsScope(entries, b.dir, scopes)
    case _ => true
  }

  /** A refused insertion or replacement changes nothing. */
  ghost function Next(b: Book, step: Step): Book
    requires Faithful(b, step)
  {
    match step
    case InsertStep(bound, e, scope, interface) =>
      var r := Insert(b, bound, e, scope, interface);
      if r.Ok? then r.value else b
    case ReplaceStep(prior, e) =>
      var r := Replace(b, prior, e);
      if r.Ok? then r.value else b
    case RemoveStep(e) => Remove(b, e)
    case RemoveBoundStep(bound, es) => RemoveBound(b, bound, es)
    case SetNatStep(bound, natType, es) => SetNat(b, bound, natType, es)
    case SubscribeStep(scopes, entries) => SubscribePunch(b, scopes, entries)
    case HangStep(i) => Hang(b, i)
  }

  lemma NextKeepsInv(b: Book, step: Step)
    requires Inv(b) && Faithful(b, step)
    ensures Inv(Next(b, step))
  {
    match step
    case InsertStep(bound, e, scope, interface) =>
      if Insert(b, bound, e, scope, interface).Ok? { InsertKeepsInv(b, bound, e, scope, interface); }
    case ReplaceStep(prior, e) => if Replace(b, prior, e).Ok? { ReplaceKeepsInv(b, prior, e); }
    case RemoveStep(e) => RemoveKeepsInv(b, e);
    case RemoveBoundStep(bound, es) => RemoveBoundKeepsInv(b, bound, es);
    case SetNatStep(bound, natType, es) => SetNatKeepsInv(b, bound, natType, es);
    case SubscribeStep(scopes, entries) => SubscribePunchKeepsInv(b, scopes, entries);
    case HangStep(i) =>
      assert forall j :: 0 <= j < |Hang(b, i).subs| && !Hang(b, i).subs[j].closed ==> Hang(b, i).subs[j] == b.subs[j];
  }

  /** `books` is a run: each book follows from the one before it. */
  ghost predicate IsRun(books: seq<Book>, steps: seq<Step>) {
    && |books| == |steps| + 1 && books[0] == New()
    && forall i :: 0 <= i < |steps| ==> Faithful(books[i], steps[i]) && books[i + 1] == Next(books[i], steps[i])
  }

  lemma {:induction false} RunKeepsInv(books: seq<Book>, steps: seq<Step>)
    requires IsRun(books, steps)
    ensures Inv(books[|steps|])
    decreases |steps|
  {
    if steps != [] {
      var n := |steps| - 1;
      RunKeepsInv(books[..n + 1], steps[..n]);
      assert books[n + 1] == Next(books[n], steps[n]);
      NextKeepsInv(books[n], steps[n]);
    }
  }

  /**
   For every run and every open subscriber: folding its events gives exactly the in-scope endpoints
   with a known NAT type, and each BoundRemoved found none of its binding's endpoints left.
   */
  lemma EventsMirrorDirectory(books: seq<Book>, steps: seq<Step>, i: nat, e: EndpointAddr, k: nat)
    requires IsRun(books, steps)
    requires i < |books[|steps|].subs| && !books[|steps|].subs[i].closed
    ensures var b := books[|steps|];
            Fold(b.subs[i].events, e) == Expected(b.dir, b.subs[i].scopes, e)
    ensures var events := books[|steps|].subs[i].events;
            k < |events| && events[k].BoundRemoved? ==> NoneBound(events[..k], events[k].bound)
  {
    RunKeepsInv(books, steps);
    var b := books[|steps|];
    assert UpToDate(b.subs[i], b.dir);
    assert Agrees(b.subs[i], b.dir, e);
  }

  /**
   End to end: a connection that applies those events advertises exactly one address per in-scope
   endpoint with a known NAT type, and an in-order peer holds exactly those frames.
   */
  lemma AdvertisementsMirrorDirectory(books: seq<Book>, steps: seq<Step>, i: nat, e: EndpointAddr, s: nat)
    requires IsRun(books, steps)
    requires i < |books[|steps|].subs| && !books[|steps|].subs[i].closed
    ensures var b := books[|steps|];
            Punching.Mirrors(Punching.ApplyAll(b.subs[i].events), e, Expected(b.dir, b.subs[i].scopes, e))
    ensures var p := Punching.ApplyAll(books[|steps|].subs[i].events);
            Punching.PeerAt(p.sent, s) == Punching.LocalFrame(p, s)
  {
    EventsMirrorDirectory(books, steps, i, e, 0);
    Punching.LocalMirrorsEvents(books[|steps|].subs[i].events, e);
    Punching.PeerHoldsLocal(books[|steps|].subs[i].events, s);
  }

  /** A subscriber that could see some endpoint of a binding is told, last, when the binding goes. */
  lemma RemovalIsAnnounced(s: Subscriber, d: Directory, bound: SocketAddr, es: seq<EndpointAddr>, e: EndpointAddr)
    requires UpToDate(s, d) && Disjoint(d) && ListsBound(es, d, bound)
    requires Locate(d, e) == Some(bound) && InScope(e, s.scopes)
    ensures var events := ReceiveAll(s, Vanishes(bound, es) + [Unbind(bound)]).events;
            events != [] && events[|events| - 1] == BoundRemoved(bound)
  {
    var cs := Vanishes(bound, es);
    assert (cs + [Unbind(bound)])[..|cs|] == cs;
    assert Agrees(s, d, e);
    VanishesNoUnbind(bound, es);
    BoundsGrow(s, cs);
  }
}
