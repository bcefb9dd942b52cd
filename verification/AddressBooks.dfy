/** The address book object: tables, DNS watch values and subscribers behind one lock. */
module AddressBooks {
  import opened Basics
  import opened Endpoints
  import Sorting
  import M = AddressBookModel

  type Table = map<EndpointAddr, SocketAddr>

  /** `r` lists the keys of `table` that belong to `bound` (or all of them), ascending. */
  ghost predicate Snapshot(r: seq<EndpointAddr>, table: Table, bound: Option<SocketAddr>) {
    && Sorting.Ascending(r, EndpointKey)
    && forall e :: e in r <==> e in table && (bound.None? || table[e] == bound.value)
  }

  ghost predicate MdnsCurrent(mdns: map<SocketAddr, seq<EndpointAddr>>, inner: Table, bound: SocketAddr) {
    bound in mdns ==> Snapshot(mdns[bound], inner, Some(bound))
  }

  /** There is only one such list, so a watch value is the sorted table. */
  lemma SnapshotUnique(a: seq<EndpointAddr>, b: seq<EndpointAddr>, table: Table, bound: Option<SocketAddr>)
    requires Snapshot(a, table, bound) && Snapshot(b, table, bound)
    ensures a == b
  {
    Sorting.AscendingUnique(a, b, EndpointKey);
  }

  class AddressBook {
    var inner: Table
    var outer: Table
    var interfaces: map<SocketAddr, Option<M.Device>>
    var natTypes: map<SocketAddr, NatType>
    var ddns: seq<EndpointAddr>
    var mdns: map<SocketAddr, seq<EndpointAddr>>
    var subs: seq<M.Subscriber>

    function Dir(): M.Directory
      reads this
    {
      M.Directory(inner, outer, interfaces, natTypes)
    }

    ghost function View(): M.Book
      reads this
    {
      M.Book(Dir(), subs)
    }

    /** The watch values are current. */
    ghost predicate Valid()
      reads this
    {
      && M.Disjoint(Dir())
      && Snapshot(ddns, outer, None)
      && forall bound :: MdnsCurrent(mdns, inner, bound)
    }

    constructor ()
      ensures Valid() && View() == M.New()
    {
      inner, outer, interfaces, natTypes, ddns, mdns, subs := map[], map[], map[], map[], [], map[], [];
    }

    function Locate(e: EndpointAddr): Option<(Scope, SocketAddr)>
      reads this
    {
      if e in inner then Some((Internal, inner[e])) else if e in outer then Some((External, outer[e])) else None
    }

    // ------------------------------------------------------------ announcements

    method Announce(c: M.Change)
      modifies this`subs
      ensures subs == M.Broadcast(old(subs), c)
    {
      var kept: seq<M.Subscriber> := [];
      assert subs[..0] == [];
      for i := 0 to |subs|
        invariant subs == old(subs) && kept == M.Broadcast(subs[..i], c)
      {
        assert subs[..i + 1][..i] == subs[..i];
        if !subs[i].closed { kept := kept + [M.Receive(subs[i], c)]; }
      }
      assert subs[..|subs|] == subs;
      subs := kept;
    }

    method Added(bound: SocketAddr, e: EndpointAddr)
      modifies this`subs
      ensures subs == M.BroadcastAll(old(subs), [M.AppearNow(Dir(), bound, e)])
    {
      var c := M.AppearNow(Dir(), bound, e);
      Announce(c);
      AnnouncedOne(old(subs), c);
    }

    method Removed(bound: SocketAddr, e: EndpointAddr)
      modifies this`subs
      ensures subs == M.BroadcastAll(old(subs), [M.Vanish(bound, e)])
    {
      Announce(M.Vanish(bound, e));
      AnnouncedOne(old(subs), M.Vanish(bound, e));
    }

    // ------------------------------------------------------------ snapshots

    method PublishOuter()
      modifies this`ddns
      ensures Snapshot(ddns, outer, None)
    {
      KeysInjective();
      ddns := Sorting.Sort(outer.Keys, EndpointKey);
    }

    method MdnsSnapshot(bound: SocketAddr) returns (r: seq<EndpointAddr>)
      ensures Snapshot(r, inner, Some(bound))
    {
      KeysInjective();
      var es := set e | e in inner && inner[e] == bound;
      r := Sorting.Sort(es, EndpointKey);
    }

    method PublishInner(bound: SocketAddr)
      modifies this`mdns
      ensures bound in mdns ==> Snapshot(mdns[bound], inner, Some(bound))
      ensures mdns.Keys == old(mdns).Keys && forall b :: b in mdns && b != bound ==> mdns[b] == old(mdns)[b]
    {
      if bound in mdns {
        var r := MdnsSnapshot(bound);
        mdns := mdns[bound := r];
      }
    }

    // ------------------------------------------------------------ changes

    /** Refuses duplicates and conflicting metadata, leaving everything as it was. */
    method Insert(bound: SocketAddr, e: EndpointAddr, scope: Scope, interface: Option<M.Device>) returns (r: Result<bool, M.BookError>)
      requires Valid()
      modifies this
      ensures Valid()
      ensures match M.Insert(old(View()), bound, e, scope, interface)
              case Ok(next) => r.Ok? && View() == next
              case Err(error) => r == Err(error) && View() == old(View())
    {
      if Locate(e).Some? { return Err(M.Duplicate(e)); }
      if bound in interfaces && interfaces[bound] != interface { return Err(M.ConflictingInterface(bound)); }
      interfaces := interfaces[bound := interface];
      Place(scope, bound, e);
      Added(bound, e);
      r := Ok(true);
    }

    /** Enter a new endpoint into its table and publish the result. */
    method Place(scope: Scope, bound: SocketAddr, e: EndpointAddr)
      requires Valid() && Locate(e).None?
      modifies this`inner, this`outer, this`ddns, this`mdns
      ensures Valid() && Dir() == M.WithEntry(old(Dir()), scope == External, e, bound)
    {
      if scope == External { outer := outer[e := bound]; } else { inner := inner[e := bound]; }
      Publish(scope, bound, old(inner), old(mdns));
    }

    method Take(scope: Scope, e: EndpointAddr)
      requires Valid() && Locate(e).Some? && scope == Locate(e).value.0
      modifies this`inner, this`outer
      ensures Dir() == M.WithoutEntry(old(Dir()), e)
      ensures if scope == External then inner == old(inner) && outer == old(outer) - {e} else outer == old(outer) && inner == old(inner) - {e}
    {
      if scope == External {
        outer := outer - {e};
        assert inner == inner - {e};
      } else {
        inner := inner - {e};
        assert outer == outer - {e};
      }
    }

    method Remove(e: EndpointAddr) returns (bound: Option<SocketAddr>)
      requires Valid()
      modifies this
      ensures Valid() && View() == M.Remove(old(View()), e) && bound == M.Locate(old(Dir()), e)
    {
      var located := Locate(e);
      if located.None? { return None; }
      var (scope, b) := located.value;
      Take(scope, e);
      Publish(scope, b, old(inner), old(mdns));
      Removed(b, e);
      bound := Some(b);
    }

    /** Refresh the watch value of the table that changed, in which only endpoints of `bound` moved. */
    method Publish(scope: Scope, bound: SocketAddr, ghost was: Table, ghost before: map<SocketAddr, seq<EndpointAddr>>)
      requires before == mdns && forall b :: MdnsCurrent(mdns, was, b)
      requires if scope == External then inner == was else Snapshot(ddns, outer, None) && OnlyTouches(was, inner, bound)
      modifies this`ddns, this`mdns
      ensures Snapshot(ddns, outer, None) && forall b :: MdnsCurrent(mdns, inner, b)
    {
      if scope == External {
        PublishOuter();
      } else {
        PublishInner(bound);
        OthersStay(before, mdns, was, inner, bound);
      }
    }

    method Replace(prior: EndpointAddr, e: EndpointAddr) returns (r: Result<bool, M.BookError>)
      requires Valid()
      modifies this
      ensures Valid()
      ensures match M.Replace(old(View()), prior, e)
              case Ok(next) => r.Ok? && View() == next
              case Err(error) => r == Err(error) && View() == old(View())
    {
      var located := Locate(prior);
      if located.None? { return Err(M.NotFound(prior)); }
      if prior == e { return Ok(true); }
      if Locate(e).Some? { return Err(M.Duplicate(e)); }
      var (scope, bound) := located.value;
      Swap(scope, prior, bound, e);
      AnnounceSwap(bound, prior, e);
      r := Ok(true);
    }

    method AnnounceSwap(bound: SocketAddr, prior: EndpointAddr, e: EndpointAddr)
      modifies this`subs
      ensures subs == M.BroadcastAll(old(subs), [M.Vanish(bound, prior), M.AppearNow(Dir(), bound, e)])
    {
      Removed(bound, prior);
      Added(bound, e);
      AnnouncedTwo(old(subs), M.Vanish(bound, prior), M.AppearNow(Dir(), bound, e));
    }

    /** Exchange two endpoints of one table and publish the result. */
    method Swap(scope: Scope, prior: EndpointAddr, bound: SocketAddr, e: EndpointAddr)
      requires Valid() && Locate(prior) == Some((scope, bound)) && Locate(e).None?
      modifies this`inner, this`outer, this`ddns, this`mdns
      ensures Valid() && Dir() == M.WithEntry(M.WithoutEntry(old(Dir()), prior), prior !in old(inner), e, bound)
    {
      Take(scope, prior);
      if scope == External { outer := outer[e := bound]; } else { inner := inner[e := bound]; }
      assert Dir() == M.WithEntry(M.WithoutEntry(old(Dir()), prior), prior !in old(inner), e, bound);
      SwapTouches(old(inner), prior, e, bound);
      Publish(scope, bound, old(inner), old(mdns));
    }

    method BoundEndpoints(bound: SocketAddr) returns (es: seq<EndpointAddr>)
      requires Valid()
      ensures M.ListsBound(es, Dir(), bound) && Sorting.Ascending(es, EndpointKey)
    {
      KeysInjective();
      var found := (set e | e in inner && inner[e] == bound) + (set e | e in outer && outer[e] == bound);
      es := Sorting.Sort(found, EndpointKey);
    }

    /** All endpoints go in ascending order, each announced, and the binding last. */
    method RemoveBound(bound: SocketAddr) returns (removed: seq<EndpointAddr>)
      requires Valid()
      modifies this
      ensures Valid() && M.ListsBound(removed, old(Dir()), bound) && Sorting.Ascending(removed, EndpointKey)
      ensures View() == M.RemoveBound(old(View()), bound, removed)
    {
      removed := BoundEndpoints(bound);
      var innerChanged, outerChanged := bound in inner.Values, bound in outer.Values;
      inner, outer := M.Without(inner, bound), M.Without(outer, bound);
      natTypes, interfaces := natTypes - {bound}, interfaces - {bound};
      WithoutTouches(old(inner), bound);
      WithoutTouches(old(outer), bound);
      if innerChanged {
        PublishInner(bound);
        OthersStay(old(mdns), mdns, old(inner), inner, bound);
      }
      if outerChanged { PublishOuter(); }
      VanishEach(bound, removed);
      Announce(M.Unbind(bound));
      assert (M.Vanishes(bound, removed) + [M.Unbind(bound)])[..|removed|] == M.Vanishes(bound, removed);
    }

    method VanishEach(bound: SocketAddr, es: seq<EndpointAddr>)
      modifies this`subs
      ensures subs == M.BroadcastAll(old(subs), M.Vanishes(bound, es))
    {
      for i := 0 to |es|
        invariant subs == M.BroadcastAll(old(subs), M.Vanishes(bound, es[..i]))
      {
        assert M.Vanishes(bound, es[..i + 1])[..i] == M.Vanishes(bound, es[..i]);
        Announce(M.Vanish(bound, es[i]));
      }
      assert es[..|es|] == es;
    }

    method SetNat(bound: SocketAddr, natType: NatType) returns (changed: bool, es: seq<EndpointAddr>)
      requires Valid()
      modifies this
      ensures Valid() && M.ListsBound(es, old(Dir()), bound) && View() == M.SetNat(old(View()), bound, natType, es)
      ensures changed <==> !(bound in old(natTypes) && old(natTypes)[bound] == natType)
    {
      es := BoundEndpoints(bound);
      if bound in natTypes && natTypes[bound] == natType { return false, es; }
      natTypes := natTypes[bound := natType];
      assert Dir() == M.Classify(old(Dir()), bound, natType);
      AppearEach(bound, es, natType);
      changed := true;
    }

    method AppearEach(bound: SocketAddr, es: seq<EndpointAddr>, natType: NatType)
      modifies this`subs
      ensures subs == M.BroadcastAll(old(subs), M.Reclassified(bound, es, natType))
    {
      assert es[..0] == [];
      for i := 0 to |es|
        invariant subs == M.BroadcastAll(old(subs), M.Reclassified(bound, es[..i], natType))
      {
        ghost var cs := M.Reclassified(bound, es[..i], natType);
        assert es[..i + 1][..i] == es[..i];
        if ScopeOf(es[i]) == Some(External) {
          assert (cs + [M.Appear(bound, es[i], Some(natType))])[..|cs|] == cs;
          Announce(M.Appear(bound, es[i], Some(natType)));
        } else {
          assert cs + [] == cs;
        }
      }
      assert es[..|es|] == es;
    }

    method ScopeEntries(scopes: set<Scope>) returns (entries: seq<(SocketAddr, EndpointAddr)>)
      requires Valid()
      ensures M.ListsScope(entries, Dir(), scopes) && Sorting.Ascending(entries, EntryKey)
    {
      KeysInjective();
      var found := (set e | e in inner && M.InScope(e, scopes) :: (inner[e], e)) + (set e | e in outer && M.InScope(e, scopes) :: (outer[e], e));
      entries := Sorting.Sort(found, EntryKey);
      SortedListsScope(entries, found, scopes);
    }

    method Replayed(scopes: set<Scope>, entries: seq<(SocketAddr, EndpointAddr)>) returns (subscriber: M.Subscriber)
      ensures subscriber == M.NewSubscriber(Dir(), scopes, entries)
    {
      subscriber := M.Subscriber(scopes, {}, [], false);
      for i := 0 to |entries|
        invariant subscriber == M.NewSubscriber(Dir(), scopes, entries[..i])
      {
        assert M.Replay(Dir(), entries[..i + 1])[..i] == M.Replay(Dir(), entries[..i]);
        var (bound, e) := entries[i];
        subscriber := M.Receive(subscriber, M.AppearNow(Dir(), bound, e));
      }
      assert entries[..|entries|] == entries;
    }

    /** Replay in order of binding and endpoint, prune, then join the list. */
    method SubscribePunch(scopes: set<Scope>) returns (entries: seq<(SocketAddr, EndpointAddr)>)
      requires Valid()
      modifies this`subs
      ensures Valid() && M.ListsScope(entries, Dir(), scopes) && Sorting.Ascending(entries, EntryKey)
      ensures View() == M.SubscribePunch(old(View()), scopes, entries)
    {
      entries := ScopeEntries(scopes);
      var subscriber := Replayed(scopes, entries);
      Prune();
      subs := subs + [subscriber];
    }

    method Prune()
      modifies this`subs
      ensures subs == M.Open(old(subs))
    {
      var kept: seq<M.Subscriber> := [];
      assert subs[..0] == [];
      for i := 0 to |subs|
        invariant subs == old(subs) && kept == M.Open(subs[..i])
      {
        assert subs[..i + 1][..i] == subs[..i];
        if !subs[i].closed { kept := kept + [subs[i]]; }
      }
      assert subs[..|subs|] == subs;
      subs := kept;
    }

    lemma SortedListsScope(sorted: seq<(SocketAddr, EndpointAddr)>, found: set<(SocketAddr, EndpointAddr)>, scopes: set<Scope>)
      requires M.Disjoint(Dir()) && Sorting.Lists(sorted, found)
      requires found == (set e | e in inner && M.InScope(e, scopes) :: (inner[e], e))
                        + (set e | e in outer && M.InScope(e, scopes) :: (outer[e], e))
      ensures M.ListsScope(sorted, Dir(), scopes)
    {
      forall i | 0 <= i < |sorted| ensures M.Locate(Dir(), sorted[i].1) == Some(sorted[i].0) && M.InScope(sorted[i].1, scopes) {
        assert sorted[i] in found;
      }
      forall e | M.Locate(Dir(), e).Some? && M.InScope(e, scopes) ensures (M.Locate(Dir(), e).value, e) in sorted {
        assert (M.Locate(Dir(), e).value, e) in found;
      }
    }

    method SubscribeMdns(bound: SocketAddr) returns (current: seq<EndpointAddr>)
      requires Valid()
      modifies this`mdns
      ensures Valid() && View() == old(View()) && Snapshot(current, inner, Some(bound)) && bound in mdns && mdns[bound] == current
    {
      if bound !in mdns {
        var r := MdnsSnapshot(bound);
        mdns := mdns[bound := r];
        assert forall b :: b != bound ==> MdnsCurrent(old(mdns), inner, b) ==> MdnsCurrent(mdns, inner, b);
      }
      assert MdnsCurrent(mdns, inner, bound);
      current := mdns[bound];
    }
  }

  /** The tables differ only in endpoints that belong to `bound` in the table that has them. */
  ghost predicate OnlyTouches(was: Table, now: Table, bound: SocketAddr) {
    forall e :: (e in was && (was[e] != bound) ==> e in now && now[e] == was[e]) && (e in now && now[e] != bound ==> e in was && was[e] == now[e])
  }

  lemma SwapTouches(was: Table, prior: EndpointAddr, e: EndpointAddr, bound: SocketAddr)
    requires e !in was
    ensures prior in was && was[prior] == bound ==> OnlyTouches(was, (was - {prior})[e := bound], bound)
  {
  }

  lemma WithoutTouches(m: Table, bound: SocketAddr)
    ensures OnlyTouches(m, M.Without(m, bound), bound)
    ensures bound !in m.Values ==> M.Without(m, bound) == m
  {
    if bound !in m.Values {
      assert forall e :: e in m ==> m[e] in m.Values;
    }
  }

  lemma OthersStay(before: map<SocketAddr, seq<EndpointAddr>>, after: map<SocketAddr, seq<EndpointAddr>>, was: Table, now: Table, bound: SocketAddr)
    requires OnlyTouches(was, now, bound) && MdnsCurrent(after, now, bound)
    requires after.Keys == before.Keys && forall b :: b in after && b != bound ==> after[b] == before[b]
    requires forall b :: MdnsCurrent(before, was, b)
    ensures forall b :: MdnsCurrent(after, now, b)
  {
    forall b ensures MdnsCurrent(after, now, b) {
      assert MdnsCurrent(before, was, b);
    }
  }

  lemma AnnouncedOne(subs: seq<M.Subscriber>, c: M.Change)
    ensures M.BroadcastAll(subs, [c]) == M.Broadcast(subs, c)
  {
    assert [c][..0] == [];
  }

  lemma AnnouncedTwo(subs: seq<M.Subscriber>, c: M.Change, d: M.Change)
    ensures M.BroadcastAll(subs, [c, d]) == M.BroadcastAll(M.BroadcastAll(subs, [c]), [d])
  {
    assert [c, d][..1] == [c];
    AnnouncedOne(M.BroadcastAll(subs, [c]), d);
  }
}
