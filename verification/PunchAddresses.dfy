/** The advertisement state of one connection and the loop that feeds it from a subscription. */
module PunchAddresses {
  import opened Basics
  import opened Endpoints
  import A = AddressBookModel
  import M = PunchModel

  const MAX_SEQ: nat := 0xffff_ffff

  /** The numbers under which an endpoint is advertised. */
  function Advertised(local: map<nat, M.LocalAddress>, e: EndpointAddr): set<nat> { set s | s in local && local[s].endpoint == e }

  class PunchAddresses {
    var local: map<nat, M.LocalAddress>
    var remote: map<nat, M.AddAddress>
    var nextLocalSeq: nat
    var sent: seq<M.Wire>
    ghost var seen: seq<A.AddressEvent>
    ghost var received: seq<M.Wire>

    ghost function View(): M.Punch
      reads this
    {
      M.Punch(local, nextLocalSeq, sent)
    }

    function RemoteAt(s: nat): Option<M.AddAddress>
      reads this
    {
      if s in remote then Some(remote[s]) else None
    }

    /** The local side is what the events make it, the remote side what the peer's frames make it. */
    ghost predicate Valid()
      reads this
    {
      View() == M.ApplyAll(seen) && forall s: nat :: RemoteAt(s) == M.PeerAt(received, s)
    }

    constructor ()
      ensures Valid() && seen == [] && received == []
    {
      local, remote, nextLocalSeq, sent, seen, received := map[], map[], 0, [], [], [];
    }

    method AddLocal(bound: SocketAddr, e: EndpointAddr, outer: SocketAddr, tire: nat, natType: NatType)
      requires nextLocalSeq < MAX_SEQ
      modifies this`local, this`nextLocalSeq, this`sent
      ensures View() == M.AddLocal(old(View()), bound, e, outer, tire, natType)
    {
      var s := nextLocalSeq;
      nextLocalSeq := nextLocalSeq + 1;
      var frame := M.AddAddress(s, outer, tire, natType);
      local := local[s := M.LocalAddress(bound, e, frame)];
      sent := sent + [M.Add(frame)];
    }

    /** All advertisements of the endpoint are withdrawn, in whatever order the table lists them. */
    method RemoveLocalEndpoint(e: EndpointAddr) returns (removed: seq<nat>)
      modifies this`local, this`sent
      ensures forall s: nat :: s in removed <==> M.Advertises(old(View()), s, e)
      ensures |removed| == |Advertised(old(local), e)|
      ensures View() == M.Withdraw(old(View()), removed)
    {
      var seqs := Advertised(local, e);
      ghost var all := seqs;
      removed := [];
      while seqs != {}
        invariant seqs <= all && forall s :: s in all <==> s in seqs || s in removed
        invariant |removed| + |seqs| == |all|
        decreases |seqs|
      {
        var s :| s in seqs;
        removed, seqs := removed + [s], seqs - {s};
      }
      sent := sent + M.Drops(removed);
      local := map s | s in local && s !in removed :: local[s];
    }

    /** On the states that events lead to there is at most one to withdraw. */
    method Withdraw(e: EndpointAddr)
      requires M.Inv(View())
      modifies this`local, this`sent
      ensures View() == M.RemoveLocal(old(View()), e)
    {
      ghost var before := View();
      var removed := RemoveLocalEndpoint(e);
      OnlyOne(before, e, removed);
    }

    method Apply(event: A.AddressEvent)
      requires Valid() && (event.Added? ==> nextLocalSeq < MAX_SEQ)
      modifies this`local, this`nextLocalSeq, this`sent, this`seen
      ensures Valid() && seen == old(seen) + [event]
    {
      ghost var before := View();
      var e: EndpointAddr := if event.BoundRemoved? then Direct(event.bound) else event.endpoint;
      M.LocalMirrorsEvents(seen, e);
      match event {
        case Added(bound, endpoint, natType) =>
          Withdraw(endpoint);
          AddLocal(bound, endpoint, endpoint.Addr(), 0, natType);
        case Removed(_, endpoint) => Withdraw(endpoint);
        case BoundRemoved(_) =>
      }
      seen := seen + [event];
      assert seen[..|seen| - 1] == old(seen);
    }

    /** Work off a queue of events, as long as the sequence numbers last. */
    method Drain(events: seq<A.AddressEvent>)
      requires Valid() && nextLocalSeq + M.AddedCount(events) <= MAX_SEQ
      modifies this`local, this`nextLocalSeq, this`sent, this`seen
      ensures Valid() && seen == old(seen) + events
    {
      assert events[..|events|] == events;
      for i := 0 to |events|
        invariant Valid() && seen == old(seen) + events[..i]
        invariant nextLocalSeq == old(nextLocalSeq) + M.AddedCount(events[..i])
      {
        assert events[..i + 1][..i] == events[..i];
        AddedCountPrefix(events, i + 1);
        CounterSteps(seen, events[i]);
        Apply(events[i]);
      }
    }

    method AddRemote(frame: M.AddAddress) returns (added: bool)
      requires Valid()
      modifies this`remote, this`received
      ensures Valid() && received == old(received) + [M.Add(frame)]
      ensures added <==> frame.seqNum !in old(remote)
    {
      received := received + [M.Add(frame)];
      forall s: nat ensures M.PeerAt(received, s) == if s == frame.seqNum && M.PeerAt(old(received), s).None? then Some(frame) else M.PeerAt(old(received), s) {
        M.PeerPush(old(received), M.Add(frame), s);
      }
      added := frame.seqNum !in remote;
      assert old(RemoteAt(frame.seqNum)) == M.PeerAt(old(received), frame.seqNum);
      if added { remote := remote[frame.seqNum := frame]; }
      assert forall s: nat :: s != frame.seqNum ==> RemoteAt(s) == old(RemoteAt(s));
    }

    method RemoveRemote(n: nat) returns (frame: Option<M.AddAddress>)
      requires Valid()
      modifies this`remote, this`received
      ensures Valid() && received == old(received) + [M.Drop(n)] && frame == old(RemoteAt(n))
    {
      received := received + [M.Drop(n)];
      forall s: nat ensures M.PeerAt(received, s) == if s == n then None else M.PeerAt(old(received), s) {
        M.PeerPush(old(received), M.Drop(n), s);
      }
      frame := RemoteAt(n);
      remote := remote - {n};
      assert forall s: nat :: s != n ==> RemoteAt(s) == old(RemoteAt(s));
    }
  }

  lemma OnlyOne(p: M.Punch, e: EndpointAddr, removed: seq<nat>)
    requires M.Inv(p) && forall s: nat :: s in removed <==> M.Advertises(p, s, e)
    requires |removed| == |Advertised(p.local, e)|
    ensures removed == M.SeqsOf(p, e)
  {
    var all, model := Advertised(p.local, e), M.SeqsOf(p, e);
    assert forall s: nat :: s in all <==> M.Advertises(p, s, e);
    if model == [] {
      assert all == {};
    } else {
      assert model[0] in model && M.Advertises(p, model[0], e);
      forall s: nat | s in all ensures s == model[0] { assert M.UniquePair(p, s, model[0]); }
      assert all == {model[0]};
      assert removed[0] in removed;
    }
  }

  lemma {:induction false} AddedCountPrefix(events: seq<A.AddressEvent>, i: nat)
    requires i <= |events|
    ensures M.AddedCount(events[..i]) <= M.AddedCount(events)
    decreases |events|
  {
    if i == |events| {
      assert events[..i] == events;
    } else {
      assert events[..|events| - 1][..i] == events[..i];
      AddedCountPrefix(events[..|events| - 1], i);
    }
  }

  lemma CounterSteps(seen: seq<A.AddressEvent>, event: A.AddressEvent)
    ensures M.ApplyAll(seen + [event]).next == M.ApplyAll(seen).next + if event.Added? then 1 else 0
  {
    assert (seen + [event])[..|seen|] == seen;
  }
}
