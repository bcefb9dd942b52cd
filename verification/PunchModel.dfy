/**
 The addresses one connection advertises to its peer, driven by the events of an address book
 subscription, and the table the peer builds from the frames.
 */
module PunchModel {
  import opened Basics
  import opened Endpoints
  import opened AddressBookModel

  datatype AddAddress = AddAddress(seqNum: nat, address: SocketAddr, tire: nat, natType: NatType)

  /** The reliable frames, in the order they are handed over for sending. */
  datatype Wire = Add(frame: AddAddress) | Drop(seqNum: nat)

  datatype LocalAddress = LocalAddress(bound: SocketAddr, endpoint: EndpointAddr, frame: AddAddress)

  datatype Punch = Punch(local: map<nat, LocalAddress>, next: nat, sent: seq<Wire>)

  function New(): Punch { Punch(map[], 0, []) }

  function AddLocal(p: Punch, bound: SocketAddr, e: EndpointAddr, outer: SocketAddr, tire: nat, natType: NatType): Punch {
    var frame := AddAddress(p.next, outer, tire, natType);
    Punch(p.local[p.next := LocalAddress(bound, e, frame)], p.next + 1, p.sent + [Add(frame)])
  }

  predicate Advertises(p: Punch, s: nat, e: EndpointAddr) { s in p.local && p.local[s].endpoint == e }

  function Drops(ss: seq<nat>): seq<Wire> { seq(|ss|, i requires 0 <= i < |ss| => Drop(ss[i])) }

  function Withdraw(p: Punch, ss: seq<nat>): Punch {
    p.(local := map s | s in p.local && s !in ss :: p.local[s], sent := p.sent + Drops(ss))
  }

  /** The advertisement of `e`, if there is one; `Unique` says there is no second. */
  ghost function SeqsOf(p: Punch, e: EndpointAddr): (ss: seq<nat>)
    ensures forall s :: s in ss ==> Advertises(p, s, e)
  {
    if s :| Advertises(p, s, e) then [s] else []
  }

  ghost function RemoveLocal(p: Punch, e: EndpointAddr): Punch { Withdraw(p, SeqsOf(p, e)) }

  ghost function Apply(p: Punch, event: AddressEvent): Punch {
    match event
    case Added(bound, e, natType) => AddLocal(RemoveLocal(p, e), bound, e, e.Addr(), 0, natType)
    case Removed(_, e) => RemoveLocal(p, e)
    case BoundRemoved(_) => p
  }

  ghost function ApplyAll(events: seq<AddressEvent>): Punch {
    if events == [] then New() else Apply(ApplyAll(events[..|events| - 1]), events[|events| - 1])
  }

  // ---------------------------------------------------------------- the peer's table

  /** What the peer holds for sequence `s` after receiving `ws`; a second ADD is ignored. */
  function PeerAt(ws: seq<Wire>, s: nat): Option<AddAddress> {
    if ws == [] then None
    else
      var before := PeerAt(ws[..|ws| - 1], s);
      match ws[|ws| - 1]
      case Add(frame) => if frame.seqNum == s && before.None? then Some(frame) else before
      case Drop(n) => if n == s then None else before
  }

  predicate IsAdd(w: Wire, s: nat) { w.Add? && w.frame.seqNum == s }

  function AddCount(ws: seq<Wire>, s: nat): nat {
    if ws == [] then 0 else AddCount(ws[..|ws| - 1], s) + if IsAdd(ws[|ws| - 1], s) then 1 else 0
  }

  function DropCount(ws: seq<Wire>, s: nat): nat {
    if ws == [] then 0 else DropCount(ws[..|ws| - 1], s) + if ws[|ws| - 1] == Drop(s) then 1 else 0
  }

  // ---------------------------------------------------------------- the invariant

  function LocalFrame(p: Punch, s: nat): Option<AddAddress> { if s in p.local then Some(p.local[s].frame) else None }

  /** Sequence `s` was advertised once if it is below the counter, and withdrawn once if it is gone since. */
  predicate Accounted(p: Punch, s: nat) {
    && (s in p.local ==> s < p.next && p.local[s].frame.seqNum == s)
    && AddCount(p.sent, s) == (if s < p.next then 1 else 0)
    && DropCount(p.sent, s) == (if s < p.next && s !in p.local then 1 else 0)
    && PeerAt(p.sent, s) == LocalFrame(p, s)
  }

  predicate UniquePair(p: Punch, s: nat, t: nat) { s in p.local && t in p.local && s != t ==> p.local[s].endpoint != p.local[t].endpoint }

  ghost predicate Inv(p: Punch) { (forall s: nat :: Accounted(p, s)) && forall s: nat, t: nat :: UniquePair(p, s, t) }

  /** Exactly one advertisement of `e` if it is known, carrying what is known; none otherwise. */
  ghost predicate Mirrors(p: Punch, e: EndpointAddr, k: Known) {
    match k
    case None => forall s: nat :: !Advertises(p, s, e)
    case Some((bound, natType)) =>
      && (exists s: nat :: Advertises(p, s, e))
      && (forall s: nat :: Advertises(p, s, e) ==> p.local[s] == LocalAddress(bound, e, AddAddress(s, e.Addr(), 0, natType)))
  }

  lemma PeerPush(ws: seq<Wire>, w: Wire, s: nat)
    ensures AddCount(ws + [w], s) == AddCount(ws, s) + if IsAdd(w, s) then 1 else 0
    ensures DropCount(ws + [w], s) == DropCount(ws, s) + if w == Drop(s) then 1 else 0
    ensures PeerAt(ws + [w], s) ==
            match w
            case Add(frame) => if frame.seqNum == s && PeerAt(ws, s).None? then Some(frame) else PeerAt(ws, s)
            case Drop(n) => if n == s then None else PeerAt(ws, s)
  {
    assert (ws + [w])[..|ws|] == ws;
  }

  lemma AddKeepsInv(p: Punch, bound: SocketAddr, e: EndpointAddr, outer: SocketAddr, tire: nat, natType: NatType)
    requires Inv(p) && forall s: nat :: !Advertises(p, s, e)
    ensures Inv(AddLocal(p, bound, e, outer, tire, natType))
  {
    var next := AddLocal(p, bound, e, outer, tire, natType);
    forall s: nat ensures Accounted(next, s) {
      assert Accounted(p, s);
      PeerPush(p.sent, Add(AddAddress(p.next, outer, tire, natType)), s);
    }
    forall s: nat, t: nat ensures UniquePair(next, s, t) {
      assert UniquePair(p, s, t) && !Advertises(p, s, e) && !Advertises(p, t, e) && Accounted(p, s) && Accounted(p, t);
    }
  }

  lemma RemoveKeepsInv(p: Punch, e: EndpointAddr)
    requires Inv(p)
    ensures Inv(RemoveLocal(p, e))
    ensures forall s: nat :: !Advertises(RemoveLocal(p, e), s, e)
    ensures forall s: nat, x :: x != e ==> (Advertises(RemoveLocal(p, e), s, x) <==> Advertises(p, s, x))
  {
    var ss, next := SeqsOf(p, e), RemoveLocal(p, e);
    forall s: nat ensures Accounted(next, s) {
      assert Accounted(p, s);
      if ss != [] {
        assert ss[0] in ss && Accounted(p, ss[0]);
        assert Drops(ss) == [Drop(ss[0])];
        PeerPush(p.sent, Drop(ss[0]), s);
      } else {
        assert p.sent + Drops(ss) == p.sent;
      }
    }
    forall s: nat ensures !Advertises(next, s, e) {
      if Advertises(p, s, e) { assert UniquePair(p, s, ss[0]); }
    }
    forall s: nat, t: nat ensures UniquePair(next, s, t) { assert UniquePair(p, s, t); }
  }

  lemma ApplyKeeps(p: Punch, event: AddressEvent, e: EndpointAddr, k: Known)
    requires Inv(p) && Mirrors(p, e, k)
    ensures Inv(Apply(p, event)) && Mirrors(Apply(p, event), e, FoldOne(k, event, e))
  {
    match event
    case BoundRemoved(_) =>
    case Removed(_, x) => RemoveMirrors(p, x, e, k);
    case Added(bound, x, natType) =>
      RemoveMirrors(p, x, e, k);
      var gone := RemoveLocal(p, x);
      RemoveKeepsInv(p, x);
      AddKeepsInv(gone, bound, x, x.Addr(), 0, natType);
      AddMirrors(gone, bound, x, natType, e, if x == e then None else k);
  }

  lemma RemoveMirrors(p: Punch, x: EndpointAddr, e: EndpointAddr, k: Known)
    requires Inv(p) && Mirrors(p, e, k)
    ensures Inv(RemoveLocal(p, x)) && Mirrors(RemoveLocal(p, x), e, if x == e then None else k)
  {
    RemoveKeepsInv(p, x);
    var next := RemoveLocal(p, x);
    if x != e && k.Some? {
      var s: nat :| Advertises(p, s, e);
      assert Advertises(next, s, e);
    }
  }

  lemma AddMirrors(p: Punch, bound: SocketAddr, x: EndpointAddr, natType: NatType, e: EndpointAddr, k: Known)
    requires Inv(p) && Mirrors(p, e, k) && (x == e ==> k.None?)
    ensures Mirrors(AddLocal(p, bound, x, x.Addr(), 0, natType), e, if x == e then Some((bound, natType)) else k)
  {
    var next := AddLocal(p, bound, x, x.Addr(), 0, natType);
    assert Accounted(p, p.next);
    if x == e {
      assert Advertises(next, p.next, e);
    } else if k.Some? {
      var s: nat :| Advertises(p, s, e);
      assert Advertises(next, s, e);
    }
    forall s: nat | Advertises(next, s, e) ensures s == p.next || Advertises(p, s, e) {
    }
  }

  /**
   After any events: exactly one advertisement for each endpoint the events leave known, none for any
   other, and every sequence number below the counter used exactly once.
   */
  lemma {:induction false} LocalMirrorsEvents(events: seq<AddressEvent>, e: EndpointAddr)
    ensures Inv(ApplyAll(events)) && Mirrors(ApplyAll(events), e, Fold(events, e))
    decreases |events|
  {
    if events != [] {
      var n := |events| - 1;
      LocalMirrorsEvents(events[..n], e);
      ApplyKeeps(ApplyAll(events[..n]), events[n], e, Fold(events[..n], e));
    }
  }

  /** Sequence numbers count the Added events, so they fit a u32 as long as those do. */
  lemma {:induction false} CounterCountsAdded(events: seq<AddressEvent>)
    ensures ApplyAll(events).next == AddedCount(events)
    decreases |events|
  {
    if events != [] { CounterCountsAdded(events[..|events| - 1]); }
  }

  function AddedCount(events: seq<AddressEvent>): nat {
    if events == [] then 0 else AddedCount(events[..|events| - 1]) + if events[|events| - 1].Added? then 1 else 0
  }

  // ---------------------------------------------------------------- delivery

  /** A peer that receives the frames in the order they were sent holds exactly the advertised frames. */
  lemma PeerHoldsLocal(events: seq<AddressEvent>, s: nat)
    ensures PeerAt(ApplyAll(events).sent, s) == LocalFrame(ApplyAll(events), s)
  {
    var e: EndpointAddr :| true;
    LocalMirrorsEvents(events, e);
    assert Accounted(ApplyAll(events), s);
  }

  /** Every frame of `sent` arrived at least once, in any order, and nothing else did. */
  ghost predicate Delivers(ws: seq<Wire>, sent: seq<Wire>) {
    && (forall i :: 0 <= i < |sent| ==> sent[i] in ws)
    && (forall i :: 0 <= i < |ws| ==> ws[i] in sent)
  }

  /** The last frame about `s` to arrive is an advertisement. */
  predicate LastIsAdd(ws: seq<Wire>, s: nat) {
    ws != [] && (IsAdd(ws[|ws| - 1], s) || (ws[|ws| - 1] != Drop(s) && LastIsAdd(ws[..|ws| - 1], s)))
  }

  /** A withdrawal of `s` arrived, and after the last of them an advertisement: late, or repeated. */
  predicate Overtaken(ws: seq<Wire>, s: nat) { Drop(s) in ws && LastIsAdd(ws, s) }

  /** The peer holds something under `s` exactly if the last frame about it advertised, and then what was advertised. */
  lemma {:induction false} LastFrameDecides(ws: seq<Wire>, s: nat)
    ensures PeerAt(ws, s).Some? <==> LastIsAdd(ws, s)
    ensures PeerAt(ws, s).Some? ==> Add(PeerAt(ws, s).value) in ws && PeerAt(ws, s).value.seqNum == s
    decreases |ws|
  {
    if ws != [] { LastFrameDecides(ws[..|ws| - 1], s); }
  }

  lemma {:induction false} NoFrameNoAdd(ws: seq<Wire>, s: nat)
    ensures Drop(s) !in ws && (exists i :: 0 <= i < |ws| && IsAdd(ws[i], s)) ==> LastIsAdd(ws, s)
    ensures LastIsAdd(ws, s) ==> exists i :: 0 <= i < |ws| && IsAdd(ws[i], s)
    decreases |ws|
  {
    if ws != [] {
      var n := |ws| - 1;
      NoFrameNoAdd(ws[..n], s);
      if i :| 0 <= i < |ws| && IsAdd(ws[i], s) {
        if i < n { assert ws[..n][i] == ws[i]; }
      }
      if LastIsAdd(ws[..n], s) {
        var i :| 0 <= i < |ws[..n]| && IsAdd(ws[..n][i], s);
        assert IsAdd(ws[i], s);
      }
    }
  }

  lemma {:induction false} AddIsUnique(ws: seq<Wire>, s: nat, i: nat, j: nat)
    requires AddCount(ws, s) <= 1 && i < |ws| && j < |ws| && IsAdd(ws[i], s) && IsAdd(ws[j], s)
    ensures i == j
    decreases |ws|
  {
    var n := |ws| - 1;
    if i < n && j < n {
      AddIsUnique(ws[..n], s, i, j);
    } else if i != j {
      AddCounted(ws[..n], s, if i < n then i else j);
    }
  }

  lemma {:induction false} AddCounted(ws: seq<Wire>, s: nat, i: nat)
    requires i < |ws| && IsAdd(ws[i], s)
    ensures AddCount(ws, s) >= 1
    decreases |ws|
  {
    if i < |ws| - 1 { AddCounted(ws[..|ws| - 1], s, i); }
  }

  lemma {:induction false} DropCounted(ws: seq<Wire>, s: nat)
    ensures DropCount(ws, s) > 0 <==> Drop(s) in ws
    decreases |ws|
  {
    if ws != [] {
      DropCounted(ws[..|ws| - 1], s);
      assert ws == ws[..|ws| - 1] + [ws[|ws| - 1]];
    }
  }

  /** Two advertisements of one number are the same frame, also when one comes from a delivery. */
  lemma SameAdvertisement(sent: seq<Wire>, s: nat, a: AddAddress, b: AddAddress)
    requires AddCount(sent, s) <= 1 && Add(a) in sent && Add(b) in sent && a.seqNum == s == b.seqNum
    ensures a == b
  {
    var i :| 0 <= i < |sent| && sent[i] == Add(a);
    var j :| 0 <= j < |sent| && sent[j] == Add(b);
    AddIsUnique(sent, s, i, j);
  }

  /**
   Delivered at least once and in any order, the peer agrees on `s` if and only if no advertisement of
   `s`, late or repeated, arrived after the last withdrawal of `s`.
   */
  lemma PeerAgreesIff(p: Punch, ws: seq<Wire>, s: nat)
    requires Inv(p) && Delivers(ws, p.sent)
    ensures PeerAt(ws, s) == LocalFrame(p, s) <==> !Overtaken(ws, s)
  {
    assert Accounted(p, s);
    DropCounted(p.sent, s);
    LastFrameDecides(p.sent, s);
    LastFrameDecides(ws, s);
    NoFrameNoAdd(ws, s);
    assert Drop(s) in ws <==> Drop(s) in p.sent;
    if s in p.local {
      var a := PeerAt(p.sent, s).value;
      assert Add(a) in ws;
      SameAdvertisement(p.sent, s, a, PeerAt(ws, s).value);
    } else if LastIsAdd(ws, s) {
      NotAdvertisedNotDelivered(p, ws, s);
    }
  }

  /** Only numbers below the counter are ever advertised. */
  lemma NotAdvertisedNotDelivered(p: Punch, ws: seq<Wire>, s: nat)
    requires Accounted(p, s) && Delivers(ws, p.sent) && LastIsAdd(ws, s)
    ensures s < p.next
  {
    LastFrameDecides(ws, s);
    var i :| 0 <= i < |p.sent| && p.sent[i] == Add(PeerAt(ws, s).value);
    AddCounted(p.sent, s, i);
  }

  lemma FreshlyAdded(bound: SocketAddr, e: EndpointAddr, natType: NatType)
    ensures var ad := AddAddress(0, e.Addr(), 0, natType);
            ApplyAll([Added(bound, e, natType)]) == Punch(map[0 := LocalAddress(bound, e, ad)], 1, [Add(ad)])
  {
    assert [Added(bound, e, natType)][..0] == [];
    assert SeqsOf(New(), e) == [] && RemoveLocal(New(), e) == New();
  }

  /** A repeated ADD after its REMOVE is enough to revive the address at the peer. */
  lemma RepeatRevives(bound: SocketAddr, e: EndpointAddr, natType: NatType)
    ensures var p, ad := ApplyAll([Added(bound, e, natType), Removed(bound, e)]), AddAddress(0, e.Addr(), 0, natType);
            && p.sent == [Add(ad), Drop(0)] && Delivers([Add(ad), Drop(0), Add(ad)], p.sent)
            && LocalFrame(p, 0).None? && PeerAt([Add(ad), Drop(0), Add(ad)], 0) == Some(ad)
  {
    var events, ad := [Added(bound, e, natType), Removed(bound, e)], AddAddress(0, e.Addr(), 0, natType);
    assert events[..1] == [Added(bound, e, natType)];
    FreshlyAdded(bound, e, natType);
    var q := Punch(map[0 := LocalAddress(bound, e, ad)], 1, [Add(ad)]);
    assert Advertises(q, 0, e);
    assert SeqsOf(q, e) == [0];
    assert Drops([0]) == [Drop(0)];
    LastFrameDecides([Add(ad), Drop(0), Add(ad)], 0);
  }
}
