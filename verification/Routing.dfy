/** The routing table that all connections share, and which connection each route belongs to. */
module Routing {
  import opened Basics
  import L = LocalCidModel

  /** A route maps a connection ID to the inbox of a connection; inboxes are connection numbers. */
  type Table = map<ConnectionId, nat>

  /** Claim a vacant route, as `try_insert` and `gen_unique_cid` do. */
  function Claim(table: Table, cid: ConnectionId, inbox: nat): Table
    requires cid !in table
  {
    table[cid := inbox]
  }

  /** Remove a route only if it still leads to this inbox. */
  function RetireRoute(table: Table, cid: ConnectionId, inbox: nat): Table {
    if cid in table && table[cid] == inbox then table - {cid} else table
  }

  function Names(batch: seq<L.Issued>): seq<ConnectionId> {
    seq(|batch|, i requires 0 <= i < |batch| => batch[i].cid)
  }

  function ClaimAll(table: Table, cids: seq<ConnectionId>, inbox: nat): Table {
    if cids == [] then table else ClaimAll(table, cids[..|cids| - 1], inbox)[cids[|cids| - 1] := inbox]
  }

  function RetireAll(table: Table, cids: seq<ConnectionId>, inbox: nat): Table {
    if cids == [] then table else RetireRoute(RetireAll(table, cids[..|cids| - 1], inbox), cids[|cids| - 1], inbox)
  }

  /** The connection IDs still in the window, oldest first. */
  function Remaining(items: seq<Option<L.Issued>>): seq<ConnectionId> {
    if items == [] then []
    else
      var n := |items| - 1;
      Remaining(items[..n]) + match items[n] case None => [] case Some(issued) => [issued.cid]
  }

  // ---------------------------------------------------------------- connections

  /** How far a connection got; each phase holds certain routes. */
  datatype Conn =
    | Connecting(scid: ConnectionId)
    | Abandoned(scid: ConnectionId)
    | Accepting(odcid: ConnectionId)
    | Accepted(odcid: ConnectionId, scid: ConnectionId)
    | Managed(local: L.Local, odcidRouted: bool)

  datatype System = System(table: Table, conns: seq<Conn>)

  predicate HasCid(local: L.Local, s: nat, cid: ConnectionId) {
    L.IsActive(local, s) && local.cids.Get(s).value.value.cid == cid
  }

  ghost predicate ActiveCid(local: L.Local, cid: ConnectionId) { exists s: nat :: HasCid(local, s, cid) }

  /** The routes a connection is entitled to. */
  ghost predicate Owns(c: Conn, cid: ConnectionId) {
    match c
    case Connecting(scid) => cid == scid
    case Abandoned(scid) => cid == scid
    case Accepting(odcid) => cid == odcid
    case Accepted(odcid, scid) => cid == odcid || cid == scid
    case Managed(local, odcidRouted) => ActiveCid(local, cid) || (odcidRouted && cid == local.odcid)
  }

  // ---------------------------------------------------------------- steps

  datatype Step =
    | Connect(scid: ConnectionId)
    | ConnectFails(i: nat)
    | ConnectManaged(i: nat, odcid: ConnectionId, next: L.Issued)
    | Accept(odcid: ConnectionId)
    | AcceptScid(i: nat, scid: ConnectionId)
    | AcceptManaged(i: nat, next: L.Issued)
    | SetLimit(i: nat, limit: nat, batch: seq<L.Issued>)
    | RecvRetire(i: nat, s: nat, next: L.Issued)
    | Clear(i: nat)

  /** The table and the connection's new phase; `None` when the step is not enabled. */
  function Effect(sys: System, step: Step): Option<(Table, Conn)> {
    match step
    case Connect(scid) =>
      if scid !in sys.table then Some((Claim(sys.table, scid, |sys.conns|), Connecting(scid))) else None
    case Accept(odcid) =>
      if odcid !in sys.table then Some((Claim(sys.table, odcid, |sys.conns|), Accepting(odcid))) else None
    case _ =>
      if step.i < |sys.conns| then Advance(sys.table, sys.conns[step.i], step) else None
  }

  function Advance(table: Table, conn: Conn, step: Step): Option<(Table, Conn)>
    requires !step.Connect? && !step.Accept?
  {
    match (conn, step)
    case (Connecting(scid), ConnectFails(_)) =>
      Some((table, Abandoned(scid)))
    case (Connecting(scid), ConnectManaged(i, odcid, next)) =>
      if next.cid !in table then
        Some((Claim(table, next.cid, i), Managed(L.New(L.RoleClient, odcid, scid, next), false)))
      else None
    case (Accepting(odcid), AcceptScid(i, scid)) =>
      if scid !in table then Some((Claim(table, scid, i), Accepted(odcid, scid))) else None
    case (Accepted(odcid, scid), AcceptManaged(i, next)) =>
      if next.cid !in table then
        Some((Claim(table, next.cid, i), Managed(L.New(L.RoleServer, odcid, scid, next), true)))
      else None
    case (Managed(local, routed), SetLimit(i, limit, batch)) =>
      if local.limit.None? && |batch| == L.Missing(local, limit) && 2 <= limit <= VARINT_MAX
         && local.cids.Largest() <= VARINT_MAX + 1 && Fresh(table, Names(batch)) then
        Some((ClaimAll(table, Names(batch), i), Managed(L.SetLimit(local, limit, batch).value, routed)))
      else None
    case (Managed(local, routed), RecvRetire(i, s, next)) =>
      if local.cids.Largest() <= VARINT_MAX && L.IsActive(local, s) && next.cid !in table then
        Some((RetireRoute(Claim(table, next.cid, i), local.cids.Get(s).value.value.cid, i),
              Managed(L.RecvRetire(local, s, next).value, routed)))
      else None
    case (Managed(local, routed), Clear(i)) =>
      var drained := RetireAll(table, Remaining(local.cids.items), i);
      Some((if local.role.RoleServer? then RetireRoute(drained, local.odcid, i) else drained,
            Managed(L.Clear(local), false)))
    case _ => None
  }

  predicate Fresh(table: Table, cids: seq<ConnectionId>) {
    && (forall i :: 0 <= i < |cids| ==> cids[i] !in table)
    && (forall i, j :: 0 <= i < j < |cids| ==> cids[i] != cids[j])
  }

  function Next(sys: System, step: Step): System {
    match Effect(sys, step)
    case None => sys
    case Some((table, conn)) =>
      System(table, if step.Connect? || step.Accept? then sys.conns + [conn] else sys.conns[step.i := conn])
  }

  // ---------------------------------------------------------------- agreement

  predicate LeadsTo(table: Table, cid: ConnectionId, i: nat) { cid in table && table[cid] == i }

  /** A connection ID is routed to a connection exactly when that connection is entitled to it. */
  ghost predicate Agreement(sys: System) {
    && (forall cid <- sys.table :: sys.table[cid] < |sys.conns|)
    && (forall i, cid :: 0 <= i < |sys.conns| ==> (LeadsTo(sys.table, cid, i) <==> Owns(sys.conns[i], cid)))
  }

  /** Within one connection no CID is entitled to a route twice. */
  ghost predicate Unambiguous(c: Conn) {
    match c
    case Accepted(odcid, scid) => odcid != scid
    case Managed(local, routed) =>
      && (forall s: nat, t: nat, cid :: HasCid(local, s, cid) && HasCid(local, t, cid) ==> s == t)
      && (routed ==> local.role.RoleServer? && !ActiveCid(local, local.odcid))
    case _ => true
  }

  ghost predicate Inv(sys: System) {
    Agreement(sys) && forall i :: 0 <= i < |sys.conns| ==> Unambiguous(sys.conns[i])
  }

  /** A change on behalf of connection `i` touches no other connection's routes. */
  ghost predicate Undisturbed(before: Table, after: Table, i: nat) {
    forall cid, j: nat :: j != i ==> (LeadsTo(before, cid, j) <==> LeadsTo(after, cid, j))
  }

  ghost predicate OwnAgreement(table: Table, c: Conn, i: nat) {
    Unambiguous(c) && forall cid :: LeadsTo(table, cid, i) <==> Owns(c, cid)
  }

  lemma ClaimUndisturbed(table: Table, cid: ConnectionId, i: nat)
    requires cid !in table
    ensures Undisturbed(table, Claim(table, cid, i), i)
    ensures forall c :: LeadsTo(Claim(table, cid, i), c, i) <==> LeadsTo(table, c, i) || c == cid
  {
  }

  lemma RetireUndisturbed(table: Table, cid: ConnectionId, i: nat)
    ensures Undisturbed(table, RetireRoute(table, cid, i), i)
    ensures forall c :: LeadsTo(RetireRoute(table, cid, i), c, i) <==> LeadsTo(table, c, i) && c != cid
  {
  }

  lemma {:induction false} ClaimAllUndisturbed(table: Table, cids: seq<ConnectionId>, i: nat)
    requires Fresh(table, cids)
    ensures Undisturbed(table, ClaimAll(table, cids, i), i)
    ensures forall c :: LeadsTo(ClaimAll(table, cids, i), c, i) <==> LeadsTo(table, c, i) || c in cids
    ensures forall c :: c in ClaimAll(table, cids, i) <==> c in table || c in cids
    decreases |cids|
  {
    if cids != [] {
      var n := |cids| - 1;
      assert cids == cids[..n] + [cids[n]];
      ClaimAllUndisturbed(table, cids[..n], i);
      ClaimUndisturbed(ClaimAll(table, cids[..n], i), cids[n], i);
    }
  }

  lemma {:induction false} RetireAllUndisturbed(table: Table, cids: seq<ConnectionId>, i: nat)
    ensures Undisturbed(table, RetireAll(table, cids, i), i)
    ensures forall c :: LeadsTo(RetireAll(table, cids, i), c, i) <==> LeadsTo(table, c, i) && c !in cids
    decreases |cids|
  {
    if cids != [] {
      var n := |cids| - 1;
      assert cids == cids[..n] + [cids[n]];
      RetireAllUndisturbed(table, cids[..n], i);
      RetireUndisturbed(RetireAll(table, cids[..n], i), cids[n], i);
    }
  }

  // ---------------------------------------------------------------- what an issuer's window holds

  lemma NewHas(role: L.Role, odcid: ConnectionId, scid: ConnectionId, next: L.Issued)
    ensures forall s: nat, cid :: HasCid(L.New(role, odcid, scid, next), s, cid)
                             <==> (s == 0 && cid == scid) || (s == 1 && cid == next.cid)
  {
  }

  lemma IssueHas(local: L.Local, next: L.Issued)
    requires local.cids.Largest() <= VARINT_MAX
    ensures forall s: nat, cid :: HasCid(L.Issue(local, next), s, cid)
                             <==> HasCid(local, s, cid) || (s == local.cids.Largest() && cid == next.cid)
  {
  }

  lemma WithdrawHas(local: L.Local, s: nat)
    requires L.IsActive(local, s)
    ensures forall t: nat, cid :: HasCid(L.Withdraw(local, s), t, cid) <==> HasCid(local, t, cid) && t != s
  {
    L.WithdrawRemoves(local, s);
    forall t: nat ensures L.IsActive(L.Withdraw(local, s), t) <==> L.IsActive(local, t) && t != s {
      assert t in L.Active(L.Withdraw(local, s)) <==> t in L.Active(local) - {s};
    }
  }

  lemma {:induction false} IssueAllHas(local: L.Local, batch: seq<L.Issued>, s: nat, cid: ConnectionId)
    requires local.cids.Largest() + |batch| <= VARINT_MAX + 1
    ensures HasCid(L.IssueAll(local, batch), s, cid)
       <==> HasCid(local, s, cid)
            || (local.cids.Largest() <= s < local.cids.Largest() + |batch| && cid == batch[s - local.cids.Largest()].cid)
    decreases |batch|
  {
    if batch != [] {
      var n := |batch| - 1;
      IssueAllHas(local, batch[..n], s, cid);
      IssueHas(L.IssueAll(local, batch[..n]), batch[n]);
    }
  }

  predicate Carries(item: Option<L.Issued>, cid: ConnectionId) { item.Some? && item.value.cid == cid }

  lemma {:induction false} RemainingHas(items: seq<Option<L.Issued>>, cid: ConnectionId, i: nat)
    requires i < |items| && Carries(items[i], cid)
    ensures cid in Remaining(items)
    decreases |items|
  {
    if i < |items| - 1 { RemainingHas(items[..|items| - 1], cid, i); }
  }

  lemma {:induction false} RemainingFrom(items: seq<Option<L.Issued>>, cid: ConnectionId) returns (i: nat)
    requires cid in Remaining(items)
    ensures i < |items| && Carries(items[i], cid)
    decreases |items|
  {
    var n := |items| - 1;
    if Carries(items[n], cid) {
      i := n;
    } else {
      i := RemainingFrom(items[..n], cid);
    }
  }

  lemma RemainingIsActive(local: L.Local, cid: ConnectionId)
    ensures cid in Remaining(local.cids.items) <==> ActiveCid(local, cid)
  {
    if cid in Remaining(local.cids.items) {
      var i := RemainingFrom(local.cids.items, cid);
      assert HasCid(local, local.cids.offset + i, cid);
    }
    if ActiveCid(local, cid) {
      var s: nat :| HasCid(local, s, cid);
      RemainingHas(local.cids.items, cid, s - local.cids.offset);
    }
  }

  // ---------------------------------------------------------------- each step

  lemma IssueAllKeepsActive(local: L.Local, batch: seq<L.Issued>, cid: ConnectionId)
    requires local.cids.Largest() + |batch| <= VARINT_MAX + 1
    requires ActiveCid(local, cid) || cid in Names(batch)
    ensures ActiveCid(L.IssueAll(local, batch), cid)
  {
    var s: nat := if s: nat :| HasCid(local, s, cid) then s else NameAt(batch, cid) + local.cids.Largest();
    IssueAllHas(local, batch, s, cid);
    assert HasCid(L.IssueAll(local, batch), s, cid);
  }

  ghost function NameAt(batch: seq<L.Issued>, cid: ConnectionId): (k: nat)
    requires cid in Names(batch)
    ensures k < |batch| && batch[k].cid == cid
  {
    var k :| 0 <= k < |Names(batch)| && Names(batch)[k] == cid;
    k
  }

  lemma IssueAllOnlyAdds(local: L.Local, batch: seq<L.Issued>, cid: ConnectionId)
    requires local.cids.Largest() + |batch| <= VARINT_MAX + 1
    requires ActiveCid(L.IssueAll(local, batch), cid)
    ensures ActiveCid(local, cid) || cid in Names(batch)
  {
    var s: nat :| HasCid(L.IssueAll(local, batch), s, cid);
    IssueAllHas(local, batch, s, cid);
    assert forall k :: 0 <= k < |batch| ==> Names(batch)[k] == batch[k].cid;
  }

  /** A sequence is newly issued exactly when its CID had no route before. */
  lemma IssuedWhere(table: Table, local: L.Local, routed: bool, i: nat, batch: seq<L.Issued>, s: nat, cid: ConnectionId)
    requires OwnAgreement(table, Managed(local, routed), i)
    requires local.cids.Largest() + |batch| <= VARINT_MAX + 1 && Fresh(table, Names(batch))
    requires HasCid(L.IssueAll(local, batch), s, cid)
    ensures local.cids.Largest() <= s <==> cid !in table
    ensures cid in table ==> HasCid(local, s, cid)
    ensures cid !in table ==> s - local.cids.Largest() < |batch| && Names(batch)[s - local.cids.Largest()] == cid
  {
    IssueAllHas(local, batch, s, cid);
    HeldIsRouted(table, local, routed, i, s, cid);
    assert forall k :: 0 <= k < |batch| ==> Names(batch)[k] == batch[k].cid;
  }

  lemma SetLimitAgrees(table: Table, local: L.Local, routed: bool, i: nat, limit: nat, batch: seq<L.Issued>)
    requires OwnAgreement(table, Managed(local, routed), i)
    requires local.limit.None? && |batch| == L.Missing(local, limit) && 2 <= limit <= VARINT_MAX
    requires local.cids.Largest() <= VARINT_MAX + 1 && Fresh(table, Names(batch))
    ensures OwnAgreement(ClaimAll(table, Names(batch), i), Managed(L.SetLimit(local, limit, batch).value, routed), i)
  {
    var issued, after := L.IssueAll(local, batch), L.SetLimit(local, limit, batch).value;
    ClaimAllUndisturbed(table, Names(batch), i);
    assert forall s: nat, cid :: HasCid(after, s, cid) <==> HasCid(issued, s, cid);
    forall s: nat, t: nat, cid | HasCid(after, s, cid) && HasCid(after, t, cid) ensures s == t {
      IssuedWhere(table, local, routed, i, batch, s, cid);
      IssuedWhere(table, local, routed, i, batch, t, cid);
    }
    forall cid ensures ActiveCid(after, cid) <==> ActiveCid(local, cid) || cid in Names(batch) {
      assert ActiveCid(after, cid) <==> ActiveCid(issued, cid);
      if ActiveCid(issued, cid) { IssueAllOnlyAdds(local, batch, cid); }
      if ActiveCid(local, cid) || cid in Names(batch) { IssueAllKeepsActive(local, batch, cid); }
    }
    assert routed ==> LeadsTo(table, local.odcid, i);
  }

  lemma HeldIsRouted(table: Table, local: L.Local, routed: bool, i: nat, s: nat, cid: ConnectionId)
    requires OwnAgreement(table, Managed(local, routed), i)
    ensures HasCid(local, s, cid) ==> cid in table
  {
    if HasCid(local, s, cid) {
      assert ActiveCid(local, cid);
      assert LeadsTo(table, cid, i);
    }
  }

  lemma RetireAgrees(table: Table, local: L.Local, routed: bool, i: nat, s: nat, next: L.Issued)
    requires OwnAgreement(table, Managed(local, routed), i)
    requires local.cids.Largest() <= VARINT_MAX && L.IsActive(local, s) && next.cid !in table
    ensures OwnAgreement(RetireRoute(Claim(table, next.cid, i), local.cids.Get(s).value.value.cid, i),
                         Managed(L.RecvRetire(local, s, next).value, routed), i)
  {
    var gone := local.cids.Get(s).value.value.cid;
    var after := L.RecvRetire(local, s, next).value;
    ClaimUndisturbed(table, next.cid, i);
    RetireUndisturbed(Claim(table, next.cid, i), gone, i);
    WithdrawHas(local, s);
    IssueHas(L.Withdraw(local, s), next);
    assert HasCid(local, s, gone);
    forall cid ensures ActiveCid(after, cid) <==> (ActiveCid(local, cid) && cid != gone) || cid == next.cid {
      if ActiveCid(local, cid) && cid != gone {
        var t: nat :| HasCid(local, t, cid);
        assert HasCid(after, t, cid);
      }
      if cid == next.cid { assert HasCid(after, local.cids.Largest(), cid); }
      if ActiveCid(after, cid) {
        var t: nat :| HasCid(after, t, cid);
        assert HasCid(local, t, cid) || cid == next.cid;
      }
    }
    forall t: nat, u: nat, cid | HasCid(after, t, cid) && HasCid(after, u, cid) ensures t == u {
      HeldIsRouted(table, local, routed, i, t, cid);
      HeldIsRouted(table, local, routed, i, u, cid);
    }
    assert ActiveCid(local, gone);
    assert routed ==> LeadsTo(table, local.odcid, i) && local.odcid != gone;
    forall cid ensures LeadsTo(RetireRoute(Claim(table, next.cid, i), gone, i), cid, i) <==> Owns(Managed(after, routed), cid) {
      HeldIsRouted(table, local, routed, i, s, gone);
      assert LeadsTo(table, cid, i) <==> Owns(Managed(local, routed), cid);
    }
  }

  lemma ClearAgrees(table: Table, local: L.Local, routed: bool, i: nat)
    requires OwnAgreement(table, Managed(local, routed), i)
    ensures var (after, conn) := Advance(table, Managed(local, routed), Clear(i)).value;
            OwnAgreement(after, conn, i) && Undisturbed(table, after, i)
  {
    RetireAllUndisturbed(table, Remaining(local.cids.items), i);
    var drained := RetireAll(table, Remaining(local.cids.items), i);
    RetireUndisturbed(drained, local.odcid, i);
    forall cid ensures cid in Remaining(local.cids.items) <==> ActiveCid(local, cid) {
      RemainingIsActive(local, cid);
    }
    assert forall s: nat, cid :: !HasCid(L.Clear(local), s, cid);
  }

  lemma AdvanceAgrees(table: Table, conn: Conn, step: Step)
    requires !step.Connect? && !step.Accept? && Advance(table, conn, step).Some?
    requires OwnAgreement(table, conn, step.i)
    ensures var (after, next) := Advance(table, conn, step).value;
            OwnAgreement(after, next, step.i) && Undisturbed(table, after, step.i)
  {
    match (conn, step)
    case (Connecting(scid), ConnectFails(_)) =>
    case (Connecting(scid), ConnectManaged(i, odcid, next)) =>
      FirstCidsAgree(table, conn, L.New(L.RoleClient, odcid, scid, next), false, i, next);
    case (Accepting(odcid), AcceptScid(i, scid)) =>
      assert LeadsTo(table, odcid, i);
      ClaimUndisturbed(table, scid, i);
    case (Accepted(odcid, scid), AcceptManaged(i, next)) =>
      FirstCidsAgree(table, conn, L.New(L.RoleServer, odcid, scid, next), true, i, next);
    case (Managed(local, routed), SetLimit(i, limit, batch)) =>
      SetLimitAgrees(table, local, routed, i, limit, batch);
      ClaimAllUndisturbed(table, Names(batch), i);
    case (Managed(local, routed), RecvRetire(i, s, next)) =>
      RetireAgrees(table, local, routed, i, s, next);
      ClaimUndisturbed(table, next.cid, i);
      RetireUndisturbed(Claim(table, next.cid, i), local.cids.Get(s).value.value.cid, i);
    case (Managed(local, routed), Clear(i)) =>
      ClearAgrees(table, local, routed, i);
  }

  lemma FirstCidsAgree(table: Table, conn: Conn, local: L.Local, routed: bool, i: nat, next: L.Issued)
    requires OwnAgreement(table, conn, i) && next.cid !in table
    requires (conn.Connecting? && !routed) || (conn.Accepted? && routed && local.role.RoleServer? && local.odcid == conn.odcid)
    requires local == L.New(local.role, local.odcid, conn.scid, next)
    ensures OwnAgreement(Claim(table, next.cid, i), Managed(local, routed), i)
    ensures Undisturbed(table, Claim(table, next.cid, i), i)
  {
    ClaimUndisturbed(table, next.cid, i);
    NewHas(local.role, local.odcid, conn.scid, next);
    assert LeadsTo(table, conn.scid, i);
    assert HasCid(local, 0, conn.scid) && HasCid(local, 1, next.cid);
    assert conn.Accepted? ==> LeadsTo(table, conn.odcid, i);
  }

  // ---------------------------------------------------------------- main results

  lemma OpeningAgrees(sys: System, cid: ConnectionId, conn: Conn)
    requires Inv(sys) && cid !in sys.table && (conn == Connecting(cid) || conn == Accepting(cid))
    ensures Inv(System(Claim(sys.table, cid, |sys.conns|), sys.conns + [conn]))
  {
    var after := System(Claim(sys.table, cid, |sys.conns|), sys.conns + [conn]);
    ClaimUndisturbed(sys.table, cid, |sys.conns|);
    forall i, c | 0 <= i < |after.conns| ensures LeadsTo(after.table, c, i) <==> Owns(after.conns[i], c) {
      if i < |sys.conns| { assert LeadsTo(sys.table, c, i) <==> Owns(sys.conns[i], c); }
    }
  }

  lemma AdvanceKeepsInv(sys: System, step: Step)
    requires Inv(sys) && !step.Connect? && !step.Accept? && Effect(sys, step).Some?
    ensures Inv(Next(sys, step)) && Undisturbed(sys.table, Next(sys, step).table, step.i)
  {
    var i, after := step.i, Next(sys, step);
    assert OwnAgreement(sys.table, sys.conns[i], i);
    AdvanceAgrees(sys.table, sys.conns[i], step);
    forall cid <- after.table ensures after.table[cid] < |after.conns| {
      assert LeadsTo(after.table, cid, after.table[cid]);
      if after.table[cid] != i { assert LeadsTo(sys.table, cid, after.table[cid]); }
    }
    forall j, c | 0 <= j < |after.conns| ensures LeadsTo(after.table, c, j) <==> Owns(after.conns[j], c) {
      if j != i { assert LeadsTo(sys.table, c, j) <==> Owns(sys.conns[j], c); }
    }
  }

  lemma NextKeepsInv(sys: System, step: Step)
    requires Inv(sys)
    ensures Inv(Next(sys, step))
  {
    match step
    case Connect(scid) => if scid !in sys.table { OpeningAgrees(sys, scid, Connecting(scid)); }
    case Accept(odcid) => if odcid !in sys.table { OpeningAgrees(sys, odcid, Accepting(odcid)); }
    case _ => if Effect(sys, step).Some? { AdvanceKeepsInv(sys, step); }
  }

  function Exec(sys: System, steps: seq<Step>): (end: System)
    requires Inv(sys)
    ensures Inv(end)
    decreases |steps|
  {
    if steps == [] then sys
    else
      var before := Exec(sys, steps[..|steps| - 1]);
      NextKeepsInv(before, steps[|steps| - 1]);
      Next(before, steps[|steps| - 1])
  }

  function Start(): (sys: System)
    ensures Inv(sys)
  {
    System(map[], [])
  }

  /**
   Over every interleaving of any number of connections: a connection ID leads to a managed
   connection exactly when it is an active CID of that connection's manager, or its not yet cleared
   original destination CID.
   */
  lemma RoutingAgreement(steps: seq<Step>, i: nat, cid: ConnectionId)
    ensures i < |Exec(Start(), steps).conns| ==>
              var end := Exec(Start(), steps);
              end.conns[i].Managed? ==>
                (LeadsTo(end.table, cid, i)
                 <==> ActiveCid(end.conns[i].local, cid) || (end.conns[i].odcidRouted && cid == end.conns[i].local.odcid))
  {
    var end := Exec(Start(), steps);
    assert i < |end.conns| ==> (LeadsTo(end.table, cid, i) <==> Owns(end.conns[i], cid));
  }

  /** Whatever one connection does, retiring or dropping included, another's route stays as it is. */
  lemma OthersRoutesStay(sys: System, step: Step, cid: ConnectionId, j: nat)
    requires Inv(sys) && j < |sys.conns| && (step.Connect? || step.Accept? || step.i != j)
    ensures LeadsTo(sys.table, cid, j) <==> LeadsTo(Next(sys, step).table, cid, j)
  {
    match step
    case Connect(scid) => if scid !in sys.table { ClaimUndisturbed(sys.table, scid, |sys.conns|); }
    case Accept(odcid) => if odcid !in sys.table { ClaimUndisturbed(sys.table, odcid, |sys.conns|); }
    case _ => if Effect(sys, step).Some? { AdvanceKeepsInv(sys, step); }
  }

  /** A connect that fails after claiming its CID leaves that route in the table for good. */
  lemma {:induction false} AbandonedRouteStays(sys: System, steps: seq<Step>, i: nat)
    requires Inv(sys) && i < |sys.conns| && sys.conns[i].Abandoned?
    ensures i < |Exec(sys, steps).conns| && Exec(sys, steps).conns[i] == sys.conns[i]
    ensures LeadsTo(Exec(sys, steps).table, sys.conns[i].scid, i)
    decreases |steps|
  {
    if steps != [] {
      AbandonedRouteStays(sys, steps[..|steps| - 1], i);
    }
    var end := Exec(sys, steps);
    assert LeadsTo(end.table, sys.conns[i].scid, i) <==> Owns(end.conns[i], sys.conns[i].scid);
  }

  // ---------------------------------------------------------------- what is left when every connection is gone

  /** How many connects failed in a run from the start. */
  function Failures(steps: seq<Step>): nat {
    if steps == [] then 0
    else
      var prefix, step := steps[..|steps| - 1], steps[|steps| - 1];
      Failures(prefix) + if step.ConnectFails? && Effect(Exec(Start(), prefix), step).Some? then 1 else 0
  }

  /** Nothing more will be asked of the connection: it failed to connect, or its manager has been cleared. */
  predicate Gone(c: Conn) { c.Abandoned? || (c.Managed? && c.local.cids.items == [] && !c.odcidRouted) }

  function AbandonedAt(conns: seq<Conn>): set<nat> { set i: nat | i < |conns| && conns[i].Abandoned? }

  lemma NextAbandons(sys: System, step: Step)
    requires Inv(sys)
    ensures AbandonedAt(Next(sys, step).conns)
         == AbandonedAt(sys.conns) + if step.ConnectFails? && Effect(sys, step).Some? then {step.i} else {}
    ensures step.ConnectFails? && Effect(sys, step).Some? ==> step.i !in AbandonedAt(sys.conns)
  {
  }

  lemma {:induction false} FailuresCounted(steps: seq<Step>)
    ensures |AbandonedAt(Exec(Start(), steps).conns)| == Failures(steps)
    decreases |steps|
  {
    if steps == [] {
      assert AbandonedAt(Start().conns) == {};
    } else {
      FailuresCounted(steps[..|steps| - 1]);
      NextAbandons(Exec(Start(), steps[..|steps| - 1]), steps[|steps| - 1]);
    }
  }

  /** Where every route leads to the one connection that failed with it, there are as many routes as failures. */
  lemma {:induction false} RoutesOfAbandoned(table: Table, conns: seq<Conn>, owners: set<nat>)
    requires forall i <- owners :: i < |conns| && conns[i].Abandoned? && LeadsTo(table, conns[i].scid, i)
    requires forall cid <- table :: table[cid] in owners && conns[table[cid]].scid == cid
    ensures |table| == |owners|
    decreases owners
  {
    if owners == {} {
      assert table == map[];
    } else {
      var i :| i in owners;
      var cid := conns[i].scid;
      assert table.Keys == (table - {cid}).Keys + {cid};
      RoutesOfAbandoned(table - {cid}, conns, owners - {i});
    }
  }

  /**
   Over every run that ends with all connections gone: the routes left are exactly the CIDs claimed by
   connects that failed, one for each; so the table is empty if and only if no connect failed.
   */
  lemma LeakedRoutes(steps: seq<Step>)
    requires forall c <- Exec(Start(), steps).conns :: Gone(c)
    ensures var end := Exec(Start(), steps);
            forall cid <- end.table :: end.table[cid] < |end.conns| && end.conns[end.table[cid]] == Abandoned(cid)
    ensures |Exec(Start(), steps).table| == Failures(steps)
    ensures Exec(Start(), steps).table == map[] <==> Failures(steps) == 0
  {
    var end := Exec(Start(), steps);
    forall cid <- end.table ensures end.conns[end.table[cid]] == Abandoned(cid) {
      var owner := end.conns[end.table[cid]];
      assert owner in end.conns;
      assert LeadsTo(end.table, cid, end.table[cid]) <==> Owns(owner, cid);
    }
    forall i <- AbandonedAt(end.conns) ensures LeadsTo(end.table, end.conns[i].scid, i) {
      assert LeadsTo(end.table, end.conns[i].scid, i) <==> Owns(end.conns[i], end.conns[i].scid);
    }
    RoutesOfAbandoned(end.table, end.conns, AbandonedAt(end.conns));
    FailuresCounted(steps);
  }

  /** One connect that fails after claiming its CID is enough. */
  lemma FailedConnectLeaks(scid: ConnectionId)
    ensures Exec(Start(), [Connect(scid), ConnectFails(0)]) == System(map[scid := 0], [Abandoned(scid)])
    ensures Failures([Connect(scid), ConnectFails(0)]) == 1
  {
    var steps := [Connect(scid), ConnectFails(0)];
    assert steps[..1] == [Connect(scid)] && [Connect(scid)][..0] == [];
    assert Exec(Start(), steps[..1]) == System(map[scid := 0], [Connecting(scid)]);
    assert Failures(steps[..1]) == 0 && steps[|steps| - 1] == ConnectFails(0);
  }
}
