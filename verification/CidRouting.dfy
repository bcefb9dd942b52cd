/** The connection-ID protocol of one connection, running on the routing table it shares with all others. */
module CidRouting {
  import opened Basics
  import L = LocalCidModel
  import P = CidProtocol
  import Routing

  /** Connection `conn` of the routing table is the issuer of the protocol. */
  datatype Joint = Joint(protocol: P.System, routing: Routing.System, conn: nat)

  /** A step of the protocol, or a step of the table on behalf of another connection. */
  datatype Step = Own(own: P.Step) | Others(other: Routing.Step)

  ghost predicate Inv(j: Joint) {
    && P.Inv(j.protocol) && Routing.Inv(j.routing)
    && j.conn < |j.routing.conns| && j.routing.conns[j.conn].Managed? && j.routing.conns[j.conn].local == j.protocol.local
  }

  /** What a protocol step does to the table: an issuer that issues or gives up a CID claims or retires its route. */
  function TableStep(j: Joint, step: P.Step): Option<Routing.Step> {
    match step
    case FillLimit(batch) => Some(Routing.SetLimit(j.conn, j.protocol.limit, batch))
    case DeliverRetire(k, replacement) =>
      if k < |j.protocol.remote.retired| && L.IsActive(j.protocol.local, j.protocol.remote.retired[k]) then
        Some(Routing.RecvRetire(j.conn, j.protocol.remote.retired[k], replacement))
      else None
    case _ => None
  }

  predicate Foreign(j: Joint, step: Routing.Step) { step.Connect? || step.Accept? || step.i != j.conn }

  /** A CID that is to be issued must have no route; until there is such a one, the step waits. */
  function Next(j: Joint, step: Step): (next: Joint)
    requires Inv(j)
    ensures Inv(next) && next.conn == j.conn
  {
    match step
    case Own(own) =>
      (match TableStep(j, own)
       case None => OwnKeepsInv(j, own); j.(protocol := P.Next(j.protocol, own))
       case Some(table) =>
         if Routing.Effect(j.routing, table).None? then j
         else TogetherKeepsInv(j, own); j.(protocol := P.Next(j.protocol, own), routing := Routing.Next(j.routing, table)))
    case Others(other) =>
      if Foreign(j, other) then OthersKeepInv(j, other); j.(routing := Routing.Next(j.routing, other)) else j
  }

  /** Without a step of the table the issuer keeps its CIDs. */
  lemma OwnKeepsInv(j: Joint, step: P.Step)
    requires Inv(j) && TableStep(j, step).None?
    ensures P.Next(j.protocol, step).local == j.protocol.local
  {
    if step.DeliverRetire? && step.j < |j.protocol.remote.retired| { P.RetireIsKnown(j.protocol, step.j); }
  }

  /** Where the table takes its step, so does the issuer, and both end with the same CIDs. */
  lemma TogetherKeepsInv(j: Joint, step: P.Step)
    requires Inv(j) && TableStep(j, step).Some? && Routing.Effect(j.routing, TableStep(j, step).value).Some?
    ensures var table := Routing.Next(j.routing, TableStep(j, step).value);
            && Routing.Inv(table) && |table.conns| == |j.routing.conns|
            && table.conns[j.conn].Managed? && table.conns[j.conn].local == P.Next(j.protocol, step).local
  {
    Routing.NextKeepsInv(j.routing, TableStep(j, step).value);
  }

  lemma OthersKeepInv(j: Joint, step: Routing.Step)
    requires Inv(j) && Foreign(j, step)
    ensures var table := Routing.Next(j.routing, step);
            Routing.Inv(table) && j.conn < |table.conns| && table.conns[j.conn] == j.routing.conns[j.conn]
  {
    Routing.NextKeepsInv(j.routing, step);
  }

  ghost function Exec(j: Joint, steps: seq<Step>): (end: Joint)
    requires Inv(j)
    ensures Inv(end) && end.conn == j.conn
    decreases |steps|
  {
    if steps == [] then j else Next(Exec(j, steps[..|steps| - 1]), steps[|steps| - 1])
  }

  /** The protocol starts when the connection gets its manager, in whatever state the table is by then. */
  ghost predicate Begins(j: Joint, opening: seq<Routing.Step>, role: L.Role, odcid: ConnectionId, scid: ConnectionId,
                         first: L.Issued, limit: nat)
  {
    && j.routing == Routing.Exec(Routing.Start(), opening) && j.conn < |j.routing.conns|
    && j.routing.conns[j.conn].Managed? && j.routing.conns[j.conn].local == L.New(role, odcid, scid, first)
    && j.protocol == P.Start(role, odcid, scid, first, limit)
  }

  lemma BeginsInv(j: Joint, opening: seq<Routing.Step>, role: L.Role, odcid: ConnectionId, scid: ConnectionId,
                  first: L.Issued, limit: nat)
    requires 2 <= limit <= VARINT_MAX && Begins(j, opening, role, odcid, scid, first, limit)
    ensures Inv(j)
  {
    P.StartsInv(role, odcid, scid, first, limit);
  }

  /** A client's connect on an empty table is such a beginning. */
  lemma ClientBegins(odcid: ConnectionId, scid: ConnectionId, first: L.Issued, limit: nat)
    requires first.cid != scid
    ensures var opening := [Routing.Connect(scid), Routing.ConnectManaged(0, odcid, first)];
            Begins(Joint(P.Start(L.RoleClient, odcid, scid, first, limit), Routing.Exec(Routing.Start(), opening), 0),
                   opening, L.RoleClient, odcid, scid, first, limit)
  {
    var opening := [Routing.Connect(scid), Routing.ConnectManaged(0, odcid, first)];
    assert opening[..1] == [Routing.Connect(scid)] && [Routing.Connect(scid)][..0] == [];
    assert Routing.Exec(Routing.Start(), opening[..1]) == Routing.System(map[scid := 0], [Routing.Connecting(scid)]);
  }

  lemma HeldIsRouted(j: Joint, k: nat, i: nat)
    requires Inv(j) && k < |j.protocol.remote.cells| && i < |j.protocol.remote.cells[k].held|
    ensures Routing.LeadsTo(j.routing.table, j.protocol.remote.cells[k].held[i].1, j.conn)
  {
    var (s, cid) := j.protocol.remote.cells[k].held[i];
    P.HeldCidIsActiveAtIssuer(j.protocol, [], k, i);
    assert Routing.HasCid(j.routing.conns[j.conn].local, s, cid);
    assert Routing.Owns(j.routing.conns[j.conn], cid);
  }

  /**
   Over every joint run, other connections opening, issuing, retiring and closing at any time: whatever
   CID a path of the peer addresses its packets with, the table leads them to the connection that issued it.
   */
  lemma HeldCidReachesIssuer(j: Joint, opening: seq<Routing.Step>, role: L.Role, odcid: ConnectionId, scid: ConnectionId,
                             first: L.Issued, limit: nat, steps: seq<Step>, k: nat, i: nat)
    requires 2 <= limit <= VARINT_MAX && Begins(j, opening, role, odcid, scid, first, limit)
    ensures Inv(j)
    ensures var end := Exec(j, steps);
            k < |end.protocol.remote.cells| && i < |end.protocol.remote.cells[k].held| ==>
              Routing.LeadsTo(end.routing.table, end.protocol.remote.cells[k].held[i].1, j.conn)
  {
    BeginsInv(j, opening, role, odcid, scid, first, limit);
    var end := Exec(j, steps);
    if k < |end.protocol.remote.cells| && i < |end.protocol.remote.cells[k].held| { HeldIsRouted(end, k, i); }
  }
}
