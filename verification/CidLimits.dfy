/** How many CIDs stay active once the issuer knows the peer's limit. */
module CidLimits {
  import opened Basics
  import opened CidProtocol
  import L = LocalCidModel
  import R = RemoteCidModel
  import Runs = RemoteCidRuns

  /** The steps in which the issuer takes part, other than sending. */
  predicate Issuing(step: Step) { step.FillLimit? || step.DeliverRetire? }

  lemma NextRests(sys: System, step: Step)
    requires Inv(sys) && !Issuing(step)
    ensures Next(sys, step).local == sys.local && Next(sys, step).limit == sys.limit
  {
  }

  lemma RetireFixesCount(st: L.Local, s: nat, next: L.Issued)
    requires s < st.cids.Largest() <= VARINT_MAX
    ensures L.RecvRetire(st, s, next).Ok?
    ensures L.RecvRetire(st, s, next).value.limit == st.limit
    ensures |L.Active(L.RecvRetire(st, s, next).value)| == |L.Active(st)|
  {
    if L.IsActive(st, s) { L.RetireReplaces(st, s, next); }
  }

  /** Once the issuer knows the limit, retirements replace and nothing else adds. */
  lemma NextFixesCount(sys: System, step: Step)
    requires Inv(sys) && sys.local.limit.Some?
    ensures Next(sys, step).local.limit.Some?
    ensures |L.Active(Next(sys, step).local)| == |L.Active(sys.local)|
  {
    if !Issuing(step) {
      NextRests(sys, step);
    } else if step.DeliverRetire? && step.j < |sys.remote.retired| && sys.local.cids.Largest() <= VARINT_MAX {
      RetireIsKnown(sys, step.j);
      RetireFixesCount(sys.local, sys.remote.retired[step.j], step.replacement);
    }
  }

  lemma {:induction false} ActiveCountIsFixed(sys: System, steps: seq<Step>)
    requires Inv(sys) && sys.local.limit.Some?
    ensures Exec(sys, steps).local.limit.Some?
    ensures |L.Active(Exec(sys, steps).local)| == |L.Active(sys.local)|
    decreases |steps|
  {
    if steps != [] {
      ActiveCountIsFixed(sys, steps[..|steps| - 1]);
      NextFixesCount(Exec(sys, steps[..|steps| - 1]), steps[|steps| - 1]);
    }
  }

  /**
   From the moment the limit becomes known, over every later run: as many CIDs are active as the limit
   allows if and only if the limit is two or no CID was retired before it was known.
   */
  lemma LimitIsFilledIff(sys: System, batch: seq<L.Issued>, steps: seq<Step>)
    requires Inv(sys) && sys.local.limit.None? && |batch| == L.Missing(sys.local, sys.limit)
    ensures var end := Exec(Next(sys, FillLimit(batch)), steps);
            && |L.Active(end.local)| == 2 + L.Missing(sys.local, sys.limit)
            && (|L.Active(end.local)| == sys.limit <==> sys.limit == 2 || sys.local.cids.Largest() == 2)
  {
    var filled := Next(sys, FillLimit(batch));
    L.SetLimitFillsIff(sys.local, sys.scid, sys.limit, batch);
    L.IssueAllAdds(sys.local, batch);
    assert L.Active(filled.local) == L.Active(L.IssueAll(sys.local, batch));
    ActiveCountIsFixed(filled, steps);
  }

  lemma {:induction false} IssuerRests(sys: System, steps: seq<Step>)
    requires Inv(sys) && forall step <- steps :: !Issuing(step)
    ensures Exec(sys, steps).local == sys.local && Exec(sys, steps).limit == sys.limit
    decreases |steps|
  {
    if steps != [] {
      IssuerRests(sys, steps[..|steps| - 1]);
      NextRests(Exec(sys, steps[..|steps| - 1]), steps[|steps| - 1]);
    }
  }

  /**
   A connection installs the limit before it reads any RETIRE. Whatever else happens before that, and
   whatever follows, as many CIDs are active as the limit allows.
   */
  lemma LimitIsFilled(role: L.Role, odcid: ConnectionId, scid: ConnectionId, first: L.Issued, limit: nat,
                      before: seq<Step>, batch: seq<L.Issued>, after: seq<Step>)
    requires 2 <= limit <= VARINT_MAX && |batch| == limit - 2
    requires forall step <- before :: !Issuing(step)
    ensures Inv(Start(role, odcid, scid, first, limit))
    ensures var known := Next(Exec(Start(role, odcid, scid, first, limit), before), FillLimit(batch));
            |L.Active(Exec(known, after).local)| == limit
  {
    StartsInv(role, odcid, scid, first, limit);
    IssuerRests(Start(role, odcid, scid, first, limit), before);
    LimitIsFilledIff(Exec(Start(role, odcid, scid, first, limit), before), batch, after);
  }

  /** After the handshake one path opens and closes, and its RETIRE is handed to the issuer. */
  function EarlyRetirement(replacement: L.Issued): seq<Step> {
    [Path(Runs.Upgrade), Path(Runs.OpenPath(false)), Path(Runs.ClosePath(0)), DeliverRetire(0, replacement)]
  }

  lemma ExecFour(sys: System, a: Step, b: Step, c: Step, d: Step)
    requires Inv(sys)
    ensures Exec(sys, [a, b, c, d]) == Next(Next(Next(Next(sys, a), b), c), d)
  {
    assert [a, b, c, d][..3] == [a, b, c] && [a, b, c][..2] == [a, b] && [a, b][..1] == [a] && [a][..0] == [];
    assert Exec(sys, [a]) == Next(sys, a);
    assert Exec(sys, [a, b]) == Next(Next(sys, a), b);
    assert Exec(sys, [a, b, c]) == Next(Next(Next(sys, a), b), c);
  }

  /** The receiver once the handshake is confirmed and before any path has a CID of its own. */
  function Confirmed(scid: ConnectionId, limit: nat): R.Remote { R.Server(scid).(limit := Some(limit), stage := R.Allocate) }

  /** The first path takes sequence zero when it opens. */
  lemma FirstPathOpens(scid: ConnectionId, limit: nat)
    ensures var opening := R.AllocateCell(Confirmed(scid, limit), false);
            opening.cells == [R.Cell([(0, scid)], false, false)] && opening.retired == []
  {
    var queued := R.Enqueue(Confirmed(scid, limit), false);
    assert R.NextCid(queued) == Some(R.Entry(0, scid, []));
    assert [(0, scid)] + [] == [(0, scid)];
    assert R.Give(queued).pending == [];
    assert R.Arrange(queued) == R.Give(queued);
  }

  /** It gives that sequence up when it closes. */
  lemma FirstPathCloses(sys: System)
    requires Inv(sys) && sys.remote.cells == [R.Cell([(0, sys.scid)], false, false)] && sys.remote.retired == []
    ensures Next(sys, Path(Runs.ClosePath(0))).local == sys.local
    ensures Next(sys, Path(Runs.ClosePath(0))).limit == sys.limit
    ensures Next(sys, Path(Runs.ClosePath(0))).remote.retired == [0]
  {
    assert R.Sequences([(0, sys.scid)]) == [0];
    assert R.Retire(sys.remote.cells[0]).emitted == [0];
  }

  lemma FirstIsReplaced(sys: System, first: L.Issued, replacement: L.Issued)
    requires Inv(sys) && sys.local == L.New(sys.local.role, sys.local.odcid, sys.scid, first) && sys.remote.retired == [0]
    ensures var after := Next(sys, DeliverRetire(0, replacement));
            after.limit == sys.limit && after.local.limit.None? && after.local.cids.Largest() == 3
  {
    L.RetireReplaces(sys.local, 0, replacement);
    L.WithdrawRemoves(sys.local, 0);
  }

  lemma FirstPathComesAndGoes(sys: System)
    requires Inv(sys) && sys.remote == Confirmed(sys.scid, sys.limit)
    ensures var closed := Next(Next(sys, Path(Runs.OpenPath(false))), Path(Runs.ClosePath(0)));
            closed.local == sys.local && closed.limit == sys.limit && closed.scid == sys.scid && closed.remote.retired == [0]
  {
    FirstPathOpens(sys.scid, sys.limit);
    var inUse := Next(sys, Path(Runs.OpenPath(false)));
    assert inUse == sys.(remote := R.AllocateCell(sys.remote, false));
    FirstPathCloses(inUse);
  }

  lemma HandshakeConfirmed(sys: System)
    requires Inv(sys) && sys.remote == R.Server(sys.scid).(limit := Some(sys.limit))
    ensures Next(sys, Path(Runs.Upgrade)) == sys.(remote := Confirmed(sys.scid, sys.limit))
  {
  }

  lemma RetiresBeforeLimit(sys: System, first: L.Issued, replacement: L.Issued)
    requires Inv(sys) && sys.remote == R.Server(sys.scid).(limit := Some(sys.limit))
    requires sys.local == L.New(sys.local.role, sys.local.odcid, sys.scid, first)
    ensures var end := Exec(sys, EarlyRetirement(replacement));
            end.local.limit.None? && end.local.cids.Largest() == 3 && end.limit == sys.limit
  {
    ExecFour(sys, Path(Runs.Upgrade), Path(Runs.OpenPath(false)), Path(Runs.ClosePath(0)), DeliverRetire(0, replacement));
    HandshakeConfirmed(sys);
    var confirmed := Next(sys, Path(Runs.Upgrade));
    FirstPathComesAndGoes(confirmed);
    var closed := Next(Next(confirmed, Path(Runs.OpenPath(false))), Path(Runs.ClosePath(0)));
    FirstIsReplaced(closed, first, replacement);
  }

  /** A RETIRE handed to the manager before its limit leaves a limit above two short by one, whatever happens later. */
  lemma EarlyRetirementLeavesShort(odcid: ConnectionId, scid: ConnectionId, first: L.Issued, replacement: L.Issued,
                                   limit: nat, batch: seq<L.Issued>, steps: seq<Step>)
    requires 3 <= limit <= VARINT_MAX && |batch| == limit - 3
    ensures Inv(Start(L.RoleClient, odcid, scid, first, limit))
    ensures var known := Next(Exec(Start(L.RoleClient, odcid, scid, first, limit), EarlyRetirement(replacement)), FillLimit(batch));
            |L.Active(Exec(known, steps).local)| == limit - 1
  {
    StartsInv(L.RoleClient, odcid, scid, first, limit);
    var start := Start(L.RoleClient, odcid, scid, first, limit);
    RetiresBeforeLimit(start, first, replacement);
    LimitIsFilledIff(Exec(start, EarlyRetirement(replacement)), batch, steps);
  }
}
