/** What the issuer's frames say and which RETIRE frames it refuses. */
module CidIssuing {
  import opened Basics
  import opened CidFrames
  import opened IndexDeques
  import opened LocalCidModel
  import P = CidProtocol

  predicate IsLeastActive(st: Local, s: nat) { s in Active(st) && forall t <- Active(st) :: s <= t }

  /** The window starts at an active CID, and the latest frame asks to retire everything before it. */
  predicate AsksForRest(st: Local) {
    && st.cids.items != [] && st.cids.items[0].Some?
    && st.sent != [] && st.sent[|st.sent| - 1].retirePriorTo == st.cids.offset
  }

  lemma WindowStartsAtLeast(st: Local)
    requires st.cids.items != [] && st.cids.items[0].Some?
    ensures IsLeastActive(st, st.cids.offset)
  {
    assert IsActive(st, st.cids.offset);
  }

  // ---------------------------------------------------------------- frames sent

  /** Issuing sends one frame with the CID and its token under the next sequence. */
  lemma IssueSends(st: Local, next: Issued)
    requires st.cids.Largest() <= VARINT_MAX && st.cids.items != [] && st.cids.items[0].Some?
    ensures var after := Issue(st, next);
            && |after.sent| == |st.sent| + 1 && st.sent <= after.sent && AsksForRest(after)
            && var f := after.sent[|st.sent|];
               f.sequence == st.cids.Largest() && f.cid == next.cid && f.token == next.token
               && after.cids.Get(f.sequence) == Some(Some(next))
  {
  }

  lemma {:induction false} IssueAllAsks(st: Local, batch: seq<Issued>)
    requires st.cids.Largest() + |batch| <= VARINT_MAX + 1 && AsksForRest(st)
    ensures AsksForRest(IssueAll(st, batch))
    ensures |IssueAll(st, batch).sent| == |st.sent| + |batch| && st.sent <= IssueAll(st, batch).sent
    decreases |batch|
  {
    if batch != [] {
      IssueAllAsks(st, batch[..|batch| - 1]);
      IssueSends(IssueAll(st, batch[..|batch| - 1]), batch[|batch| - 1]);
    }
  }

  /** Filling the limit sends one frame for each CID of the batch, in order. */
  lemma {:induction false} IssueAllSends(st: Local, batch: seq<Issued>, i: nat)
    requires st.cids.Largest() + |batch| <= VARINT_MAX + 1 && AsksForRest(st) && i < |batch|
    ensures |IssueAll(st, batch).sent| == |st.sent| + |batch|
    ensures var f := IssueAll(st, batch).sent[|st.sent| + i];
            f.sequence == st.cids.Largest() + i && f.cid == batch[i].cid && f.token == batch[i].token
    decreases |batch|
  {
    var n := |batch| - 1;
    IssueAllAsks(st, batch[..n]);
    IssueSends(IssueAll(st, batch[..n]), batch[n]);
    if i < n { IssueAllSends(st, batch[..n], i); }
  }

  lemma WithdrawSlides(st: Local, s: nat)
    requires IsActive(st, s) && |Active(st)| >= 2
    ensures Withdraw(st, s).cids.items != [] && Withdraw(st, s).cids.items[0].Some?
  {
    WithdrawRemoves(st, s);
    assert |Active(st) - {s}| == |Active(st)| - 1 by { assert s in Active(st); }
    var t :| t in Active(Withdraw(st, s));
  }

  /** The answer to a RETIRE carries the replacement, and asks for everything below the least CID still active. */
  lemma RetireSends(st: Local, s: nat, next: Issued)
    requires st.cids.Largest() <= VARINT_MAX && IsActive(st, s) && |Active(st)| >= 2
    ensures RecvRetire(st, s, next).Ok?
    ensures var after := RecvRetire(st, s, next).value;
            && |after.sent| == |st.sent| + 1 && st.sent <= after.sent && AsksForRest(after)
            && var f := after.sent[|st.sent|];
               f.sequence == st.cids.Largest() && f.cid == next.cid && f.token == next.token
  {
    WithdrawSlides(st, s);
    WithdrawRemoves(st, s);
    IssueSends(Withdraw(st, s), next);
  }

  // ---------------------------------------------------------------- what is refused

  /**
   A RETIRE is refused if and only if its sequence was never issued; one that was retired before changes
   nothing. A limit is refused if and only if it is below two.
   */
  lemma RefusedIff(st: Local, scid: ConnectionId, s: nat, next: Issued)
    requires Inv(st, scid) && st.cids.Largest() <= VARINT_MAX
    ensures RecvRetire(st, s, next).Err? <==> NameOf(scid, st.sent, s).None?
    ensures NameOf(scid, st.sent, s).Some? && s !in Active(st) ==> RecvRetire(st, s, next) == Ok(st)
  {
    assert IsActive(st, s) ==> s in Active(st);
  }

  lemma LimitRefusedIff(st: Local, limit: nat, batch: seq<Issued>)
    requires st.limit.None? && |batch| == Missing(st, limit) && limit <= VARINT_MAX && st.cids.Largest() <= VARINT_MAX + 1
    ensures SetLimit(st, limit, batch).Err? <==> limit < 2
    ensures limit >= 2 ==> SetLimit(st, limit, batch).value.limit == Some(limit)
  {
  }

  // ---------------------------------------------------------------- over every run

  lemma NextAsks(sys: P.System, step: P.Step)
    requires P.Inv(sys) && AsksForRest(sys.local)
    ensures AsksForRest(P.Next(sys, step).local)
  {
    if step.FillLimit? && sys.local.limit.None? && |step.batch| == Missing(sys.local, sys.limit) {
      IssueAllAsks(sys.local, step.batch);
    } else if step.DeliverRetire? && step.j < |sys.remote.retired| && sys.local.cids.Largest() <= VARINT_MAX {
      P.RetireIsKnown(sys, step.j);
      if IsActive(sys.local, sys.remote.retired[step.j]) { RetireSends(sys.local, sys.remote.retired[step.j], step.replacement); }
    }
  }

  lemma {:induction false} ExecAsks(sys: P.System, steps: seq<P.Step>)
    requires P.Inv(sys) && AsksForRest(sys.local)
    ensures AsksForRest(P.Exec(sys, steps).local)
    decreases |steps|
  {
    if steps != [] {
      ExecAsks(sys, steps[..|steps| - 1]);
      NextAsks(P.Exec(sys, steps[..|steps| - 1]), steps[|steps| - 1]);
    }
  }

  /** Over every run the latest NEW_CONNECTION_ID asks to retire exactly what lies below the least CID still active. */
  lemma LatestFrameAsks(role: Role, odcid: ConnectionId, scid: ConnectionId, first: Issued, limit: nat, steps: seq<P.Step>)
    requires 2 <= limit <= VARINT_MAX
    ensures P.Inv(P.Start(role, odcid, scid, first, limit))
    ensures var local := P.Exec(P.Start(role, odcid, scid, first, limit), steps).local;
            local.sent != [] && IsLeastActive(local, local.sent[|local.sent| - 1].retirePriorTo)
  {
    P.StartsInv(role, odcid, scid, first, limit);
    ExecAsks(P.Start(role, odcid, scid, first, limit), steps);
    WindowStartsAtLeast(P.Exec(P.Start(role, odcid, scid, first, limit), steps).local);
  }
}
