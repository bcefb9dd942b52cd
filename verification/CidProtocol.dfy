/**
 One endpoint's issued CIDs facing the other endpoint's received CIDs. The two ever-growing logs
 `local.sent` and `remote.retired` are the network: any of their frames may be delivered at any
 time, again, out of order, or never.
 */
module CidProtocol {
  import opened Basics
  import opened CidFrames
  import opened IndexDeques
  import L = LocalCidModel
  import R = RemoteCidModel
  import Runs = RemoteCidRuns

  /** Both ends are configured with the same `limit`; `scid` is the issuer's sequence zero. */
  datatype System = System(limit: nat, scid: ConnectionId, local: L.Local, remote: R.Remote)

  datatype Step =
    | LearnScid
    | FillLimit(batch: seq<L.Issued>)
    | DeliverNewCid(i: nat)
    | DeliverRetire(j: nat, replacement: L.Issued)
    | Path(step: Runs.Step)

  /** The receiver's own moves: everything but what arrives from the peer. */
  predicate IsPathStep(step: Runs.Step) {
    step.Upgrade? || step.OpenPath? || step.BorrowCid? || step.RefreshCid? || step.ClosePath?
  }

  function Start(role: L.Role, odcid: ConnectionId, scid: ConnectionId, first: L.Issued, limit: nat): System {
    System(limit, scid, L.New(role, odcid, scid, first),
           (if role.RoleClient? then R.Server(scid) else R.Client()).(limit := Some(limit)))
  }

  // ---------------------------------------------------------------- the joint invariant

  /** Everything the receiver stores or lends out carries the CID issued under that sequence. */
  ghost predicate Genuine(r: R.Remote, scid: ConnectionId, sent: seq<NewCidFrame>) {
    && r.cids.Largest() <= |sent| + 1
    && (forall i :: 0 <= i < |r.cids.items| && r.cids.items[i].Some? ==>
          L.NameOf(scid, sent, r.cids.items[i].value.sequence) == Some(r.cids.items[i].value.cid))
    && (forall k, i :: 0 <= k < |r.cells| && 0 <= i < |r.cells[k].held| ==>
          L.NameOf(scid, sent, r.cells[k].held[i].0) == Some(r.cells[k].held[i].1))
  }

  /** The issuer gives a CID up only after the receiver asked for it. */
  ghost predicate GivenUpOnRequest(sys: System) {
    forall s: nat :: s < sys.local.cids.Largest() && s !in L.Active(sys.local) ==> s in sys.remote.retired
  }

  /** Until the first source CID is known, nothing has been assigned. */
  ghost predicate QuietUntilKnown(r: R.Remote) {
    r.stage.AwaitingPeer? ==> r.cursor == 0 && (r.cids.items != [] ==> r.cids.items[0].None?)
  }

  ghost predicate Inv(sys: System) {
    && 2 <= sys.limit <= VARINT_MAX
    && sys.remote.limit == Some(sys.limit)
    && (sys.local.limit.None? || sys.local.limit == Some(sys.limit))
    && L.Inv(sys.local, sys.scid)
    && R.Inv(sys.remote)
    && Genuine(sys.remote, sys.scid, sys.local.sent)
    && GivenUpOnRequest(sys)
    && QuietUntilKnown(sys.remote)
  }

  lemma StartsInv(role: L.Role, odcid: ConnectionId, scid: ConnectionId, first: L.Issued, limit: nat)
    requires 2 <= limit <= VARINT_MAX
    ensures Inv(Start(role, odcid, scid, first, limit))
  {
    L.NewKeepsInv(role, odcid, scid, first);
    Runs.FreshInv(Start(role, odcid, scid, first, limit).remote);
  }

  // ---------------------------------------------------------------- why no frame is refused

  /** A sequence that counts against the receiver's limit was never retired, so the issuer still has it active. */
  lemma CountedIsActive(sys: System, s: nat, retirePriorTo: nat)
    requires Inv(sys) && s in R.CountedSet(sys.remote, retirePriorTo)
    ensures s !in sys.remote.retired && s in L.Active(sys.local)
  {
    var r := sys.remote;
    R.CountMember(r.retired, s);
    if s < r.cursor {
      var k := r.ready.items[s - r.ready.offset];
      assert R.Sequences(r.cells[k].held)[0] == s;
      R.HeldMember(r.cells, k, s);
    }
    assert R.HeldCount(r.cells, s) + Count(r.retired, s) == if s < r.cursor then 1 else 0;
  }

  /** So is the sequence of a frame that the receiver would take in as new. */
  lemma NewIsActive(sys: System, i: nat)
    requires Inv(sys) && i < |sys.local.sent|
    requires sys.remote.cids.offset <= i + 1 && !R.Received(sys.remote, i + 1)
    ensures i + 1 in L.Active(sys.local)
  {
    var r := sys.remote;
    R.CountMember(r.retired, i + 1);
    assert r.cursor <= i + 1;
    assert R.HeldCount(r.cells, i + 1) + Count(r.retired, i + 1) == 0;
  }

  lemma SubsetCardinality(a: set<nat>, b: set<nat>)
    requires a <= b
    ensures |a| <= |b|
  {
    if a != {} {
      var x :| x in a;
      SubsetCardinality(a - {x}, b - {x});
    }
  }

  lemma NewCidFits(sys: System, i: nat)
    requires Inv(sys) && i < |sys.local.sent|
    ensures sys.local.sent[i].Parsed() && !R.RecvNewCid(sys.remote, sys.local.sent[i]).LimitExceeded?
  {
    var frame := sys.local.sent[i];
    var counted := R.CountedSet(sys.remote, frame.retirePriorTo);
    if sys.remote.cids.offset <= frame.sequence {
      forall s <- counted ensures s in L.Active(sys.local) { CountedIsActive(sys, s, frame.retirePriorTo); }
      var all := if R.Received(sys.remote, frame.sequence) then counted else counted + {frame.sequence};
      if !R.Received(sys.remote, frame.sequence) { NewIsActive(sys, i); }
      SubsetCardinality(all, L.Active(sys.local));
    }
  }

  lemma RetireIsKnown(sys: System, j: nat)
    requires Inv(sys) && j < |sys.remote.retired|
    ensures sys.remote.retired[j] < sys.local.cids.Largest()
  {
    R.CountMember(sys.remote.retired, sys.remote.retired[j]);
    var x := sys.remote.retired[j];
    assert R.HeldCount(sys.remote.cells, x) + Count(sys.remote.retired, x) == if x < sys.remote.cursor then 1 else 0;
  }

  // ---------------------------------------------------------------- the receiver's steps

  lemma {:induction false} ArrangeStaysGenuine(r: R.Remote, scid: ConnectionId, sent: seq<NewCidFrame>)
    requires R.Core(r) && Genuine(r, scid, sent)
    ensures Genuine(R.Arrange(r), scid, sent) && r.retired <= R.Arrange(r).retired
    ensures R.Arrange(r).stage == r.stage && R.Arrange(r).limit == r.limit && R.Arrange(r).cids == r.cids
    decreases |r.pending|
  {
    if r.pending != [] {
      if r.cells[r.pending[0]].isRetired {
        R.DropRetiredKeepsInv(r);
        ArrangeStaysGenuine(r.(pending := r.pending[1..]), scid, sent);
      } else if R.NextCid(r).Some? {
        R.GiveKeepsInv(r);
        GiveStaysGenuine(r, scid, sent);
        ArrangeStaysGenuine(R.Give(r), scid, sent);
      }
    }
  }

  lemma GiveStaysGenuine(r: R.Remote, scid: ConnectionId, sent: seq<NewCidFrame>)
    requires R.Core(r) && Genuine(r, scid, sent) && r.pending != [] && R.NextCid(r).Some?
    ensures Genuine(R.Give(r), scid, sent)
  {
    var k, e := r.pending[0], R.NextCid(r).value;
    var grown := [(e.sequence, e.cid)] + r.cells[k].held;
    assert forall i :: 0 <= i < |grown| ==> L.NameOf(scid, sent, grown[i].0) == Some(grown[i].1);
  }

  lemma StoreStaysGenuine(r: R.Remote, scid: ConnectionId, sent: seq<NewCidFrame>, frame: NewCidFrame)
    requires R.Coherent(r) && Genuine(r, scid, sent)
    requires r.cids.offset <= frame.sequence <= VARINT_MAX && frame.sequence <= |sent|
    requires L.NameOf(scid, sent, frame.sequence) == Some(frame.cid)
    ensures Genuine(R.Store(r, frame), scid, sent)
  {
  }

  lemma RetirePriorToStaysGenuine(r: R.Remote, scid: ConnectionId, sent: seq<NewCidFrame>, tomb: nat)
    requires R.Coherent(r) && Genuine(r, scid, sent) && tomb <= r.cids.Largest()
    ensures Genuine(R.RetirePriorTo(r, tomb), scid, sent)
  {
  }

  lemma TakeInStaysGenuine(sys: System, i: nat)
    requires Inv(sys) && i < |sys.local.sent| && sys.remote.cids.offset <= sys.local.sent[i].sequence
    ensures var after := R.TakeIn(sys.remote, sys.local.sent[i]);
            && Genuine(after, sys.scid, sys.local.sent) && sys.remote.retired <= after.retired
            && after.stage == sys.remote.stage && after.limit == sys.remote.limit
  {
    var frame := sys.local.sent[i];
    var stored := R.Store(sys.remote, frame);
    R.StoreKeepsInv(sys.remote, frame);
    StoreStaysGenuine(sys.remote, sys.scid, sys.local.sent, frame);
    R.RetirePriorToKeepsInv(stored, frame.retirePriorTo);
    RetirePriorToStaysGenuine(stored, sys.scid, sys.local.sent, frame.retirePriorTo);
    ArrangeStaysGenuine(R.RetirePriorTo(stored, frame.retirePriorTo), sys.scid, sys.local.sent);
  }

  /** Before the first source CID is known no sequence is retired, so no frame can move the boundary. */
  lemma QuietBoundary(sys: System)
    requires Inv(sys) && sys.remote.stage.AwaitingPeer?
    ensures sys.remote.cids.offset == 0 && sys.local.cids.offset == 0
  {
    R.CountMember(sys.remote.retired, 0);
    assert R.HeldCount(sys.remote.cells, 0) + Count(sys.remote.retired, 0) == 0;
    assert sys.local.cids.offset > 0 ==> 0 !in L.Active(sys.local);
  }

  lemma TakeInStaysQuiet(sys: System, i: nat)
    requires Inv(sys) && i < |sys.local.sent| && sys.remote.stage.AwaitingPeer?
    requires sys.remote.cids.offset <= sys.local.sent[i].sequence
    ensures QuietUntilKnown(R.TakeIn(sys.remote, sys.local.sent[i]))
  {
    QuietBoundary(sys);
    var frame := sys.local.sent[i];
    var stored := R.Store(sys.remote, frame);
    R.StoreKeepsInv(sys.remote, frame);
    assert R.RetirePriorTo(stored, frame.retirePriorTo) == stored;
    assert R.NextCid(stored).None?;
    ArrangeWithoutCid(stored);
  }

  lemma {:induction false} ArrangeWithoutCid(r: R.Remote)
    requires R.Core(r) && R.NextCid(r).None?
    ensures R.Arrange(r).cursor == r.cursor && R.Arrange(r).cids == r.cids
    decreases |r.pending|
  {
    if r.pending != [] && r.cells[r.pending[0]].isRetired {
      R.DropRetiredKeepsInv(r);
      ArrangeWithoutCid(r.(pending := r.pending[1..]));
    }
  }

  /** What a receiver step has to preserve for the system to keep its invariant. */
  ghost predicate Follows(r: R.Remote, after: R.Remote, scid: ConnectionId, sent: seq<NewCidFrame>) {
    && Genuine(after, scid, sent) && r.retired <= after.retired && after.limit == r.limit && QuietUntilKnown(after)
  }

  lemma EnqueueStaysGenuine(r: R.Remote, isUsing: bool, scid: ConnectionId, sent: seq<NewCidFrame>)
    requires R.Coherent(r) && Genuine(r, scid, sent)
    ensures Genuine(R.Enqueue(r, isUsing), scid, sent)
  {
  }

  lemma OpenPathFollows(sys: System, isUsing: bool)
    requires Inv(sys)
    ensures Follows(sys.remote, R.AllocateCell(sys.remote, isUsing), sys.scid, sys.local.sent)
  {
    var r := sys.remote;
    R.AllocateKeepsInv(r, isUsing);
    var queued := R.Enqueue(r, isUsing);
    EnqueueStaysGenuine(r, isUsing, sys.scid, sys.local.sent);
    ArrangeStaysGenuine(queued, sys.scid, sys.local.sent);
    if r.stage.AwaitingPeer? {
      assert R.NextCid(queued).None?;
      ArrangeWithoutCid(queued);
    }
  }

  lemma CellStepFollows(sys: System, k: nat, effect: R.CellEffect)
    requires Inv(sys) && k < |sys.remote.cells|
    requires effect.cell.held <= sys.remote.cells[k].held
    ensures Follows(sys.remote, R.WithCell(sys.remote, k, effect), sys.scid, sys.local.sent)
  {
  }

  lemma FollowsKeepsInv(sys: System, after: R.Remote)
    requires Inv(sys) && R.Inv(after) && Follows(sys.remote, after, sys.scid, sys.local.sent)
    ensures Inv(sys.(remote := after))
  {
  }

  lemma PathStepKeepsInv(sys: System, step: Runs.Step)
    requires Inv(sys) && IsPathStep(step)
    ensures Inv(sys.(remote := Runs.Next(sys.remote, step)))
  {
    var r := sys.remote;
    match step {
      case OpenPath(isUsing) => OpenPathFollows(sys, isUsing);
      case BorrowCid(k) => if k < |r.cells| { CellStepFollows(sys, k, R.CellEffect(R.Borrow(r.cells[k]), [])); }
      case RefreshCid(k) => if k < |r.cells| { CellStepFollows(sys, k, R.Refresh(r.cells[k])); }
      case ClosePath(k) => if k < |r.cells| { CellStepFollows(sys, k, R.Retire(r.cells[k])); }
      case Upgrade =>
    }
    FollowsKeepsInv(sys, Runs.Next(r, step));
  }

  // ---------------------------------------------------------------- the system's steps

  /** A step that is not enabled leaves the system unchanged. */
  function Next(sys: System, step: Step): (next: System)
    requires Inv(sys)
    ensures Inv(next)
  {
    match step
    case LearnScid =>
      if sys.remote.stage.AwaitingPeer? then
        LearnScidKeepsInv(sys);
        sys.(remote := R.OnReceiveFrom(sys.remote, sys.scid))
      else sys
    case FillLimit(batch) =>
      if sys.local.limit.None? && |batch| == L.Missing(sys.local, sys.limit) then
        FillLimitKeepsInv(sys, batch);
        sys.(local := L.SetLimit(sys.local, sys.limit, batch).value)
      else sys
    case DeliverNewCid(i) =>
      if i < |sys.local.sent| then
        NewCidFits(sys, i);
        DeliverNewCidKeepsInv(sys, i);
        (match R.RecvNewCid(sys.remote, sys.local.sent[i])
         case Accepted(remote, _) => sys.(remote := remote)
         case Discarded => sys)
      else sys
    case DeliverRetire(j, replacement) =>
      if j < |sys.remote.retired| && sys.local.cids.Largest() <= VARINT_MAX then
        RetireIsKnown(sys, j);
        DeliverRetireKeepsInv(sys, j, replacement);
        sys.(local := L.RecvRetire(sys.local, sys.remote.retired[j], replacement).value)
      else sys
    case Path(pathStep) =>
      if IsPathStep(pathStep) then
        PathStepKeepsInv(sys, pathStep);
        sys.(remote := Runs.Next(sys.remote, pathStep))
      else sys
  }

  lemma LearnScidKeepsInv(sys: System)
    requires Inv(sys) && sys.remote.stage.AwaitingPeer?
    ensures sys.remote.cids.offset == 0
    ensures Inv(sys.(remote := R.OnReceiveFrom(sys.remote, sys.scid)))
  {
    QuietBoundary(sys);
    var first := NewCidFrame(0, 0, sys.scid, []);
    var stored := R.Store(sys.remote, first).(stage := R.Handshake);
    R.StoreKeepsInv(sys.remote, first);
    Runs.OnReceiveFromKeepsInv(sys.remote, sys.scid);
    assert Genuine(stored, sys.scid, sys.local.sent);
    ArrangeStaysGenuine(stored, sys.scid, sys.local.sent);
  }

  /** The issuer may send more and give up what was asked for. */
  lemma IssuerStepKeepsInv(sys: System, after: L.Local)
    requires Inv(sys) && L.Inv(after, sys.scid) && sys.local.sent <= after.sent
    requires after.limit.None? || after.limit == Some(sys.limit)
    requires GivenUpOnRequest(sys.(local := after))
    ensures Inv(sys.(local := after))
  {
  }

  lemma FillLimitKeepsInv(sys: System, batch: seq<L.Issued>)
    requires Inv(sys) && sys.local.limit.None? && |batch| == L.Missing(sys.local, sys.limit)
    ensures L.SetLimit(sys.local, sys.limit, batch).Ok?
    ensures Inv(sys.(local := L.SetLimit(sys.local, sys.limit, batch).value))
  {
    var after := L.SetLimit(sys.local, sys.limit, batch).value;
    L.SetLimitKeepsInv(sys.local, sys.scid, sys.limit, batch);
    L.IssueAllKeepsNames(sys.local, sys.scid, batch);
    L.IssueAllAdds(sys.local, batch);
    assert L.Active(after) == L.Active(L.IssueAll(sys.local, batch));
    IssuerStepKeepsInv(sys, after);
  }

  lemma DeliverNewCidKeepsInv(sys: System, i: nat)
    requires Inv(sys) && i < |sys.local.sent|
    ensures var outcome := R.RecvNewCid(sys.remote, sys.local.sent[i]);
            outcome.Accepted? ==> Inv(sys.(remote := outcome.next))
  {
    var frame := sys.local.sent[i];
    if R.RecvNewCid(sys.remote, frame).Accepted? {
      Runs.TakeInKeepsInv(sys.remote, frame);
      TakeInStaysGenuine(sys, i);
      if sys.remote.stage.AwaitingPeer? { TakeInStaysQuiet(sys, i); }
    }
  }

  lemma RetireGivesUpOnRequest(sys: System, s: nat, replacement: L.Issued)
    requires GivenUpOnRequest(sys) && s in sys.remote.retired
    requires sys.local.cids.Largest() <= VARINT_MAX && L.IsActive(sys.local, s)
    ensures GivenUpOnRequest(sys.(local := L.RecvRetire(sys.local, s, replacement).value))
  {
    L.RetireReplaces(sys.local, s, replacement);
    L.WithdrawRemoves(sys.local, s);
  }

  lemma DeliverRetireKeepsInv(sys: System, j: nat, replacement: L.Issued)
    requires Inv(sys) && j < |sys.remote.retired| && sys.local.cids.Largest() <= VARINT_MAX
    requires sys.remote.retired[j] < sys.local.cids.Largest()
    ensures Inv(sys.(local := L.RecvRetire(sys.local, sys.remote.retired[j], replacement).value))
  {
    var s := sys.remote.retired[j];
    var after := L.RecvRetire(sys.local, s, replacement).value;
    if L.IsActive(sys.local, s) {
      L.RecvRetireKeepsInv(sys.local, sys.scid, s, replacement);
      RetireGivesUpOnRequest(sys, s, replacement);
      IssuerStepKeepsInv(sys, after);
    } else {
      assert sys.(local := after) == sys;
    }
  }

  function Exec(sys: System, steps: seq<Step>): (end: System)
    requires Inv(sys)
    ensures Inv(end)
    decreases |steps|
  {
    if steps == [] then sys else Next(Exec(sys, steps[..|steps| - 1]), steps[|steps| - 1])
  }

  // ---------------------------------------------------------------- main results

  /** Neither end would refuse any frame the other ever sent. */
  ghost predicate NothingRefused(sys: System)
    requires Inv(sys)
  {
    && |L.Active(sys.local)| <= sys.limit
    && (forall i :: 0 <= i < |sys.local.sent| ==>
          sys.local.sent[i].Parsed() && !R.RecvNewCid(sys.remote, sys.local.sent[i]).LimitExceeded?)
    && (forall j :: 0 <= j < |sys.remote.retired| ==> sys.remote.retired[j] < sys.local.cids.Largest())
  }

  lemma InvRefusesNothing(sys: System)
    requires Inv(sys)
    ensures NothingRefused(sys)
  {
    forall i | 0 <= i < |sys.local.sent|
      ensures sys.local.sent[i].Parsed() && !R.RecvNewCid(sys.remote, sys.local.sent[i]).LimitExceeded?
    {
      NewCidFits(sys, i);
    }
    forall j | 0 <= j < |sys.remote.retired| ensures sys.remote.retired[j] < sys.local.cids.Largest() {
      RetireIsKnown(sys, j);
    }
  }

  /**
   However frames are lost, repeated and reordered: no NEW_CONNECTION_ID ever in flight exceeds the
   receiver's limit, no RETIRE_CONNECTION_ID ever in flight is unknown to the issuer, and the issuer
   keeps within the limit.
   */
  lemma NoFrameIsRefused(role: L.Role, odcid: ConnectionId, scid: ConnectionId, first: L.Issued, limit: nat, steps: seq<Step>)
    requires 2 <= limit <= VARINT_MAX
    ensures Inv(Start(role, odcid, scid, first, limit))
    ensures NothingRefused(Exec(Start(role, odcid, scid, first, limit), steps))
  {
    StartsInv(role, odcid, scid, first, limit);
    InvRefusesNothing(Exec(Start(role, odcid, scid, first, limit), steps));
  }

  /** Every CID a path holds, borrowed or not, is still active at the issuer under the same sequence. */
  lemma HeldCidIsActiveAtIssuer(sys: System, steps: seq<Step>, k: nat, i: nat)
    requires Inv(sys)
    requires k < |Exec(sys, steps).remote.cells| && i < |Exec(sys, steps).remote.cells[k].held|
    ensures var end := Exec(sys, steps);
            var (s, cid) := end.remote.cells[k].held[i];
            L.IsActive(end.local, s) && end.local.cids.Get(s).value.value.cid == cid
  {
    var end := Exec(sys, steps);
    var (s, cid) := end.remote.cells[k].held[i];
    assert R.Sequences(end.remote.cells[k].held)[i] == s;
    R.HeldMember(end.remote.cells, k, s);
    R.CountMember(end.remote.retired, s);
    assert R.HeldCount(end.remote.cells, s) + Count(end.remote.retired, s) == if s < end.remote.cursor then 1 else 0;
    assert s in L.Active(end.local);
  }
}
