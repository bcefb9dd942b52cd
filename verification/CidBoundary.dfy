/**
 What an accepted NEW_CONNECTION_ID achieves: the retirement boundary moves, the paths below it are
 to be served anew, and no more CIDs are outstanding than the limit allows.
 */
module CidBoundary {
  import opened Basics
  import opened CidFrames
  import opened IndexDeques
  import opened RemoteCidModel
  import opened RemoteCidRuns

  // ---------------------------------------------------------------- what handing out leaves alone

  lemma {:induction false} ArrangeKeepsCids(st: Remote)
    requires Core(st)
    ensures Arrange(st).cids == st.cids && Arrange(st).stage == st.stage && Arrange(st).limit == st.limit
    ensures |Arrange(st).cells| == |st.cells| && forall k :: 0 <= k < |st.cells| ==> Arrange(st).cells[k].isRetired == st.cells[k].isRetired
    decreases |st.pending|
  {
    if st.pending != [] {
      if st.cells[st.pending[0]].isRetired {
        DropRetiredKeepsInv(st);
        ArrangeKeepsCids(st.(pending := st.pending[1..]));
      } else if NextCid(st).Some? {
        GiveKeepsInv(st);
        ArrangeKeepsCids(Give(st));
      }
    }
  }

  lemma RetirePriorToMoves(st: Remote, tomb: nat)
    requires Coherent(st) && tomb <= st.cids.Largest()
    ensures var next := RetirePriorTo(st, tomb);
            && next.cids.offset == Max(st.cids.offset, tomb) && next.cids.Largest() == st.cids.Largest()
            && (forall s: nat :: next.cids.offset <= s ==> next.cids.Get(s) == st.cids.Get(s))
            && next.stage == st.stage && next.limit == st.limit && next.cells == st.cells
  {
  }

  // ---------------------------------------------------------------- the boundary

  ghost predicate Accepts(st: Remote, step: Step)
    requires Inv(st)
  {
    step.NewCid? && st.limit.Some? && step.frame.Parsed() && RecvNewCid(st, step.frame).Accepted?
  }

  /** The largest boundary asked for by an accepted frame. */
  ghost function Boundary(st: Remote, steps: seq<Step>): nat
    requires Inv(st)
    decreases |steps|
  {
    if steps == [] then 0
    else
      var before, step := Exec(st, steps[..|steps| - 1]), steps[|steps| - 1];
      Max(Boundary(st, steps[..|steps| - 1]), if Accepts(before, step) then step.frame.retirePriorTo else 0)
  }

  lemma StoreInserts(st: Remote, frame: NewCidFrame)
    requires Coherent(st) && st.cids.offset <= frame.sequence <= VARINT_MAX
    ensures Store(st, frame).cids.offset == st.cids.offset
    ensures Store(st, frame).cids.Get(frame.sequence) == Some(Some(Entry(frame.sequence, frame.cid, frame.token)))
    ensures forall s: nat :: s != frame.sequence ==> (Received(Store(st, frame), s) <==> Received(st, s))
    ensures forall s: nat :: s != frame.sequence && Received(st, s) ==> Store(st, frame).cids.Get(s) == st.cids.Get(s)
  {
  }

  /** The boundary after a frame was taken in, and what the received CIDs are then. */
  lemma TakeInMoves(st: Remote, frame: NewCidFrame)
    requires Inv(st) && frame.Parsed() && st.cids.offset <= frame.sequence
    ensures TakeIn(st, frame).cids == RetirePriorTo(Store(st, frame), frame.retirePriorTo).cids
    ensures TakeIn(st, frame).cids.offset == Max(st.cids.offset, frame.retirePriorTo)
    ensures TakeIn(st, frame).stage == st.stage && TakeIn(st, frame).limit == st.limit
  {
    StoreKeepsInv(st, frame);
    var stored := Store(st, frame);
    RetirePriorToKeepsInv(stored, frame.retirePriorTo);
    RetirePriorToMoves(stored, frame.retirePriorTo);
    ArrangeKeepsCids(RetirePriorTo(stored, frame.retirePriorTo));
  }

  /** An accepted CID is stored as it came; the others at or above the boundary stay. */
  lemma TakenInIsStored(st: Remote, frame: NewCidFrame, s: nat)
    requires Inv(st) && frame.Parsed() && st.cids.offset <= frame.sequence && TakeIn(st, frame).cids.offset <= s
    ensures s == frame.sequence ==> TakeIn(st, frame).cids.Get(s) == Some(Some(Entry(s, frame.cid, frame.token)))
    ensures s != frame.sequence ==>
              (Received(TakeIn(st, frame), s) <==> Received(st, s)) && (Received(st, s) ==> TakeIn(st, frame).cids.Get(s) == st.cids.Get(s))
  {
    TakeInMoves(st, frame);
    StoreInserts(st, frame);
    RetirePriorToMoves(Store(st, frame), frame.retirePriorTo);
  }

  lemma NextMoves(st: Remote, step: Step)
    requires Inv(st)
    ensures Next(st, step).cids.offset == if Accepts(st, step) then Max(st.cids.offset, step.frame.retirePriorTo) else st.cids.offset
  {
    match step {
      case PeerScid(scid) =>
        if st.stage.AwaitingPeer? && st.cids.offset == 0 {
          StoreKeepsInv(st, NewCidFrame(0, 0, scid, []));
          ArrangeKeepsCids(Store(st, NewCidFrame(0, 0, scid, [])).(stage := Handshake));
        }
      case NewCid(frame) => if Accepts(st, step) { TakeInMoves(st, frame); }
      case OpenPath(isUsing) =>
        AllocateKeepsInv(st, isUsing);
        ArrangeKeepsCids(Enqueue(st, isUsing));
      case _ =>
    }
  }

  /** Over every run the boundary is exactly the largest one asked for, and so never moves back. */
  lemma {:induction false} BoundaryIsReached(st: Remote, steps: seq<Step>)
    requires Inv(st)
    ensures Exec(st, steps).cids.offset == Max(st.cids.offset, Boundary(st, steps))
    decreases |steps|
  {
    if steps != [] {
      BoundaryIsReached(st, steps[..|steps| - 1]);
      NextMoves(Exec(st, steps[..|steps| - 1]), steps[|steps| - 1]);
    }
  }

  /**
   Over every run: a live path uses a sequence at or above the boundary, or it waits for one and there is
   none to give; once its batch is over it holds no other.
   */
  lemma PathsFollowBoundary(st: Remote, steps: seq<Step>, k: nat)
    requires Inv(st) && k < |Exec(st, steps).cells| && !Exec(st, steps).cells[k].isRetired
    ensures var end := Exec(st, steps);
            || (end.cells[k].held != [] && Boundary(st, steps) <= end.cells[k].held[0].0 && Received(end, end.cells[k].held[0].0))
            || (k in end.pending && NextCid(end).None?)
    ensures var end := Exec(st, steps);
            !end.cells[k].isUsing ==> |end.cells[k].held| <= 1
  {
    var end := Exec(st, steps);
    BoundaryIsReached(st, steps);
    LiveCellIsServed(end, k);
    assert CellTidy(end.cells[k]);
    if s: nat :| ServedBy(end, k, s) {
      assert end.cells[k].held[0].0 == s && Boundary(st, steps) <= s;
    }
  }

  /**
   Over every run: each sequence below the boundary has been retired, unless a path in the middle of a
   batch holds it, or it is the only CID of a live path for which there is no other yet.
   */
  lemma BelowBoundaryIsRetired(st: Remote, steps: seq<Step>, x: nat)
    requires Inv(st) && x < Boundary(st, steps) && x !in Exec(st, steps).retired
    ensures var end := Exec(st, steps);
            exists k: nat ::
              && k < |end.cells| && Holds(end.cells[k], x)
              && (end.cells[k].isUsing || (!end.cells[k].isRetired && |end.cells[k].held| == 1 && k in end.pending && NextCid(end).None?))
  {
    var end := Exec(st, steps);
    BoundaryIsReached(st, steps);
    RetireLedger(st, steps, x);
    CountMember(end.retired, x);
    var k: nat :| SoleHolder(end, k, x);
    CountMember(Sequences(end.cells[k].held), x);
    assert CellTidy(end.cells[k]);
    if !end.cells[k].isUsing { PathsFollowBoundary(st, steps, k); }
  }

  // ---------------------------------------------------------------- the limit

  /** The sequence went to a path that has closed since. */
  predicate GoneWithPath(st: Remote, s: nat)
    requires QueueInRange(st)
  {
    st.ready.Contains(s) && st.cells[st.ready.items[s - st.ready.offset]].isRetired
  }

  /** The CIDs at or above the boundary that were received and are free or in use. */
  function Outstanding(st: Remote): set<nat>
    requires QueueInRange(st)
  {
    set s | st.cids.offset <= s < st.cids.Largest() && Received(st, s) && !GoneWithPath(st, s)
  }

  lemma OutstandingSame(a: Remote, b: Remote)
    requires QueueInRange(a) && QueueInRange(b) && a.cids == b.cids && a.ready == b.ready && |a.cells| <= |b.cells|
    requires forall k :: 0 <= k < |a.cells| ==> a.cells[k].isRetired == b.cells[k].isRetired
    ensures Outstanding(a) == Outstanding(b)
  {
    assert forall s: nat :: GoneWithPath(a, s) <==> GoneWithPath(b, s);
  }

  lemma OutstandingAfterStore(st: Remote, frame: NewCidFrame)
    requires Core(st) && st.cids.offset <= frame.sequence <= VARINT_MAX
    ensures Outstanding(Store(st, frame)) == Outstanding(st) + if Received(st, frame.sequence) then {} else {frame.sequence}
  {
    var next := Store(st, frame);
    forall s: nat ensures s in Outstanding(next) <==> s in Outstanding(st) || (s == frame.sequence && !Received(st, s)) {
      assert GoneWithPath(next, s) <==> GoneWithPath(st, s);
      assert st.ready.Contains(s) ==> Received(st, s);
    }
  }

  lemma OutstandingAfterRetire(st: Remote, tomb: nat)
    requires Core(st) && tomb <= st.cids.Largest()
    ensures Outstanding(RetirePriorTo(st, tomb)) == set s | s in Outstanding(st) && tomb <= s
  {
    var next := RetirePriorTo(st, tomb);
    RetirePriorToMoves(st, tomb);
    forall s: nat ensures s in Outstanding(next) <==> s in Outstanding(st) && tomb <= s {
      if next.cids.offset <= s {
        assert next.cids.Get(s) == st.cids.Get(s);
        assert GoneWithPath(next, s) <==> GoneWithPath(st, s);
      }
    }
  }

  lemma {:induction false} OutstandingAfterArrange(st: Remote)
    requires Core(st)
    ensures QueueInRange(Arrange(st)) && Outstanding(Arrange(st)) == Outstanding(st)
    decreases |st.pending|
  {
    if st.pending != [] {
      if st.cells[st.pending[0]].isRetired {
        DropRetiredKeepsInv(st);
        OutstandingSame(st, st.(pending := st.pending[1..]));
        OutstandingAfterArrange(st.(pending := st.pending[1..]));
      } else if NextCid(st).Some? {
        GiveKeepsInv(st);
        OutstandingAfterGive(st);
        OutstandingAfterArrange(Give(st));
      }
    }
  }

  lemma OutstandingAfterGive(st: Remote)
    requires Core(st) && st.pending != [] && !st.cells[st.pending[0]].isRetired && NextCid(st).Some?
    ensures Outstanding(Give(st)) == Outstanding(st)
  {
    var next := Give(st);
    assert forall k :: 0 <= k < |st.cells| ==> next.cells[k].isRetired == st.cells[k].isRetired;
    forall s: nat ensures GoneWithPath(next, s) <==> GoneWithPath(st, s) {
      if st.ready.Contains(s) { assert next.ready.items[s - st.ready.offset] == st.ready.items[s - st.ready.offset]; }
    }
  }

  lemma CountedIsOutstanding(st: Remote, retirePriorTo: nat)
    requires Core(st)
    ensures CountedSet(st, retirePriorTo) == set s | s in Outstanding(st) && retirePriorTo <= s
  {
  }

  lemma FilterPlus(a: set<nat>, b: set<nat>, t: nat)
    requires forall x <- b :: t <= x
    ensures (set s | s in a + b && t <= s) == (set s | s in a && t <= s) + b
  {
  }

  lemma TakenInOutstanding(st: Remote, frame: NewCidFrame)
    requires Inv(st) && frame.Parsed() && st.cids.offset <= frame.sequence
    ensures QueueInRange(TakeIn(st, frame))
    ensures Outstanding(TakeIn(st, frame))
         == CountedSet(st, frame.retirePriorTo) + if Received(st, frame.sequence) then {} else {frame.sequence}
  {
    var stored := Store(st, frame);
    StoreKeepsInv(st, frame);
    OutstandingAfterStore(st, frame);
    RetirePriorToKeepsInv(stored, frame.retirePriorTo);
    OutstandingAfterRetire(stored, frame.retirePriorTo);
    OutstandingAfterArrange(RetirePriorTo(stored, frame.retirePriorTo));
    CountedIsOutstanding(st, frame.retirePriorTo);
    FilterPlus(Outstanding(st), if Received(st, frame.sequence) then {} else {frame.sequence}, frame.retirePriorTo);
  }

  /** What would be outstanding once the frame is taken in. */
  lemma OutstandingAfterTakeIn(st: Remote, frame: NewCidFrame)
    requires Inv(st) && frame.Parsed() && st.cids.offset <= frame.sequence
    ensures QueueInRange(TakeIn(st, frame)) && |Outstanding(TakeIn(st, frame))| == ActiveAfter(st, frame)
  {
    TakenInOutstanding(st, frame);
    assert !Received(st, frame.sequence) ==> frame.sequence !in CountedSet(st, frame.retirePriorTo);
  }

  /**
   A frame below the boundary is discarded; another is refused if and only if taking it in would leave
   more CIDs outstanding than the limit allows, and then with their number; the rest are taken in.
   */
  lemma OutcomeIs(st: Remote, frame: NewCidFrame)
    requires Inv(st) && st.limit.Some? && frame.Parsed()
    ensures frame.sequence < st.cids.offset ==> RecvNewCid(st, frame) == Discarded
    ensures st.cids.offset <= frame.sequence ==>
              var after := TakeIn(st, frame);
              && QueueInRange(after)
              && RecvNewCid(st, frame) == if |Outstanding(after)| > st.limit.value then LimitExceeded(|Outstanding(after)|)
                                          else Accepted(after, frame.token)
  {
    if st.cids.offset <= frame.sequence { OutstandingAfterTakeIn(st, frame); }
  }

  lemma OutstandingAfterCell(st: Remote, k: nat, effect: CellEffect)
    requires Inv(st) && k < |st.cells| && (st.cells[k].isRetired ==> effect.cell.isRetired)
    ensures Outstanding(WithCell(st, k, effect)) <= Outstanding(st)
  {
  }

  lemma SubsetSize(a: set<nat>, b: set<nat>)
    requires a <= b
    ensures |a| <= |b|
  {
    if a != {} {
      var x :| x in a;
      SubsetSize(a - {x}, b - {x});
    }
  }

  ghost predicate WithinLimit(st: Remote) {
    Inv(st) && !st.stage.AwaitingPeer? && st.limit.Some? && |Outstanding(st)| <= st.limit.value
  }

  lemma NewCidWithinLimit(st: Remote, frame: NewCidFrame)
    requires WithinLimit(st) && frame.Parsed() && RecvNewCid(st, frame).Accepted?
    ensures WithinLimit(TakeIn(st, frame)) && TakeIn(st, frame).limit == st.limit
  {
    OutcomeIs(st, frame);
    TakeInKeepsInv(st, frame);
    TakeInMoves(st, frame);
  }

  lemma OpenPathWithinLimit(st: Remote, isUsing: bool)
    requires WithinLimit(st)
    ensures WithinLimit(AllocateCell(st, isUsing)) && AllocateCell(st, isUsing).limit == st.limit
  {
    var queued := Enqueue(st, isUsing);
    AllocateKeepsInv(st, isUsing);
    ArrangeKeepsInv(queued);
    ArrangeKeepsCids(queued);
    OutstandingAfterArrange(queued);
    OutstandingSame(st, queued);
  }

  lemma CellWithinLimit(st: Remote, k: nat, effect: CellEffect)
    requires WithinLimit(st) && k < |st.cells| && (st.cells[k].isRetired ==> effect.cell.isRetired)
    requires Inv(WithCell(st, k, effect))
    ensures WithinLimit(WithCell(st, k, effect))
  {
    OutstandingAfterCell(st, k, effect);
    SubsetSize(Outstanding(WithCell(st, k, effect)), Outstanding(st));
  }

  lemma NextWithinLimit(st: Remote, step: Step)
    requires WithinLimit(st) && !step.SetLimit?
    ensures WithinLimit(Next(st, step)) && Next(st, step).limit == st.limit
  {
    match step {
      case NewCid(frame) => if Accepts(st, step) { NewCidWithinLimit(st, frame); }
      case OpenPath(isUsing) => OpenPathWithinLimit(st, isUsing);
      case BorrowCid(k) =>
        if k < |st.cells| {
          BorrowStepKeepsInv(st, k);
          CellWithinLimit(st, k, CellEffect(Borrow(st.cells[k]), []));
        }
      case RefreshCid(k) =>
        if k < |st.cells| {
          ReleaseStepKeepsInv(st, k, st.cells[k].(isUsing := false));
          CellWithinLimit(st, k, Refresh(st.cells[k]));
        }
      case ClosePath(k) =>
        if k < |st.cells| {
          ReleaseStepKeepsInv(st, k, st.cells[k].(isRetired := true));
          CellWithinLimit(st, k, Retire(st.cells[k]));
        }
      case Upgrade => OutstandingSame(st, Next(st, step));
      case PeerScid(_) =>
    }
  }

  /** Against any peer, over every run: no more CIDs are outstanding than the limit allows. */
  lemma {:induction false} LimitHolds(st: Remote, steps: seq<Step>)
    requires WithinLimit(st) && forall step <- steps :: !step.SetLimit?
    ensures WithinLimit(Exec(st, steps)) && Exec(st, steps).limit == st.limit
    decreases |steps|
  {
    if steps != [] {
      LimitHolds(st, steps[..|steps| - 1]);
      NextWithinLimit(Exec(st, steps[..|steps| - 1]), steps[|steps| - 1]);
    }
  }
}
