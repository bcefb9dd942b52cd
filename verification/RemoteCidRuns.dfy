/** Whole runs of the remote connection-ID manager against an arbitrary peer and arbitrary paths. */
module RemoteCidRuns {
  import opened Basics
  import opened CidFrames
  import opened IndexDeques
  import opened RemoteCidModel

  datatype Step =
    | PeerScid(scid: ConnectionId)
    | SetLimit(limit: nat)
    | Upgrade
    | NewCid(frame: NewCidFrame)
    | OpenPath(isUsing: bool)
    | BorrowCid(k: nat)
    | RefreshCid(k: nat)
    | ClosePath(k: nat)

  /** A cell operation that gives up only what it emits keeps the manager's invariant. */
  lemma CellStepKeepsInv(st: Remote, k: nat, effect: CellEffect)
    requires Inv(st) && k < |st.cells|
    requires forall x: nat :: Count(Sequences(effect.cell.held), x) + Count(effect.emitted, x)
                           == Count(Sequences(st.cells[k].held), x)
    requires CellTidy(effect.cell)
    requires st.cells[k].isRetired ==> effect.cell.isRetired
    requires !effect.cell.isRetired ==> st.cells[k].held != [] ==> effect.cell.held != [] && effect.cell.held[0] == st.cells[k].held[0]
    ensures Inv(WithCell(st, k, effect))
  {
    var next := WithCell(st, k, effect);
    forall x: nat ensures HeldCount(next.cells, x) + Count(next.retired, x) == if x < st.cursor then 1 else 0 {
      WithCellConserves(st, k, effect, x);
    }
    assert Queue(next) == Queue(st);
  }

  lemma ReleaseStepKeepsInv(st: Remote, k: nat, c: Cell)
    requires Inv(st) && k < |st.cells|
    requires c.held == st.cells[k].held && (st.cells[k].isRetired ==> c.isRetired)
    ensures Inv(WithCell(st, k, Release(c)))
  {
    forall x: nat ensures Count(Sequences(Release(c).cell.held), x) + Count(Release(c).emitted, x)
                       == Count(Sequences(st.cells[k].held), x)
    {
      ReleaseConserves(c, x);
    }
    CellStepKeepsInv(st, k, Release(c));
  }

  lemma BorrowStepKeepsInv(st: Remote, k: nat)
    requires Inv(st) && k < |st.cells|
    ensures Inv(WithCell(st, k, CellEffect(Borrow(st.cells[k]), [])))
  {
    CellStepKeepsInv(st, k, CellEffect(Borrow(st.cells[k]), []));
  }

  /** A step that is not enabled in `st` leaves it unchanged. */
  function Next(st: Remote, step: Step): (next: Remote)
    requires Inv(st)
    ensures Inv(next)
  {
    match step
    case PeerScid(scid) =>
      if st.stage.AwaitingPeer? && st.cids.offset != 0 then st
      else OnReceiveFromKeepsInv(st, scid); OnReceiveFrom(st, scid)
    case SetLimit(limit) =>
      st.(limit := Some(limit))
    case Upgrade =>
      if st.stage.Handshake? then st.(stage := Allocate) else st
    case NewCid(frame) =>
      if st.limit.Some? && frame.Parsed() && RecvNewCid(st, frame).Accepted? then
        TakeInKeepsInv(st, frame); RecvNewCid(st, frame).next
      else st
    case OpenPath(isUsing) =>
      AllocateKeepsInv(st, isUsing);
      ArrangeKeepsInv(Enqueue(st, isUsing));
      AllocateCell(st, isUsing)
    case BorrowCid(k) =>
      if k < |st.cells| then BorrowStepKeepsInv(st, k); WithCell(st, k, CellEffect(Borrow(st.cells[k]), [])) else st
    case RefreshCid(k) =>
      if k < |st.cells| then
        ReleaseStepKeepsInv(st, k, st.cells[k].(isUsing := false)); WithCell(st, k, Refresh(st.cells[k]))
      else st
    case ClosePath(k) =>
      if k < |st.cells| then
        ReleaseStepKeepsInv(st, k, st.cells[k].(isRetired := true)); WithCell(st, k, Retire(st.cells[k]))
      else st
  }

  lemma TakeInKeepsInv(st: Remote, frame: NewCidFrame)
    requires Inv(st) && frame.Parsed() && st.cids.offset <= frame.sequence
    ensures Inv(TakeIn(st, frame))
  {
    StoreKeepsInv(st, frame);
    RetirePriorToKeepsInv(Store(st, frame), frame.retirePriorTo);
    ArrangeKeepsInv(RetirePriorTo(Store(st, frame), frame.retirePriorTo));
  }

  lemma OnReceiveFromKeepsInv(st: Remote, scid: ConnectionId)
    requires Inv(st) && (st.stage.AwaitingPeer? ==> st.cids.offset == 0)
    ensures Inv(OnReceiveFrom(st, scid))
  {
    if st.stage.AwaitingPeer? {
      StoreKeepsInv(st, NewCidFrame(0, 0, scid, []));
      ArrangeKeepsInv(Store(st, NewCidFrame(0, 0, scid, [])).(stage := Handshake));
    }
  }

  function Exec(st: Remote, steps: seq<Step>): (end: Remote)
    requires Inv(st)
    ensures Inv(end)
    decreases |steps|
  {
    if steps == [] then st else Next(Exec(st, steps[..|steps| - 1]), steps[|steps| - 1])
  }

  lemma FreshInv(st: Remote)
    requires st.ready == Empty() && st.pending == [] && st.cursor == 0 && st.cells == [] && st.retired == []
    requires st.cids == Empty() || exists e: Entry :: e.sequence == 0 && st.cids == IndexDeque(0, [Some(e)])
    ensures Inv(st)
  {
    assert Queue(st) == [];
  }

  // ---------------------------------------------------------------- the RETIRE ledger

  ghost predicate SoleHolder(st: Remote, k: nat, x: nat) {
    && k < |st.cells| && Count(Sequences(st.cells[k].held), x) == 1
    && forall j :: 0 <= j < |st.cells| && j != k ==> !Holds(st.cells[j], x)
  }

  /** `x` is in one cell and was never retired, or in no cell and was retired once. */
  ghost predicate AccountedOnce(st: Remote, x: nat) {
    || (x !in st.retired && exists k: nat :: SoleHolder(st, k, x))
    || (Count(st.retired, x) == 1 && forall k :: 0 <= k < |st.cells| ==> !Holds(st.cells[k], x))
  }

  ghost predicate Untouched(st: Remote, x: nat) {
    x !in st.retired && forall k :: 0 <= k < |st.cells| ==> !Holds(st.cells[k], x)
  }

  lemma {:induction false} HeldCountNone(cells: seq<Cell>, x: nat)
    requires forall k :: 0 <= k < |cells| ==> !Holds(cells[k], x)
    ensures HeldCount(cells, x) == 0
    decreases |cells|
  {
    if cells != [] {
      var n := |cells| - 1;
      CountMember(Sequences(cells[n].held), x);
      forall k | 0 <= k < n ensures !Holds(cells[..n][k], x) { assert cells[..n][k] == cells[k]; }
      HeldCountNone(cells[..n], x);
    }
  }

  lemma {:induction false} HeldCountOne(cells: seq<Cell>, x: nat) returns (k: nat)
    requires HeldCount(cells, x) == 1
    ensures k < |cells| && Count(Sequences(cells[k].held), x) == 1
    ensures forall j :: 0 <= j < |cells| && j != k ==> !Holds(cells[j], x)
    decreases |cells|
  {
    var n := |cells| - 1;
    CountMember(Sequences(cells[n].held), x);
    if HeldCount(cells[..n], x) == 1 {
      k := HeldCountOne(cells[..n], x);
      forall j | 0 <= j < n && j != k ensures !Holds(cells[j], x) { assert cells[..n][j] == cells[j]; }
    } else {
      k := n;
      forall j | 0 <= j < n ensures !Holds(cells[j], x) {
        if Holds(cells[j], x) {
          assert cells[..n][j] == cells[j];
          HeldMember(cells[..n], j, x);
        }
      }
    }
  }

  /** Over every run, the sequences below the cursor are accounted for exactly once and no other is touched. */
  lemma RetireLedger(st: Remote, steps: seq<Step>, x: nat)
    requires Inv(st)
    ensures x < Exec(st, steps).cursor ==> AccountedOnce(Exec(st, steps), x)
    ensures x >= Exec(st, steps).cursor ==> Untouched(Exec(st, steps), x)
  {
    var end := Exec(st, steps);
    CountMember(end.retired, x);
    assert HeldCount(end.cells, x) + Count(end.retired, x) == if x < end.cursor then 1 else 0;
    if HeldCount(end.cells, x) == 1 {
      var k := HeldCountOne(end.cells, x);
      assert SoleHolder(end, k, x);
    } else {
      forall k | 0 <= k < |end.cells| ensures !Holds(end.cells[k], x) {
        if Holds(end.cells[k], x) { HeldMember(end.cells, k, x); }
      }
    }
  }

  // ---------------------------------------------------------------- borrowed CIDs

  /** From `st` on, cell `k` may take up more CIDs but loses none and stays borrowed. */
  ghost predicate Pinned(st: Remote, next: Remote, k: nat) {
    && k < |st.cells| && k < |next.cells|
    && next.cells[k].isUsing
    && forall x: nat :: Holds(st.cells[k], x) ==> Holds(next.cells[k], x)
  }

  lemma {:induction false} ArrangePins(st: Remote, k: nat)
    requires Core(st) && k < |st.cells| && st.cells[k].isUsing
    ensures Pinned(st, Arrange(st), k)
    decreases |st.pending|
  {
    if st.pending != [] {
      if st.cells[st.pending[0]].isRetired {
        DropRetiredKeepsInv(st);
        ArrangePins(st.(pending := st.pending[1..]), k);
      } else if NextCid(st).Some? {
        GiveKeepsInv(st);
        GivePins(st, k);
        ArrangePins(Give(st), k);
      }
    }
  }

  lemma GivePins(st: Remote, k: nat)
    requires Core(st) && st.pending != [] && NextCid(st).Some? && k < |st.cells| && st.cells[k].isUsing
    ensures Pinned(st, Give(st), k)
  {
    var next := Give(st);
    if k == st.pending[0] {
      assert Sequences(next.cells[k].held) == [NextCid(st).value.sequence] + Sequences(st.cells[k].held);
    }
  }

  lemma PeerScidPins(st: Remote, scid: ConnectionId, k: nat)
    requires Inv(st) && k < |st.cells| && st.cells[k].isUsing && st.stage.AwaitingPeer? && st.cids.offset == 0
    ensures Pinned(st, OnReceiveFrom(st, scid), k)
  {
    var stored := Store(st, NewCidFrame(0, 0, scid, [])).(stage := Handshake);
    StoreKeepsInv(st, NewCidFrame(0, 0, scid, []));
    ArrangePins(stored, k);
  }

  lemma NewCidPins(st: Remote, frame: NewCidFrame, k: nat)
    requires Inv(st) && k < |st.cells| && st.cells[k].isUsing && frame.Parsed() && st.cids.offset <= frame.sequence
    ensures Pinned(st, TakeIn(st, frame), k)
  {
    StoreKeepsInv(st, frame);
    RetirePriorToKeepsInv(Store(st, frame), frame.retirePriorTo);
    ArrangePins(RetirePriorTo(Store(st, frame), frame.retirePriorTo), k);
  }

  lemma OpenPathPins(st: Remote, isUsing: bool, k: nat)
    requires Inv(st) && k < |st.cells| && st.cells[k].isUsing
    ensures Pinned(st, AllocateCell(st, isUsing), k)
  {
    AllocateKeepsInv(st, isUsing);
    ArrangePins(Enqueue(st, isUsing), k);
  }

  lemma NextPins(st: Remote, step: Step, k: nat)
    requires Inv(st) && k < |st.cells| && st.cells[k].isUsing && step != RefreshCid(k)
    ensures Pinned(st, Next(st, step), k)
  {
    match step {
      case PeerScid(scid) => if st.stage.AwaitingPeer? && st.cids.offset == 0 { PeerScidPins(st, scid, k); }
      case NewCid(frame) =>
        if st.limit.Some? && frame.Parsed() && RecvNewCid(st, frame).Accepted? { NewCidPins(st, frame, k); }
      case OpenPath(isUsing) => OpenPathPins(st, isUsing, k);
      case _ =>
    }
  }

  /**
   Between a borrow and the next refresh of the same cell, no sequence the cell holds is retired,
   whatever frames arrive and whichever paths close, its own included.
   */
  lemma {:induction false} BorrowedCidIsPinned(st: Remote, steps: seq<Step>, k: nat, x: nat)
    requires Inv(st) && k < |st.cells| && st.cells[k].isUsing && Holds(st.cells[k], x)
    requires RefreshCid(k) !in steps
    ensures k < |Exec(st, steps).cells| && Exec(st, steps).cells[k].isUsing
    ensures Holds(Exec(st, steps).cells[k], x) && x !in Exec(st, steps).retired
    decreases |steps|
  {
    var end := Exec(st, steps);
    if steps != [] {
      var n := |steps| - 1;
      assert steps[n] in steps;
      BorrowedCidIsPinned(st, steps[..n], k, x);
      NextPins(Exec(st, steps[..n]), steps[n], k);
    }
    HeldMember(end.cells, k, x);
    CountMember(end.retired, x);
  }

  // ---------------------------------------------------------------- alignment

  /** Cell `k` currently uses the received sequence `s`. */
  predicate ServedBy(st: Remote, k: nat, s: nat)
    requires k < |st.cells|
  {
    st.ready.Get(s) == Some(k) && st.cells[k].held != [] && st.cells[k].held[0].0 == s && Received(st, s)
  }

  lemma LiveCellIsServed(st: Remote, k: nat)
    requires Inv(st) && k < |st.cells| && !st.cells[k].isRetired
    ensures (exists s: nat :: ServedBy(st, k, s)) || (k in st.pending && NextCid(st).None?)
  {
    assert k in Queue(st);
    if k !in st.pending {
      var i :| 0 <= i < |st.ready.items| && st.ready.items[i] == k;
      assert ServedBy(st, k, st.ready.offset + i);
    }
  }

  /** A live path's current CID sits at that path's index; a path waits only while there is no CID to give. */
  lemma LivePathsAreServed(st: Remote, steps: seq<Step>, k: nat)
    requires Inv(st) && k < |Exec(st, steps).cells| && !Exec(st, steps).cells[k].isRetired
    ensures var end := Exec(st, steps);
            (exists s: nat :: ServedBy(end, k, s)) || (k in end.pending && NextCid(end).None?)
  {
    LiveCellIsServed(Exec(st, steps), k);
  }
}
