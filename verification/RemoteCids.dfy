/** The remote connection-ID manager and its path cells, updated in place. */
module RemoteCids {
  import opened Basics
  import opened CidFrames
  import opened IndexDeques
  import M = RemoteCidModel

  /** RETIRE_CONNECTION_ID frames handed over for sending; shared by the manager and all its cells. */
  class RetireQueue {
    var frames: seq<nat>

    constructor ()
      ensures frames == []
    {
      frames := [];
    }

    method Send(sequence: nat)
      modifies this
      ensures frames == old(frames) + [sequence]
    {
      frames := frames + [sequence];
    }
  }

  class CidCell {
    const retired: RetireQueue
    ghost const id: nat
    var held: seq<(nat, ConnectionId)>
    var isRetired: bool
    var isUsing: bool

    ghost function View(): M.Cell
      reads this
    {
      M.Cell(held, isRetired, isUsing)
    }

    constructor (retired: RetireQueue, isUsing: bool, ghost id: nat)
      ensures this.retired == retired && this.id == id && View() == M.Cell([], false, isUsing)
    {
      this.retired := retired;
      this.id := id;
      this.held := [];
      this.isRetired := false;
      this.isUsing := isUsing;
    }

    method ReleaseRetiredCids()
      modifies this`held, retired
      ensures View() == M.Release(old(View())).cell
      ensures retired.frames == old(retired.frames) + M.Release(old(View())).emitted
    {
      if isUsing { return; }
      var keep := if isRetired then 0 else 1;
      while |held| > keep
        invariant |held| >= keep || held == old(held)
        invariant held <= old(held)
        invariant retired.frames == old(retired.frames) + M.Reversed(M.Sequences(old(held)[|held|..]))
      {
        var (sequence, _) := held[|held| - 1];
        ghost var tail := old(held)[|held|..];
        held := held[..|held| - 1];
        assert old(held)[|held|..] == [old(held)[|held|]] + tail;
        assert M.Reversed(M.Sequences(old(held)[|held|..])) == M.Reversed(M.Sequences(tail)) + [sequence];
        retired.Send(sequence);
      }
      assert held == old(held)[..|held|];
    }

    method Assign(sequence: nat, cid: ConnectionId)
      requires !isRetired
      modifies this`held, retired
      ensures View() == M.Assign(old(View()), sequence, cid).cell
      ensures retired.frames == old(retired.frames) + M.Assign(old(View()), sequence, cid).emitted
    {
      held := [(sequence, cid)] + held;
      ReleaseRetiredCids();
    }

    method PollBorrow() returns (loan: M.Loan)
      modifies this`isUsing
      ensures loan == M.LoanOf(old(View())) && View() == M.Borrow(old(View()))
    {
      if isRetired { return M.Ended; }
      if held == [] { return M.Waiting; }
      isUsing := true;
      loan := M.Lent(held[0].1);
    }

    method Refresh()
      modifies this, retired
      ensures View() == M.Refresh(old(View())).cell
      ensures retired.frames == old(retired.frames) + M.Refresh(old(View())).emitted
    {
      isUsing := false;
      ReleaseRetiredCids();
    }

    method Retire()
      modifies this, retired
      ensures View() == M.Retire(old(View())).cell
      ensures retired.frames == old(retired.frames) + M.Retire(old(View())).emitted
    {
      isRetired := true;
      ReleaseRetiredCids();
    }
  }

  ghost function Views(cells: seq<CidCell>): (views: seq<M.Cell>)
    reads cells
    ensures |views| == |cells| && forall i :: 0 <= i < |cells| ==> views[i] == cells[i].View()
  {
    if cells == [] then [] else Views(cells[..|cells| - 1]) + [cells[|cells| - 1].View()]
  }

  /** Shared cell references are positions in `cells`, which lists every cell ever handed out. */
  class RemoteCids {
    const retired: RetireQueue
    var stage: M.Stage
    var cids: IndexDeque<Option<M.Entry>>
    var ready: IndexDeque<nat>
    var pending: seq<nat>
    var limit: Option<nat>
    var cursor: nat
    var cells: seq<CidCell>

    ghost function View(): M.Remote
      reads this, cells, retired
    {
      M.Remote(stage, cids, ready, pending, limit, cursor, Views(cells), retired.frames)
    }

    ghost predicate Shape()
      reads this
    {
      forall i :: 0 <= i < |cells| ==> cells[i].id == i && cells[i].retired == retired
    }

    ghost predicate Valid()
      reads this, cells, retired
    {
      Shape() && M.Coherent(View())
    }

    constructor Client(retired: RetireQueue)
      requires retired.frames == []
      ensures Valid() && this.retired == retired && View() == M.Client()
    {
      this.retired := retired;
      stage, cids, ready, pending, limit, cursor, cells := M.AwaitingPeer, Empty(), Empty(), [], None, 0, [];
    }

    constructor Server(clientScid: ConnectionId, retired: RetireQueue)
      requires retired.frames == []
      ensures Valid() && this.retired == retired && View() == M.Server(clientScid)
    {
      this.retired := retired;
      stage, cids := M.Handshake, IndexDeque(0, [Some(M.Entry(0, clientScid, []))]);
      ready, pending, limit, cursor, cells := Empty(), [], None, 0, [];
    }

    /** Assign received CIDs to waiting cells, dropping cells whose path has closed. */
    method ArrangeIdleCid()
      requires Valid()
      modifies this`ready, this`pending, this`cursor, cells, retired
      ensures Valid() && View() == M.Arrange(old(View()))
    {
      while pending != []
        invariant M.Coherent(View())
        invariant M.Arrange(View()) == M.Arrange(old(View()))
        decreases |pending|
      {
        if cells[pending[0]].isRetired {
          pending := pending[1..];
        } else {
          match cids.Get(cursor)
          case Some(Some(entry)) => Give(entry);
          case _ => break;
        }
      }
    }

    /** The first waiting cell takes the CID at the cursor. */
    method Give(entry: M.Entry)
      requires Valid()
      requires pending != [] && !cells[pending[0]].isRetired && M.NextCid(View()) == Some(entry)
      modifies this`ready, this`pending, this`cursor, cells, retired
      ensures View() == M.Give(old(View()))
    {
      var k := pending[0];
      AssignTo(k, entry);
      pending := pending[1..];
      ready := ready.PushBack(k);
      cursor := cursor + 1;
    }

    method AssignTo(k: nat, entry: M.Entry)
      requires Shape() && k < |cells| && !cells[k].isRetired
      modifies cells, retired
      ensures View() == M.WithCell(old(View()), k, M.Assign(old(View()).cells[k], entry.sequence, entry.cid))
    {
      ghost var before := Views(cells);
      cells[k].Assign(entry.sequence, entry.cid);
      assert Views(cells) == before[k := cells[k].View()];
    }

    method RetirePriorTo(tomb: nat)
      requires Valid() && tomb <= cids.Largest()
      modifies this`cids, this`ready, this`pending, this`cursor, retired
      ensures Valid() && View() == M.RetirePriorTo(old(View()), tomb)
    {
      if tomb <= ready.offset { return; }
      Shift(Min(cursor, tomb));
      if cursor < tomb { Jump(tomb); }
    }

    /** Move the cells assigned below `bound` to the end of the waiting queue. */
    method Shift(bound: nat)
      requires Valid() && ready.offset <= bound <= cursor
      modifies this`cids, this`ready, this`pending
      ensures Valid() && View() == M.Shift(old(View()), bound)
    {
      ghost var before, views := View(), Views(cells);
      cids := cids.DrainTo(bound);
      PopAssigned(bound, views);
      assert View() == before.(cids := cids, ready := ready, pending := pending);
      assert View() == M.Shift(before, bound);
    }

    method PopAssigned(bound: nat, ghost views: seq<M.Cell>)
      requires Shape() && views == Views(cells) && M.Below(ready.items, |cells|)
      requires ready.offset <= bound <= ready.Largest()
      modifies this`ready, this`pending
      ensures ready == old(ready).DrainTo(bound)
      ensures pending == old(pending) + M.Live(views, old(ready.items)[..bound - old(ready.offset)])
    {
      ghost var items, n := ready.items, 0;
      while ready.offset < bound
        invariant 0 <= n <= |items| && ready == IndexDeque(old(ready.offset) + n, items[n..]) && ready.offset <= bound
        invariant pending == old(pending) + M.Live(views, items[..n])
      {
        var k := ready.items[0];
        assert items[n..][1..] == items[n + 1..];
        ready := ready.Advance(1);
        assert items[..n + 1] == items[..n] + [k];
        M.LiveAppend(views, items[..n], k);
        if !cells[k].isRetired {
          pending := pending + [k];
        }
        n := n + 1;
      }
    }

    /** The boundary jumps over CIDs that no cell has taken; they are retired at once. */
    method Jump(tomb: nat)
      requires Valid() && ready.items == [] && cursor <= tomb <= cids.Largest()
      modifies this`cids, this`ready, this`cursor, retired
      ensures Valid() && View() == M.Jump(old(View()), tomb)
    {
      cids := cids.DrainTo(tomb);
      ready := ready.ResetOffset(tomb);
      while cursor < tomb
        invariant old(cursor) <= cursor <= tomb && cids == old(cids).DrainTo(tomb) && ready == old(ready).ResetOffset(tomb)
        invariant retired.frames == old(retired.frames) + M.Range(old(cursor), cursor)
      {
        retired.Send(cursor);
        cursor := cursor + 1;
      }
    }

    method SetLimit(activeCidLimit: nat)
      requires Valid()
      modifies this`limit
      ensures Valid() && View() == old(View()).(limit := Some(activeCidLimit))
    {
      limit := Some(activeCidLimit);
    }

    /** Future paths allocate their own cell; asserts that the peer's source CID is known. */
    method Upgrade()
      requires Valid() && !stage.AwaitingPeer?
      modifies this`stage
      ensures Valid() && View() == old(View()).(stage := M.Allocate)
    {
      if stage.Handshake? { stage := M.Allocate; }
    }

    method OnReceiveFrom(peerScid: ConnectionId) returns (first: bool)
      requires Valid() && (stage.AwaitingPeer? ==> cids.offset == 0)
      modifies this, cells, retired
      ensures Valid() && first == old(stage).AwaitingPeer?
      ensures View() == M.OnReceiveFrom(old(View()), peerScid)
    {
      first := stage.AwaitingPeer?;
      if first {
        ghost var stored := M.Store(View(), NewCidFrame(0, 0, peerScid, [])).(stage := M.Handshake);
        stage := M.Handshake;
        cids := cids.Insert(0, Some(M.Entry(0, peerScid, [])), None);
        assert View() == stored;
        ArrangeIdleCid();
      }
    }

    /** The number of received CIDs, above the frame's boundary, whose path has not closed. */
    method CountActive(retirePriorTo: nat) returns (count: nat)
      requires Valid()
      ensures count == |M.CountedSet(View(), retirePriorTo)|
    {
      count := 0;
      ghost var st, seen: set<nat> := View(), {};
      for i := 0 to |cids.items|
        invariant count == |seen|
        invariant forall s: nat :: s in seen <==> st.cids.offset <= s < st.cids.offset + i && M.Counted(st, s, retirePriorTo)
      {
        var sequence := cids.offset + i;
        var closed := ready.Contains(sequence) && cells[ready.items[sequence - ready.offset]].isRetired;
        if cids.items[i].Some? && retirePriorTo <= sequence && !closed {
          seen := seen + {sequence};
          count := count + 1;
        }
      }
      assert seen == M.CountedSet(st, retirePriorTo);
    }

    method RecvNewCidFrame(frame: NewCidFrame) returns (outcome: Result<Option<ResetToken>, nat>)
      requires Valid() && limit.Some? && frame.Parsed()
      modifies this`cids, this`ready, this`pending, this`cursor, cells, retired
      ensures Valid()
      ensures match M.RecvNewCid(old(View()), frame)
              case Discarded => outcome == Ok(None) && View() == old(View())
              case LimitExceeded(count) => outcome == Err(count) && View() == old(View())
              case Accepted(next, token) => outcome == Ok(Some(token)) && View() == next
    {
      if frame.sequence < cids.offset { return Ok(None); }
      var count := CountActive(frame.retirePriorTo);
      var known := cids.Get(frame.sequence).Some? && cids.Get(frame.sequence).value.Some?;
      var activeLen := count + if known then 0 else 1;
      if activeLen > limit.value { return Err(activeLen); }
      TakeIn(frame);
      outcome := Ok(Some(frame.token));
    }

    method TakeIn(frame: NewCidFrame)
      requires Valid() && frame.Parsed() && cids.offset <= frame.sequence
      modifies this`cids, this`ready, this`pending, this`cursor, cells, retired
      ensures Valid() && View() == M.TakeIn(old(View()), frame)
    {
      ghost var stored := M.Store(View(), frame);
      cids := cids.Insert(frame.sequence, Some(M.Entry(frame.sequence, frame.cid, frame.token)), None);
      assert View() == stored;
      RetirePriorTo(frame.retirePriorTo);
      ArrangeIdleCid();
    }

    method AllocateCell(isUsing: bool) returns (cell: CidCell)
      requires Valid()
      modifies this`ready, this`pending, this`cursor, this`cells, cells, retired
      ensures Valid() && View() == M.AllocateCell(old(View()), isUsing)
      ensures |cells| == old(|cells|) + 1 && cell == cells[old(|cells|)]
    {
      ghost var queued := M.Enqueue(View(), isUsing);
      cell := new CidCell(retired, isUsing, |cells|);
      pending := pending + [|cells|];
      cells := cells + [cell];
      assert View() == queued;
      ArrangeIdleCid();
    }

    // A path reaches its cell directly; these say what that means for the manager.

    method BorrowOn(k: nat) returns (loan: M.Loan)
      requires Valid() && k < |cells|
      modifies cells
      ensures Valid() && loan == M.LoanOf(old(View()).cells[k])
      ensures View() == M.WithCell(old(View()), k, M.CellEffect(M.Borrow(old(View()).cells[k]), []))
    {
      ghost var before := Views(cells);
      loan := cells[k].PollBorrow();
      assert Views(cells) == before[k := cells[k].View()];
    }

    method RefreshOn(k: nat)
      requires Valid() && k < |cells|
      modifies cells, retired
      ensures Valid() && View() == M.WithCell(old(View()), k, M.Refresh(old(View()).cells[k]))
    {
      ghost var before := Views(cells);
      cells[k].Refresh();
      assert Views(cells) == before[k := cells[k].View()];
    }

    method RetireOn(k: nat)
      requires Valid() && k < |cells|
      modifies cells, retired
      ensures Valid() && View() == M.WithCell(old(View()), k, M.Retire(old(View()).cells[k]))
    {
      ghost var before := Views(cells);
      cells[k].Retire();
      assert Views(cells) == before[k := cells[k].View()];
    }
  }
}
