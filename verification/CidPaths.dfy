/** What a path gets from its CID cell: when it opens, borrows, refreshes and closes. */
module CidPaths {
  import opened Basics
  import opened CidFrames
  import opened IndexDeques
  import opened RemoteCidModel
  import opened RemoteCidRuns
  import B = CidBoundary

  predicate Newest(c: Cell, i: nat) { i < |c.held| && forall j :: 0 <= j < |c.held| ==> c.held[j].0 <= c.held[i].0 }

  /** A closed path gets nothing, a path without a CID waits, and any other is lent its newest CID. */
  lemma LoanIsNewest(st: Remote, k: nat)
    requires Inv(st) && k < |st.cells|
    ensures var c := st.cells[k];
            && (c.isRetired ==> LoanOf(c) == Ended)
            && (!c.isRetired && c.held == [] ==> LoanOf(c) == Waiting)
            && (!c.isRetired && c.held != [] ==> exists i: nat :: Newest(c, i) && LoanOf(c) == Lent(c.held[i].1))
  {
    assert CellTidy(st.cells[k]);
    if !st.cells[k].isRetired && st.cells[k].held != [] { assert Newest(st.cells[k], 0); }
  }

  /** What was lent stays with the path, unretired, over every run up to its next refresh. */
  lemma LentUntilRefresh(st: Remote, k: nat, steps: seq<Step>, i: nat)
    requires Inv(st) && k < |st.cells| && !st.cells[k].isRetired && i < |st.cells[k].held|
    requires RefreshCid(k) !in steps
    ensures var end := Exec(Next(st, BorrowCid(k)), steps);
            && k < |end.cells| && Holds(end.cells[k], st.cells[k].held[i].0)
            && st.cells[k].held[i].0 !in end.retired
  {
    var lent := Next(st, BorrowCid(k));
    assert lent.cells[k] == st.cells[k].(isUsing := true);
    assert Sequences(lent.cells[k].held)[i] == st.cells[k].held[i].0;
    BorrowedCidIsPinned(lent, steps, k, st.cells[k].held[i].0);
  }

  predicate Ascending(s: seq<nat>) { forall i, j :: 0 <= i < j < |s| ==> s[i] < s[j] }

  /** `next` is `st` after cell `k` let everything go but its first `keep` CIDs, oldest first. */
  ghost predicate LetsGo(st: Remote, next: Remote, k: nat, keep: nat)
    requires k < |st.cells|
  {
    && |next.cells| == |st.cells| && (forall j :: 0 <= j < |st.cells| && j != k ==> next.cells[j] == st.cells[j])
    && next.cells[k].held == (if |st.cells[k].held| <= keep then st.cells[k].held else st.cells[k].held[..keep])
    && st.retired <= next.retired && Ascending(next.retired[|st.retired|..])
    && forall x: nat :: x in next.retired[|st.retired|..] <==> Holds(st.cells[k], x) && !Holds(next.cells[k], x)
  }

  predicate Descending(held: seq<(nat, ConnectionId)>) { forall i, j :: 0 <= i < j < |held| ==> held[i].0 > held[j].0 }

  lemma ReversedHas(s: seq<nat>, x: nat)
    ensures x in Reversed(s) <==> x in s
  {
    if x in s {
      var i :| 0 <= i < |s| && s[i] == x;
      assert Reversed(s)[|s| - 1 - i] == x;
    }
  }

  lemma ReversedAscends(held: seq<(nat, ConnectionId)>)
    requires Descending(held)
    ensures Ascending(Reversed(Sequences(held)))
  {
  }

  /** In descending order nothing before `keep` occurs again after it. */
  lemma SplitAt(held: seq<(nat, ConnectionId)>, keep: nat, x: nat)
    requires Descending(held) && keep <= |held|
    ensures x in Sequences(held[keep..]) <==> x in Sequences(held) && x !in Sequences(held[..keep])
  {
    var all, kept, gone := Sequences(held), Sequences(held[..keep]), Sequences(held[keep..]);
    assert all == kept + gone;
    forall i, j | 0 <= i < |kept| && 0 <= j < |gone| ensures kept[i] != gone[j] { assert held[i].0 > held[keep + j].0; }
  }

  lemma ReleaseEmits(c: Cell, keep: nat)
    requires !c.isUsing && keep == (if c.isRetired then 0 else 1) && Descending(c.held)
    ensures Release(c).cell == c.(held := if |c.held| <= keep then c.held else c.held[..keep])
    ensures Ascending(Release(c).emitted)
    ensures forall x: nat :: x in Release(c).emitted <==> Holds(c, x) && !Holds(Release(c).cell, x)
  {
    if |c.held| > keep {
      ReversedAscends(c.held[keep..]);
      forall x: nat ensures x in Release(c).emitted <==> Holds(c, x) && !Holds(Release(c).cell, x) {
        SplitAt(c.held, keep, x);
        ReversedHas(Sequences(c.held[keep..]), x);
      }
    }
  }

  lemma ReleaseLetsGo(st: Remote, k: nat, c: Cell)
    requires Inv(st) && k < |st.cells| && c.held == st.cells[k].held && !c.isUsing
    ensures LetsGo(st, WithCell(st, k, Release(c)), k, if c.isRetired then 0 else 1)
    ensures WithCell(st, k, Release(c)).cells[k].isRetired == c.isRetired && !WithCell(st, k, Release(c)).cells[k].isUsing
  {
    assert CellTidy(st.cells[k]);
    ReleaseEmits(c, if c.isRetired then 0 else 1);
    var next := WithCell(st, k, Release(c));
    assert next.retired[|st.retired|..] == Release(c).emitted;
  }

  /** At the end of a batch an open path keeps its newest CID and a closed one none; the rest is retired. */
  lemma RefreshLetsGo(st: Remote, k: nat)
    requires Inv(st) && k < |st.cells|
    ensures var next := Next(st, RefreshCid(k));
            && LetsGo(st, next, k, if st.cells[k].isRetired then 0 else 1)
            && !next.cells[k].isUsing && next.cells[k].isRetired == st.cells[k].isRetired
  {
    ReleaseLetsGo(st, k, st.cells[k].(isUsing := false));
  }

  /** A path that closes outside a batch lets everything go; within one it keeps all until the batch ends. */
  lemma CloseLetsGo(st: Remote, k: nat)
    requires Inv(st) && k < |st.cells|
    ensures var next := Next(st, ClosePath(k));
            && next.cells[k].isRetired && next.cells[k].isUsing == st.cells[k].isUsing
            && (!st.cells[k].isUsing ==> LetsGo(st, next, k, 0))
            && (st.cells[k].isUsing ==> next.cells[k].held == st.cells[k].held && next.retired == st.retired)
  {
    if !st.cells[k].isUsing { ReleaseLetsGo(st, k, st.cells[k].(isRetired := true)); }
  }

  // ---------------------------------------------------------------- opening, and the order of service

  lemma {:induction false} LiveConcat(cells: seq<Cell>, a: seq<nat>, b: seq<nat>)
    requires Below(a, |cells|) && Below(b, |cells|)
    ensures Below(a + b, |cells|) && Live(cells, a + b) == Live(cells, a) + Live(cells, b)
    decreases |b|
  {
    if b == [] {
      assert a + b == a;
    } else {
      assert (a + b)[..|a + b| - 1] == a + b[..|b| - 1];
      LiveConcat(cells, a, b[..|b| - 1]);
    }
  }

  lemma {:induction false} LiveSame(a: seq<Cell>, b: seq<Cell>, ks: seq<nat>)
    requires Below(ks, |a|) && |a| == |b| && forall k :: 0 <= k < |a| ==> a[k].isRetired == b[k].isRetired
    ensures Live(a, ks) == Live(b, ks)
    decreases |ks|
  {
    if ks != [] { LiveSame(a, b, ks[..|ks| - 1]); }
  }

  lemma LiveOne(cells: seq<Cell>, k: nat)
    requires k < |cells|
    ensures Live(cells, [k]) == if cells[k].isRetired then [] else [k]
  {
    assert [k][..0] == [];
  }

  /** Those served between `st` and `next`, followed by those left, are those that waited. */
  ghost predicate ServedInOrder(st: Remote, next: Remote) {
    && QueueInRange(st) && Below(next.pending, |st.cells|)
    && st.ready.items <= next.ready.items && next.ready.offset == st.ready.offset
    && Live(st.cells, st.pending) == next.ready.items[|st.ready.items|..] + Live(st.cells, next.pending)
  }

  lemma DropServes(st: Remote, next: Remote)
    requires QueueInRange(st) && st.pending != [] && st.cells[st.pending[0]].isRetired
    requires ServedInOrder(st.(pending := st.pending[1..]), next)
    ensures ServedInOrder(st, next)
  {
    assert st.pending == [st.pending[0]] + st.pending[1..];
    LiveConcat(st.cells, [st.pending[0]], st.pending[1..]);
    LiveOne(st.cells, st.pending[0]);
    assert [] + Live(st.cells, st.pending[1..]) == Live(st.cells, st.pending[1..]);
  }

  lemma GiveServes(st: Remote, next: Remote)
    requires Coherent(st) && st.pending != [] && !st.cells[st.pending[0]].isRetired && NextCid(st).Some?
    requires ServedInOrder(Give(st), next)
    ensures ServedInOrder(st, next)
  {
    var k, rest, n := st.pending[0], st.pending[1..], |st.ready.items|;
    assert st.pending == [k] + rest;
    LiveConcat(st.cells, [k], rest);
    LiveOne(st.cells, k);
    LiveSame(st.cells, Give(st).cells, rest);
    LiveSame(st.cells, Give(st).cells, next.pending);
    assert Give(st).ready.items == st.ready.items + [k];
    assert next.ready.items[n..] == [k] + next.ready.items[n + 1..];
    assert [k] + (next.ready.items[n + 1..] + Live(st.cells, next.pending))
        == ([k] + next.ready.items[n + 1..]) + Live(st.cells, next.pending);
  }

  /** Paths are served in the order in which they queued. */
  lemma {:induction false} FirstComeFirstServed(st: Remote)
    requires Core(st)
    ensures ServedInOrder(st, Arrange(st))
    decreases |st.pending|
  {
    assert st.ready.items[|st.ready.items|..] == [];
    if st.pending != [] {
      if st.cells[st.pending[0]].isRetired {
        DropRetiredKeepsInv(st);
        FirstComeFirstServed(st.(pending := st.pending[1..]));
        DropServes(st, Arrange(st));
      } else if NextCid(st).Some? {
        GiveKeepsInv(st);
        FirstComeFirstServed(Give(st));
        GiveServes(st, Arrange(st));
      }
    }
  }

  /** Moving the boundary queues the live paths assigned below it behind those that wait already, in order. */
  lemma RequeuedInOrder(st: Remote, tomb: nat)
    requires Coherent(st) && tomb <= st.cids.Largest()
    ensures var next, n := RetirePriorTo(st, tomb), Min(|st.ready.items|, SaturatingSub(tomb, st.ready.offset));
            && next.pending == st.pending + Live(st.cells, st.ready.items[..n])
            && next.ready.items == st.ready.items[n..]
  {
    assert st.ready.items[..0] == [] && st.ready.items[0..] == st.ready.items && st.pending + [] == st.pending;
    assert st.ready.items[..|st.ready.items|] == st.ready.items;
  }

  /** A new path is live, marked as asked, and queues last; all others keep their place and their marks. */
  lemma OpenPathActs(st: Remote, isUsing: bool)
    requires Inv(st)
    ensures var next, n := Next(st, OpenPath(isUsing)), |st.cells|;
            && |next.cells| == n + 1 && !next.cells[n].isRetired && next.cells[n].isUsing == isUsing
            && (forall k :: 0 <= k < n ==> next.cells[k].isRetired == st.cells[k].isRetired && next.cells[k].isUsing == st.cells[k].isUsing)
            && ServedInOrder(Enqueue(st, isUsing), next) && Enqueue(st, isUsing).pending == st.pending + [n]
  {
    AllocateKeepsInv(st, isUsing);
    FirstComeFirstServed(Enqueue(st, isUsing));
    MarksStay(Enqueue(st, isUsing));
  }

  lemma {:induction false} MarksStay(st: Remote)
    requires Core(st)
    ensures |Arrange(st).cells| == |st.cells|
    ensures forall k :: 0 <= k < |st.cells| ==>
              Arrange(st).cells[k].isRetired == st.cells[k].isRetired && Arrange(st).cells[k].isUsing == st.cells[k].isUsing
    decreases |st.pending|
  {
    if st.pending != [] {
      if st.cells[st.pending[0]].isRetired {
        DropRetiredKeepsInv(st);
        MarksStay(st.(pending := st.pending[1..]));
      } else if NextCid(st).Some? {
        GiveKeepsInv(st);
        MarksStay(Give(st));
      }
    }
  }

  // ---------------------------------------------------------------- the stages

  /** The peer's first source CID becomes sequence zero, the first time only. */
  lemma PeerScidActs(st: Remote, scid: ConnectionId)
    requires Inv(st)
    ensures !st.stage.AwaitingPeer? ==> Next(st, PeerScid(scid)) == st
    ensures st.stage.AwaitingPeer? && st.cids.offset == 0 ==>
              Next(st, PeerScid(scid)).stage == Handshake
              && Next(st, PeerScid(scid)).cids.Get(0) == Some(Some(Entry(0, scid, [])))
  {
    if st.stage.AwaitingPeer? && st.cids.offset == 0 {
      var stored := Store(st, NewCidFrame(0, 0, scid, [])).(stage := Handshake);
      StoreKeepsInv(st, NewCidFrame(0, 0, scid, []));
      B.ArrangeKeepsCids(stored);
    }
  }
}
