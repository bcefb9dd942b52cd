/** Once the network is quiet, the issuer's active CIDs are enough for as many paths. */
module CidProgress {
  import opened Basics
  import opened CidFrames
  import opened IndexDeques
  import opened CidProtocol
  import L = LocalCidModel
  import R = RemoteCidModel
  import Runs = RemoteCidRuns

  /** Every issued CID has arrived, every retirement was answered, and no path is in the middle of a batch. */
  ghost predicate Quiescent(sys: System) {
    && (forall s: nat :: s <= |sys.local.sent| ==> s < sys.remote.cids.offset || R.Received(sys.remote, s))
    && (forall j :: 0 <= j < |sys.remote.retired| ==> sys.remote.retired[j] !in L.Active(sys.local))
    && (forall k :: 0 <= k < |sys.remote.cells| ==> !sys.remote.cells[k].isUsing)
  }

  predicate Serves(c: R.Cell, x: nat) { !c.isRetired && |c.held| == 1 && c.held[0].0 == x }

  function LiveCells(r: R.Remote): set<nat> { set k | 0 <= k < |r.cells| && !r.cells[k].isRetired }

  /** If each of `xs` is served by one of the cells `ks`, there are at least as many cells. */
  lemma {:induction false} Pigeonhole(xs: set<nat>, ks: set<nat>, cells: seq<R.Cell>)
    requires forall k <- ks :: k < |cells|
    requires forall x <- xs :: exists k :: k in ks && Serves(cells[k], x)
    ensures |xs| <= |ks|
    decreases |xs|
  {
    if xs != {} {
      var x :| x in xs;
      var k :| k in ks && Serves(cells[k], x);
      forall y <- xs - {x} ensures exists j :: j in ks - {k} && Serves(cells[j], y) {
        var j :| j in ks && Serves(cells[j], y);
        assert j in ks - {k};
      }
      Pigeonhole(xs - {x}, ks - {k}, cells);
    }
  }

  /** An active CID below the cursor is in some cell; at quiescence that cell belongs to a live path. */
  lemma ActiveIsServed(sys: System, x: nat) returns (k: nat)
    requires Inv(sys) && Quiescent(sys) && x in L.Active(sys.local) && x < sys.remote.cursor
    ensures k < |sys.remote.cells| && Serves(sys.remote.cells[k], x)
  {
    var r := sys.remote;
    R.CountMember(r.retired, x);
    assert R.HeldCount(r.cells, x) + Count(r.retired, x) == 1;
    k := Runs.HeldCountOne(r.cells, x);
    R.CountMember(R.Sequences(r.cells[k].held), x);
    assert R.CellTidy(r.cells[k]);
  }

  /** While some path waits, every issued CID has been handed out. */
  lemma WaitingMeansExhausted(sys: System)
    requires Inv(sys) && Quiescent(sys) && sys.remote.pending != []
    ensures sys.remote.cursor == sys.local.cids.Largest()
  {
    assert !R.Received(sys.remote, sys.remote.cursor);
    assert sys.remote.cursor <= |sys.local.sent| + 1;
  }

  /**
   No starvation: at quiescence, if there are no more live paths than CIDs active at the issuer, every
   live path has one.
   */
  lemma EveryLivePathHasCid(sys: System, steps: seq<Step>, k: nat)
    requires Inv(sys) && Quiescent(Exec(sys, steps))
    requires k < |Exec(sys, steps).remote.cells| && !Exec(sys, steps).remote.cells[k].isRetired
    requires |LiveCells(Exec(sys, steps).remote)| <= |L.Active(Exec(sys, steps).local)|
    ensures Exec(sys, steps).remote.cells[k].held != []
  {
    ServedAtQuiescence(Exec(sys, steps), k);
  }

  lemma ServedAtQuiescence(sys: System, k: nat)
    requires Inv(sys) && Quiescent(sys) && k < |sys.remote.cells| && !sys.remote.cells[k].isRetired
    requires |LiveCells(sys.remote)| <= |L.Active(sys.local)|
    ensures sys.remote.cells[k].held != []
  {
    var r := sys.remote;
    assert k in LiveCells(r);
    if r.cells[k].held == [] {
      Runs.LiveCellIsServed(r, k);
      WaitingMeansExhausted(sys);
      var others := LiveCells(r) - {k};
      forall x <- L.Active(sys.local) ensures exists j :: j in others && Serves(r.cells[j], x) {
        var j := ActiveIsServed(sys, x);
        assert j in others;
      }
      Pigeonhole(L.Active(sys.local), others, r.cells);
    }
  }
}
