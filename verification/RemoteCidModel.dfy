/**
 The connection IDs a peer issued to us, as values: the deque of received CIDs, the per-path cells
 that hold them, and the log of RETIRE_CONNECTION_ID sequences emitted so far.
 */
module RemoteCidModel {
  import opened Basics
  import opened CidFrames
  import opened IndexDeques

  // ---------------------------------------------------------------- cells

  /** The CID cell of one path; `held` is ordered newest first. */
  datatype Cell = Cell(held: seq<(nat, ConnectionId)>, isRetired: bool, isUsing: bool)

  /** A cell after an operation, and the RETIRE sequences the operation emitted. */
  datatype CellEffect = CellEffect(cell: Cell, emitted: seq<nat>)

  function Sequences(held: seq<(nat, ConnectionId)>): (s: seq<nat>) {
    seq(|held|, i requires 0 <= i < |held| => held[i].0)
  }

  function Reversed(s: seq<nat>): (r: seq<nat>) {
    seq(|s|, i requires 0 <= i < |s| => s[|s| - 1 - i])
  }

  predicate Holds(c: Cell, s: nat) { s in Sequences(c.held) }

  /** Oldest CIDs leave first; a borrowed cell lets go of nothing. */
  function Release(c: Cell): CellEffect {
    var keep := if c.isRetired then 0 else 1;
    if c.isUsing || |c.held| <= keep then
      CellEffect(c, [])
    else
      CellEffect(c.(held := c.held[..keep]), Reversed(Sequences(c.held[keep..])))
  }

  function Assign(c: Cell, s: nat, cid: ConnectionId): CellEffect {
    Release(c.(held := [(s, cid)] + c.held))
  }

  function Refresh(c: Cell): CellEffect { Release(c.(isUsing := false)) }

  function Retire(c: Cell): CellEffect { Release(c.(isRetired := true)) }

  /** The answer to a borrow: the path has ended, it has to wait, or it gets its current CID. */
  datatype Loan = Ended | Waiting | Lent(cid: ConnectionId)

  function LoanOf(c: Cell): Loan {
    if c.isRetired then Ended else if c.held == [] then Waiting else Lent(c.held[0].1)
  }

  function Borrow(c: Cell): Cell {
    if LoanOf(c).Lent? then c.(isUsing := true) else c
  }

  // ---------------------------------------------------------------- the manager

  datatype Entry = Entry(sequence: nat, cid: ConnectionId, token: ResetToken)

  /** `AwaitingPeer` is a client that has not yet learnt the server's first source CID. */
  datatype Stage = AwaitingPeer | Handshake | Allocate

  /** Cells are named by their position in `cells`; `retired` is the RETIRE log, oldest first. */
  datatype Remote = Remote(
    stage: Stage,
    cids: IndexDeque<Option<Entry>>,
    ready: IndexDeque<nat>,
    pending: seq<nat>,
    limit: Option<nat>,
    cursor: nat,
    cells: seq<Cell>,
    retired: seq<nat>)

  function Client(): Remote {
    Remote(AwaitingPeer, Empty(), Empty(), [], None, 0, [], [])
  }

  function Server(clientScid: ConnectionId): Remote {
    Remote(Handshake, IndexDeque(0, [Some(Entry(0, clientScid, []))]), Empty(), [], None, 0, [], [])
  }

  function WithCell(st: Remote, k: nat, effect: CellEffect): Remote
    requires k < |st.cells|
  {
    st.(cells := st.cells[k := effect.cell], retired := st.retired + effect.emitted)
  }

  predicate Below(ks: seq<nat>, n: nat) { forall i :: 0 <= i < |ks| ==> ks[i] < n }

  predicate QueueInRange(st: Remote) {
    Below(st.ready.items, |st.cells|) && Below(st.pending, |st.cells|)
  }

  predicate Coherent(st: Remote) {
    && QueueInRange(st)
    && st.cids.offset == st.ready.offset
    && st.cursor == st.ready.Largest()
    && st.cursor <= st.cids.Largest() <= VARINT_MAX + 1
  }

  /** The received CID that the next waiting cell is to be given. */
  function NextCid(st: Remote): Option<Entry> {
    match st.cids.Get(st.cursor)
    case Some(Some(e)) => Some(e)
    case _ => None
  }

  /** Hand received CIDs to waiting cells in order, until either side runs out. */
  function Arrange(st: Remote): (next: Remote)
    requires Coherent(st)
    ensures Coherent(next)
    decreases |st.pending|
  {
    if st.pending == [] then
      st
    else if st.cells[st.pending[0]].isRetired then
      Arrange(st.(pending := st.pending[1..]))
    else if NextCid(st).Some? then
      Arrange(Give(st))
    else
      st
  }

  /** One assignment: the first waiting cell takes the CID at the cursor. */
  function Give(st: Remote): (next: Remote)
    requires Coherent(st) && st.pending != [] && NextCid(st).Some?
    ensures Coherent(next)
  {
    var k, e := st.pending[0], NextCid(st).value;
    WithCell(st, k, Assign(st.cells[k], e.sequence, e.cid))
    .(pending := st.pending[1..], ready := st.ready.PushBack(k), cursor := st.cursor + 1)
  }

  /** The cells of `ks` whose path has not closed, in order. */
  function Live(cells: seq<Cell>, ks: seq<nat>): (live: seq<nat>)
    requires Below(ks, |cells|)
    ensures Below(live, |cells|)
  {
    if ks == [] then []
    else
      var n := |ks| - 1;
      Live(cells, ks[..n]) + if cells[ks[n]].isRetired then [] else [ks[n]]
  }

  function Range(lo: nat, hi: nat): seq<nat>
    requires lo <= hi
  {
    seq(hi - lo, i requires 0 <= i < hi - lo => lo + i)
  }

  /** Cells assigned below `bound` queue for a replacement and keep what they hold. */
  function Shift(st: Remote, bound: nat): (next: Remote)
    requires Coherent(st) && st.ready.offset <= bound <= st.cursor
    ensures Coherent(next)
  {
    st.(cids := st.cids.DrainTo(bound),
        ready := st.ready.DrainTo(bound),
        pending := st.pending + Live(st.cells, st.ready.items[..bound - st.ready.offset]))
  }

  /** Sequences below `tomb` that no cell ever took are retired at once. */
  function Jump(st: Remote, tomb: nat): (next: Remote)
    requires Coherent(st) && st.ready.items == [] && st.cursor <= tomb <= st.cids.Largest()
    ensures Coherent(next)
  {
    st.(cids := st.cids.DrainTo(tomb),
        ready := st.ready.ResetOffset(tomb),
        cursor := tomb,
        retired := st.retired + Range(st.cursor, tomb))
  }

  /** Move the retirement boundary to `tomb`; it never moves back. */
  function RetirePriorTo(st: Remote, tomb: nat): (next: Remote)
    requires Coherent(st) && tomb <= st.cids.Largest()
    ensures Coherent(next)
  {
    if tomb <= st.ready.offset then st
    else if tomb <= st.cursor then Shift(st, tomb)
    else Jump(Shift(st, st.cursor), tomb)
  }

  /** A received CID counts against the limit unless the path it went to was closed. */
  predicate Counted(st: Remote, s: nat, retirePriorTo: nat)
    requires QueueInRange(st)
  {
    && Received(st, s)
    && retirePriorTo <= s
    && (st.ready.Contains(s) ==> !st.cells[st.ready.items[s - st.ready.offset]].isRetired)
  }

  function CountedSet(st: Remote, retirePriorTo: nat): set<nat>
    requires QueueInRange(st)
  {
    set s | st.cids.offset <= s < st.cids.Largest() && Counted(st, s, retirePriorTo)
  }

  predicate Received(st: Remote, s: nat) { st.cids.Get(s).Some? && st.cids.Get(s).value.Some? }

  /** How many CIDs would be active once `frame` is taken in. */
  function ActiveAfter(st: Remote, frame: NewCidFrame): nat
    requires QueueInRange(st)
  {
    |CountedSet(st, frame.retirePriorTo)| + if Received(st, frame.sequence) then 0 else 1
  }

  datatype NewCidOutcome = Discarded | LimitExceeded(count: nat) | Accepted(next: Remote, token: ResetToken)

  function RecvNewCid(st: Remote, frame: NewCidFrame): NewCidOutcome
    requires Coherent(st) && st.limit.Some? && frame.Parsed()
  {
    if frame.sequence < st.cids.offset then
      Discarded
    else if ActiveAfter(st, frame) > st.limit.value then
      LimitExceeded(ActiveAfter(st, frame))
    else
      Accepted(TakeIn(st, frame), frame.token)
  }

  function Store(st: Remote, frame: NewCidFrame): (next: Remote)
    requires Coherent(st) && st.cids.offset <= frame.sequence <= VARINT_MAX
    ensures Coherent(next) && frame.sequence < next.cids.Largest()
  {
    st.(cids := st.cids.Insert(frame.sequence, Some(Entry(frame.sequence, frame.cid, frame.token)), None))
  }

  function TakeIn(st: Remote, frame: NewCidFrame): Remote
    requires Coherent(st) && frame.Parsed() && st.cids.offset <= frame.sequence
  {
    Arrange(RetirePriorTo(Store(st, frame), frame.retirePriorTo))
  }

  /** The peer's first source CID becomes sequence zero, once. */
  function OnReceiveFrom(st: Remote, scid: ConnectionId): Remote
    requires Coherent(st) && (st.stage.AwaitingPeer? ==> st.cids.offset == 0)
  {
    if st.stage.AwaitingPeer? then
      Arrange(Store(st, NewCidFrame(0, 0, scid, [])).(stage := Handshake))
    else
      st
  }

  function Enqueue(st: Remote, isUsing: bool): (next: Remote)
    requires Coherent(st)
    ensures Coherent(next)
  {
    st.(cells := st.cells + [Cell([], false, isUsing)], pending := st.pending + [|st.cells|])
  }

  function AllocateCell(st: Remote, isUsing: bool): Remote
    requires Coherent(st)
  {
    Arrange(Enqueue(st, isUsing))
  }

  // ---------------------------------------------------------------- the invariant

  /** Every cell the manager still knows: first those with a current CID, then those waiting. */
  function Queue(st: Remote): seq<nat> { st.ready.items + st.pending }

  ghost predicate EntriesInPlace(st: Remote) {
    && (forall i :: 0 <= i < |st.cids.items| && st.cids.items[i].Some?
                    ==> st.cids.items[i].value.sequence == st.cids.offset + i)
    && (forall i :: 0 <= i < st.cursor - st.cids.offset && i < |st.cids.items| ==> st.cids.items[i].Some?)
  }

  ghost predicate AtMostOnce(s: seq<nat>) { forall k: nat :: Count(s, k) <= 1 }

  /** No cell is queued twice, and no live cell is forgotten. */
  ghost predicate Queued(st: Remote) {
    && AtMostOnce(Queue(st))
    && (forall k :: 0 <= k < |st.cells| && !st.cells[k].isRetired ==> k in Queue(st))
  }

  ghost predicate NewestInPlace(st: Remote)
    requires QueueInRange(st)
  {
    forall i :: 0 <= i < |st.ready.items| && !st.cells[st.ready.items[i]].isRetired ==>
      && st.cells[st.ready.items[i]].held != []
      && st.cells[st.ready.items[i]].held[0].0 == st.ready.offset + i
  }

  /** Newest first, and nothing kept beyond what the flags justify. */
  ghost predicate CellTidy(c: Cell) {
    && (forall i, j :: 0 <= i < j < |c.held| ==> c.held[i].0 > c.held[j].0)
    && (!c.isUsing ==> |c.held| <= if c.isRetired then 0 else 1)
  }

  function HeldCount(cells: seq<Cell>, x: nat): nat {
    if cells == [] then 0
    else HeldCount(cells[..|cells| - 1], x) + Count(Sequences(cells[|cells| - 1].held), x)
  }

  /** Each sequence below the cursor is held or was retired, exactly once, and no other sequence is either. */
  ghost predicate Ledger(st: Remote) {
    forall x: nat :: HeldCount(st.cells, x) + Count(st.retired, x) == if x < st.cursor then 1 else 0
  }

  /** The invariant between two operations, without the claim that no CID lies idle. */
  ghost predicate Core(st: Remote) {
    && Coherent(st)
    && EntriesInPlace(st)
    && Queued(st)
    && NewestInPlace(st)
    && (forall k :: 0 <= k < |st.cells| ==> CellTidy(st.cells[k]))
    && Ledger(st)
  }

  ghost predicate NoIdleCid(st: Remote) { st.pending == [] || NextCid(st).None? }

  ghost predicate Inv(st: Remote) { Core(st) && NoIdleCid(st) }

  // ---------------------------------------------------------------- counting

  lemma {:induction false} CountConcat(a: seq<nat>, b: seq<nat>, x: nat)
    ensures Count(a + b, x) == Count(a, x) + Count(b, x)
    decreases |b|
  {
    if b == [] {
      assert a + b == a;
    } else {
      assert (a + b)[..|a + b| - 1] == a + b[..|b| - 1];
      CountConcat(a, b[..|b| - 1], x);
    }
  }

  lemma {:induction false} CountReversed(s: seq<nat>, x: nat)
    ensures Count(Reversed(s), x) == Count(s, x)
    decreases |s|
  {
    if s != [] {
      var n := |s| - 1;
      CountReversed(s[..n], x);
      assert Reversed(s) == [s[n]] + Reversed(s[..n]);
      CountConcat([s[n]], Reversed(s[..n]), x);
      assert [s[n]][..0] == [];
    }
  }

  lemma {:induction false} CountRange(lo: nat, hi: nat, x: nat)
    requires lo <= hi
    ensures Count(Range(lo, hi), x) == if lo <= x < hi then 1 else 0
    decreases hi
  {
    if lo < hi {
      assert Range(lo, hi)[..hi - lo - 1] == Range(lo, hi - 1);
      CountRange(lo, hi - 1, x);
    }
  }

  lemma {:induction false} CountMember(s: seq<nat>, x: nat)
    ensures Count(s, x) > 0 <==> x in s
    decreases |s|
  {
    if s != [] {
      CountMember(s[..|s| - 1], x);
    }
  }

  lemma {:induction false} HeldUpdate(cells: seq<Cell>, k: nat, c: Cell, x: nat)
    requires k < |cells|
    ensures HeldCount(cells[k := c], x) + Count(Sequences(cells[k].held), x)
         == HeldCount(cells, x) + Count(Sequences(c.held), x)
    decreases |cells|
  {
    var n := |cells| - 1;
    if k < n {
      HeldUpdate(cells[..n], k, c, x);
      assert cells[k := c][..n] == cells[..n][k := c];
    } else {
      assert cells[k := c][..n] == cells[..n];
    }
  }

  lemma {:induction false} HeldMember(cells: seq<Cell>, k: nat, x: nat)
    requires k < |cells| && Holds(cells[k], x)
    ensures HeldCount(cells, x) > 0
    decreases |cells|
  {
    if k < |cells| - 1 {
      HeldMember(cells[..|cells| - 1], k, x);
    } else {
      CountMember(Sequences(cells[k].held), x);
    }
  }

  /** Whatever a cell lets go of is emitted, once, and nothing else is. */
  lemma ReleaseConserves(c: Cell, x: nat)
    ensures Count(Sequences(Release(c).cell.held), x) + Count(Release(c).emitted, x) == Count(Sequences(c.held), x)
  {
    var keep := if c.isRetired then 0 else 1;
    if !c.isUsing && |c.held| > keep {
      var kept, gone := Sequences(c.held[..keep]), Sequences(c.held[keep..]);
      CountReversed(gone, x);
      assert Sequences(c.held) == kept + gone;
      CountConcat(kept, gone, x);
    }
  }

  lemma AssignConserves(c: Cell, s: nat, cid: ConnectionId, x: nat)
    ensures Count(Sequences(Assign(c, s, cid).cell.held), x) + Count(Assign(c, s, cid).emitted, x)
         == Count(Sequences(c.held), x) + if x == s then 1 else 0
  {
    var grown := c.(held := [(s, cid)] + c.held);
    ReleaseConserves(grown, x);
    assert Sequences(grown.held) == [s] + Sequences(c.held);
    CountConcat([s], Sequences(c.held), x);
    assert [s][..0] == [];
  }

  /** A cell operation that conserves the cell's sequences conserves the whole ledger. */
  lemma WithCellConserves(st: Remote, k: nat, effect: CellEffect, x: nat)
    requires k < |st.cells|
    ensures HeldCount(WithCell(st, k, effect).cells, x) + Count(WithCell(st, k, effect).retired, x)
            + Count(Sequences(st.cells[k].held), x)
         == HeldCount(st.cells, x) + Count(st.retired, x)
            + Count(Sequences(effect.cell.held), x) + Count(effect.emitted, x)
  {
    HeldUpdate(st.cells, k, effect.cell, x);
    CountConcat(st.retired, effect.emitted, x);
  }

  // ---------------------------------------------------------------- each operation keeps the invariant

  lemma StoreKeepsInv(st: Remote, frame: NewCidFrame)
    requires Core(st) && st.cids.offset <= frame.sequence <= VARINT_MAX
    ensures Core(Store(st, frame))
  {
  }

  lemma LiveAppend(cells: seq<Cell>, ks: seq<nat>, k: nat)
    requires Below(ks, |cells|) && k < |cells|
    ensures Live(cells, ks + [k]) == Live(cells, ks) + if cells[k].isRetired then [] else [k]
  {
    assert (ks + [k])[..|ks|] == ks;
  }

  lemma {:induction false} LiveCount(cells: seq<Cell>, ks: seq<nat>, x: nat)
    requires Below(ks, |cells|)
    ensures Count(Live(cells, ks), x) == if x < |cells| && !cells[x].isRetired then Count(ks, x) else 0
    decreases |ks|
  {
    if ks != [] {
      var n := |ks| - 1;
      LiveCount(cells, ks[..n], x);
      CountConcat(Live(cells, ks[..n]), [ks[n]], x);
      assert [ks[n]][..0] == [];
      assert Live(cells, ks[..n]) + [] == Live(cells, ks[..n]);
    }
  }

  /** Closed paths leave the queue at the boundary; every other cell stays in it exactly as often. */
  lemma ShiftQueueCount(st: Remote, bound: nat, x: nat)
    requires Coherent(st) && st.ready.offset <= bound <= st.cursor
    ensures Count(Queue(Shift(st, bound)), x) <= Count(Queue(st), x)
    ensures x < |st.cells| && !st.cells[x].isRetired ==> Count(Queue(Shift(st, bound)), x) == Count(Queue(st), x)
  {
    var n := bound - st.ready.offset;
    var gone, kept := st.ready.items[..n], st.ready.items[n..];
    assert st.ready.items == gone + kept;
    CountConcat(gone, kept, x);
    CountConcat(st.ready.items, st.pending, x);
    CountConcat(kept, st.pending + Live(st.cells, gone), x);
    CountConcat(st.pending, Live(st.cells, gone), x);
    LiveCount(st.cells, gone, x);
  }

  lemma ShiftKeepsInv(st: Remote, bound: nat)
    requires Core(st) && st.ready.offset <= bound <= st.cursor
    ensures Core(Shift(st, bound))
  {
    var next := Shift(st, bound);
    forall k: nat ensures Count(Queue(next), k) <= 1 {
      ShiftQueueCount(st, bound, k);
    }
    forall k | 0 <= k < |st.cells| && !st.cells[k].isRetired ensures k in Queue(next) {
      ShiftQueueCount(st, bound, k);
      CountMember(Queue(st), k);
      CountMember(Queue(next), k);
    }
  }

  lemma JumpKeepsInv(st: Remote, tomb: nat)
    requires Core(st) && st.ready.items == [] && st.cursor <= tomb <= st.cids.Largest()
    ensures Core(Jump(st, tomb))
  {
    forall x: nat ensures HeldCount(st.cells, x) + Count(st.retired + Range(st.cursor, tomb), x) == if x < tomb then 1 else 0 {
      CountConcat(st.retired, Range(st.cursor, tomb), x);
      CountRange(st.cursor, tomb, x);
    }
    assert Queue(Jump(st, tomb)) == Queue(st);
  }

  lemma RetirePriorToKeepsInv(st: Remote, tomb: nat)
    requires Core(st) && tomb <= st.cids.Largest()
    ensures Core(RetirePriorTo(st, tomb))
  {
    if st.ready.offset < tomb <= st.cursor {
      ShiftKeepsInv(st, tomb);
    } else if st.cursor < tomb {
      ShiftKeepsInv(st, st.cursor);
      JumpKeepsInv(Shift(st, st.cursor), tomb);
    }
  }

  lemma AllocateKeepsInv(st: Remote, isUsing: bool)
    requires Core(st)
    ensures Core(Enqueue(st, isUsing))
  {
    var next, n := Enqueue(st, isUsing), |st.cells|;
    assert Queue(next) == Queue(st) + [n];
    forall k: nat ensures Count(Queue(next), k) <= 1 {
      assert Queue(next)[..|Queue(next)| - 1] == Queue(st);
      CountMember(Queue(st), n);
    }
    assert next.cells[..n] == st.cells;
    assert Sequences(next.cells[n].held) == [];
    assert Ledger(next);
  }

  /** A cell never holds a sequence the cursor has not passed. */
  lemma HeldBelowCursor(st: Remote, k: nat, i: nat)
    requires Core(st) && k < |st.cells| && i < |st.cells[k].held|
    ensures st.cells[k].held[i].0 < st.cursor
  {
    var x := st.cells[k].held[i].0;
    assert Sequences(st.cells[k].held)[i] == x;
    HeldMember(st.cells, k, x);
  }

  lemma GiveKeepsLedger(st: Remote)
    requires Core(st) && st.pending != [] && NextCid(st).Some?
    ensures Ledger(Give(st))
  {
    var k, e := st.pending[0], NextCid(st).value;
    forall x: nat ensures HeldCount(Give(st).cells, x) + Count(Give(st).retired, x) == if x < st.cursor + 1 then 1 else 0 {
      AssignConserves(st.cells[k], e.sequence, e.cid, x);
      WithCellConserves(st, k, Assign(st.cells[k], e.sequence, e.cid), x);
    }
  }

  lemma GiveKeepsInv(st: Remote)
    requires Core(st) && st.pending != [] && !st.cells[st.pending[0]].isRetired && NextCid(st).Some?
    ensures Core(Give(st))
  {
    var k, e := st.pending[0], NextCid(st).value;
    GiveKeepsLedger(st);
    assert Queue(Give(st)) == Queue(st);
    forall i | 0 <= i < |st.cells[k].held| ensures st.cells[k].held[i].0 < st.cursor {
      HeldBelowCursor(st, k, i);
    }
    assert CellTidy(Assign(st.cells[k], e.sequence, e.cid).cell);
    assert k !in st.ready.items by {
      CountConcat(st.ready.items, st.pending, k);
      CountMember(st.ready.items, k);
      CountMember(st.pending, k);
    }
  }

  lemma {:induction false} ArrangeKeepsInv(st: Remote)
    requires Core(st)
    ensures Inv(Arrange(st))
    decreases |st.pending|
  {
    if st.pending == [] {
    } else if st.cells[st.pending[0]].isRetired {
      DropRetiredKeepsInv(st);
      ArrangeKeepsInv(st.(pending := st.pending[1..]));
    } else if NextCid(st).Some? {
      GiveKeepsInv(st);
      ArrangeKeepsInv(Give(st));
    }
  }

  lemma DropRetiredKeepsInv(st: Remote)
    requires Core(st) && st.pending != [] && st.cells[st.pending[0]].isRetired
    ensures Core(st.(pending := st.pending[1..]))
  {
    var next := st.(pending := st.pending[1..]);
    assert st.pending == [st.pending[0]] + next.pending;
    forall k: nat ensures Count(Queue(next), k) <= 1 {
      CountConcat(st.ready.items, st.pending, k);
      CountConcat(st.ready.items, next.pending, k);
      CountConcat([st.pending[0]], next.pending, k);
      assert Count(Queue(st), k) <= 1;
    }
  }
}
