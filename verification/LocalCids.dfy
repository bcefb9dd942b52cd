/** The local connection-ID manager, its registry in the shared router, and the router's table. */
module LocalCids {
  import opened Basics
  import opened CidFrames
  import opened IndexDeques
  import M = LocalCidModel
  import R = Routing

  class Router {
    var table: R.Table

    constructor ()
      ensures table == map[]
    {
      table := map[];
    }

    /** Claim a vacant route, or report the inbox that has it. */
    method TryInsert(cid: ConnectionId, inbox: nat) returns (outcome: Result<(), nat>)
      modifies this
      ensures cid !in old(table) ==> outcome == Ok(()) && table == R.Claim(old(table), cid, inbox)
      ensures cid in old(table) ==> table == old(table) && outcome == Err(old(table)[cid])
    {
      if cid in table {
        outcome := Err(table[cid]);
      } else {
        table := table[cid := inbox];
        outcome := Ok(());
      }
    }
  }

  /** The random connection IDs that `draw` yields from `from` on escape any finite set. */
  ghost predicate Escapes(draw: nat -> ConnectionId, used: set<ConnectionId>, from: nat) {
    exists n: nat :: from <= n && draw(n) !in used
  }

  /** One connection's access to the router, and the NEW_CONNECTION_ID frames it has sent. */
  class Registry {
    const router: Router
    const inbox: nat
    const draw: nat -> ConnectionId
    var drawn: nat
    var sent: seq<NewCidFrame>

    ghost predicate Valid() {
      forall used: set<ConnectionId>, from: nat :: Escapes(draw, used, from)
    }

    constructor (router: Router, inbox: nat, draw: nat -> ConnectionId)
      requires forall used: set<ConnectionId>, from: nat :: Escapes(draw, used, from)
      ensures Valid() && this.router == router && this.inbox == inbox && sent == []
    {
      this.router := router;
      this.inbox := inbox;
      this.draw := draw;
      this.drawn := 0;
      this.sent := [];
    }

    /** Draw until a connection ID has no route yet, and claim it. */
    method GenUniqueCid() returns (cid: ConnectionId)
      requires Valid()
      modifies this`drawn, router
      ensures cid !in old(router.table) && router.table == R.Claim(old(router.table), cid, inbox)
    {
      assert Escapes(draw, router.table.Keys, drawn);
      ghost var n: nat :| drawn <= n && draw(n) !in router.table;
      while draw(drawn) in router.table
        invariant drawn <= n && router.table == old(router.table)
        decreases n - drawn
      {
        drawn := drawn + 1;
      }
      cid := draw(drawn);
      drawn := drawn + 1;
      router.table := router.table[cid := inbox];
    }

    method RetireCid(cid: ConnectionId)
      modifies router
      ensures router.table == R.RetireRoute(old(router.table), cid, inbox)
    {
      if cid in router.table && router.table[cid] == inbox {
        router.table := router.table - {cid};
      }
    }

    method SendFrame(frame: NewCidFrame)
      modifies this`sent
      ensures sent == old(sent) + [frame]
    {
      sent := sent + [frame];
    }
  }

  class LocalCids {
    const role: M.Role
    const odcid: ConnectionId
    const registry: Registry
    var cids: IndexDeque<Option<M.Issued>>
    var limit: Option<nat>

    ghost function View(): M.Local
      reads this, registry
    {
      M.Local(role, odcid, cids, limit, registry.sent)
    }

    constructor (role: M.Role, odcid: ConnectionId, scid: ConnectionId, registry: Registry, token: ResetToken)
      requires registry.Valid() && registry.sent == []
      modifies registry, registry.router
      ensures this.registry == registry
      ensures exists cid :: cid !in old(registry.router.table)
                         && registry.router.table == R.Claim(old(registry.router.table), cid, registry.inbox)
                         && View() == M.New(role, odcid, scid, M.Issued(cid, token))
    {
      this.role := role;
      this.odcid := odcid;
      this.registry := registry;
      this.limit := None;
      var cid := registry.GenUniqueCid();
      registry.SendFrame(NewCidFrame(1, 0, cid, token));
      this.cids := IndexDeque(0, [Some(M.Issued(scid, [])), Some(M.Issued(cid, token))]);
    }

    method IssueNewCid(token: ResetToken) returns (next: M.Issued)
      requires registry.Valid() && cids.Largest() <= VARINT_MAX
      modifies this`cids, registry, registry.router
      ensures next.cid !in old(registry.router.table)
      ensures registry.router.table == R.Claim(old(registry.router.table), next.cid, registry.inbox)
      ensures View() == M.Issue(old(View()), next)
    {
      var sequence, retirePriorTo := cids.Largest(), cids.offset;
      var cid := registry.GenUniqueCid();
      next := M.Issued(cid, token);
      registry.SendFrame(NewCidFrame(sequence, retirePriorTo, cid, token));
      cids := cids.PushBack(Some(next));
    }

    /** Issue CIDs until the peer's limit is filled; `token` names the reset token of each sequence. */
    method SetLimit(activeCidLimit: nat, token: nat -> ResetToken)
        returns (outcome: Result<(), M.LocalError>, ghost batch: seq<M.Issued>)
      requires registry.Valid() && limit.None? && activeCidLimit <= VARINT_MAX && cids.Largest() <= VARINT_MAX + 1
      modifies this, registry, registry.router
      ensures activeCidLimit < 2 ==> outcome == Err(M.TransportParameter)
                                     && View() == old(View()) && registry.router.table == old(registry.router.table)
      ensures activeCidLimit >= 2 ==>
                && outcome == Ok(()) && |batch| == M.Missing(old(View()), activeCidLimit)
                && R.Fresh(old(registry.router.table), R.Names(batch))
                && registry.router.table == R.ClaimAll(old(registry.router.table), R.Names(batch), registry.inbox)
                && M.SetLimit(old(View()), activeCidLimit, batch) == Ok(View())
    {
      batch := [];
      if activeCidLimit < 2 { return Err(M.TransportParameter), batch; }
      while cids.Largest() < activeCidLimit
        invariant cids.Largest() == old(cids.Largest()) + |batch| <= Max(activeCidLimit, old(cids.Largest()))
        invariant limit.None? && View() == M.IssueAll(old(View()), batch)
        invariant R.Fresh(old(registry.router.table), R.Names(batch))
        invariant registry.router.table == R.ClaimAll(old(registry.router.table), R.Names(batch), registry.inbox)
        decreases activeCidLimit - cids.Largest()
      {
        ghost var before := batch;
        R.ClaimAllUndisturbed(old(registry.router.table), R.Names(before), registry.inbox);
        var next := IssueNewCid(token(cids.Largest()));
        batch := batch + [next];
        assert batch[..|before|] == before;
        assert R.Names(batch) == R.Names(before) + [next.cid];
        assert R.Names(batch)[..|before|] == R.Names(before);
      }
      limit := Some(activeCidLimit);
      outcome := Ok(());
    }

    method RecvRetireCidFrame(sequence: nat, token: ResetToken)
        returns (outcome: Result<(), M.LocalError>, ghost next: Option<M.Issued>)
      requires registry.Valid() && cids.Largest() <= VARINT_MAX
      modifies this`cids, registry, registry.router
      ensures sequence >= old(cids.Largest()) ==> outcome == Err(M.ConnectionIdLimit)
      ensures sequence < old(cids.Largest()) ==> outcome == Ok(())
      ensures next.Some? <==> M.IsActive(old(View()), sequence)
      ensures next.None? ==> View() == old(View()) && registry.router.table == old(registry.router.table)
      ensures next.Some? ==>
                && next.value.cid !in old(registry.router.table)
                && M.RecvRetire(old(View()), sequence, next.value) == Ok(View())
                && registry.router.table == R.RetireRoute(R.Claim(old(registry.router.table), next.value.cid, registry.inbox),
                                                          old(cids).Get(sequence).value.value.cid, registry.inbox)
    {
      next := None;
      if sequence >= cids.Largest() { return Err(M.ConnectionIdLimit), next; }
      match cids.Get(sequence)
      case Some(Some(issued)) =>
        cids := cids.Replace(sequence, None);
        var n := 0;
        while n < |cids.items| && cids.items[n].None?
          invariant n <= |cids.items| && cids == old(cids).Replace(sequence, None)
          invariant M.LeadingNone(cids.items) == n + M.LeadingNone(cids.items[n..])
        {
          n := n + 1;
        }
        cids := cids.Advance(n);
        var replacement := IssueNewCid(token);
        next := Some(replacement);
        registry.RetireCid(issued.cid);
        outcome := Ok(());
      case _ =>
        outcome := Ok(());
    }

    /** Give up every route; a server also gives up the route of its original destination CID. */
    method Clear()
      modifies this`cids, registry.router
      ensures View() == M.Clear(old(View()))
      ensures Some((registry.router.table, R.Managed(View(), false)))
           == R.Advance(old(registry.router.table), R.Managed(old(View()), true), R.Clear(registry.inbox))
    {
      var items := cids.items;
      cids := cids.DrainTo(cids.Largest());
      for i := 0 to |items|
        invariant registry.router.table == R.RetireAll(old(registry.router.table), R.Remaining(items[..i]), registry.inbox)
        invariant View() == M.Clear(old(View()))
      {
        ghost var before := R.Remaining(items[..i]);
        assert items[..i + 1][..i] == items[..i];
        match items[i]
        case Some(issued) =>
          assert R.Remaining(items[..i + 1]) == before + [issued.cid];
          assert (before + [issued.cid])[..|before|] == before;
          registry.RetireCid(issued.cid);
        case None =>
          assert R.Remaining(items[..i + 1]) == before;
      }
      assert items[..|items|] == items;
      if role.RoleServer? {
        registry.RetireCid(odcid);
      }
    }
  }
}
