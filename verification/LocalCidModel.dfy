/** The connection IDs we issue to a peer, as values, with every NEW_CONNECTION_ID frame sent so far. */
module LocalCidModel {
  import opened Basics
  import opened CidFrames
  import opened IndexDeques

  datatype Role = RoleClient | RoleServer

  datatype Issued = Issued(cid: ConnectionId, token: ResetToken)

  datatype LocalError = TransportParameter | ConnectionIdLimit

  /** A `None` in `cids` is a retired CID that has not slid out of the window yet. */
  datatype Local = Local(
    role: Role,
    odcid: ConnectionId,
    cids: IndexDeque<Option<Issued>>,
    limit: Option<nat>,
    sent: seq<NewCidFrame>)

  function New(role: Role, odcid: ConnectionId, scid: ConnectionId, next: Issued): Local {
    Local(role, odcid, IndexDeque(0, [Some(Issued(scid, [])), Some(next)]), None,
          [NewCidFrame(1, 0, next.cid, next.token)])
  }

  function Issue(st: Local, next: Issued): Local
    requires st.cids.Largest() <= VARINT_MAX
  {
    st.(cids := st.cids.PushBack(Some(next)),
        sent := st.sent + [NewCidFrame(st.cids.Largest(), st.cids.offset, next.cid, next.token)])
  }

  function IssueAll(st: Local, batch: seq<Issued>): (after: Local)
    requires st.cids.Largest() + |batch| <= VARINT_MAX + 1
    ensures after.cids.Largest() == st.cids.Largest() + |batch|
    ensures after.role == st.role && after.odcid == st.odcid && after.limit == st.limit
    decreases |batch|
  {
    if batch == [] then st else Issue(IssueAll(st, batch[..|batch| - 1]), batch[|batch| - 1])
  }

  /** How many CIDs `set_limit` has to issue to fill the peer's limit. */
  function Missing(st: Local, limit: nat): nat {
    if st.cids.Largest() < limit then limit - st.cids.Largest() else 0
  }

  function SetLimit(st: Local, limit: nat, batch: seq<Issued>): Result<Local, LocalError>
    requires st.limit.None? && |batch| == Missing(st, limit) && limit <= VARINT_MAX
    requires st.cids.Largest() <= VARINT_MAX + 1
  {
    if limit < 2 then Err(TransportParameter)
    else Ok(IssueAll(st, batch).(limit := Some(limit)))
  }

  function LeadingNone(items: seq<Option<Issued>>): (n: nat)
    ensures n <= |items| && (forall i :: 0 <= i < n ==> items[i].None?) && (n < |items| ==> items[n].Some?)
  {
    if items == [] || items[0].Some? then 0 else 1 + LeadingNone(items[1..])
  }

  predicate IsActive(st: Local, s: nat) { st.cids.Get(s).Some? && st.cids.Get(s).value.Some? }

  /** Take the CID out and let the window slide over leading gaps. */
  function Withdraw(st: Local, s: nat): Local
    requires st.cids.Contains(s)
  {
    var taken := st.cids.Replace(s, None);
    st.(cids := taken.Advance(LeadingNone(taken.items)))
  }

  /** Retiring an active CID issues `next` in its place; other known sequences are ignored. */
  function RecvRetire(st: Local, s: nat, next: Issued): Result<Local, LocalError>
    requires st.cids.Largest() <= VARINT_MAX
  {
    if s >= st.cids.Largest() then Err(ConnectionIdLimit)
    else if IsActive(st, s) then Ok(Issue(Withdraw(st, s), next))
    else Ok(st)
  }

  function Clear(st: Local): Local {
    st.(cids := IndexDeque(st.cids.Largest(), []))
  }

  // ---------------------------------------------------------------- what the issuer keeps

  function Active(st: Local): set<nat> {
    set s | st.cids.offset <= s < st.cids.Largest() && IsActive(st, s)
  }

  /** The CID that was ever issued under a sequence number. */
  function NameOf(scid: ConnectionId, sent: seq<NewCidFrame>, s: nat): Option<ConnectionId> {
    if s == 0 then Some(scid)
    else if s <= |sent| then Some(sent[s - 1].cid)
    else None
  }

  ghost predicate Budget(st: Local) {
    match st.limit
    case None => |Active(st)| == 2
    case Some(limit) => 2 <= |Active(st)| <= limit
  }

  /** The sent frames number the CIDs without gaps, each asking for no more than is retired already. */
  ghost predicate Numbered(st: Local) {
    && st.cids.Largest() == |st.sent| + 1 <= VARINT_MAX + 1
    && forall i :: 0 <= i < |st.sent| ==>
         st.sent[i].sequence == i + 1 && st.sent[i].retirePriorTo <= i + 1 && st.sent[i].retirePriorTo <= st.cids.offset
  }

  /** The window holds only CIDs that the sent frames named. */
  ghost predicate Named(st: Local, scid: ConnectionId) {
    forall s: nat :: IsActive(st, s) ==> NameOf(scid, st.sent, s) == Some(st.cids.Get(s).value.value.cid)
  }

  ghost predicate Inv(st: Local, scid: ConnectionId) { Numbered(st) && Named(st, scid) && Budget(st) }

  lemma NewKeepsInv(role: Role, odcid: ConnectionId, scid: ConnectionId, next: Issued)
    ensures Inv(New(role, odcid, scid, next), scid)
    ensures Active(New(role, odcid, scid, next)) == {0, 1}
  {
    var st := New(role, odcid, scid, next);
    assert IsActive(st, 0) && IsActive(st, 1);
    assert Active(st) == {0, 1};
  }

  lemma IssueAdds(st: Local, next: Issued)
    requires st.cids.Largest() <= VARINT_MAX
    ensures Active(Issue(st, next)) == Active(st) + {st.cids.Largest()}
    ensures |Active(Issue(st, next))| == |Active(st)| + 1
  {
    var after := Issue(st, next);
    forall s: nat ensures IsActive(after, s) <==> IsActive(st, s) || s == st.cids.Largest() {
    }
    assert Active(after) == Active(st) + {st.cids.Largest()};
    assert st.cids.Largest() !in Active(st);
  }

  lemma WithdrawRemoves(st: Local, s: nat)
    requires IsActive(st, s)
    ensures Active(Withdraw(st, s)) == Active(st) - {s}
    ensures Withdraw(st, s).cids.Largest() == st.cids.Largest() && st.cids.offset <= Withdraw(st, s).cids.offset
    ensures forall t: nat :: IsActive(Withdraw(st, s), t) ==> Withdraw(st, s).cids.Get(t) == st.cids.Get(t)
  {
    var after := Withdraw(st, s);
    var taken := st.cids.Replace(s, None);
    forall t: nat ensures IsActive(after, t) <==> IsActive(st, t) && t != s {
      if st.cids.offset <= t < after.cids.offset {
        assert taken.items[t - st.cids.offset].None?;
      }
    }
    assert Active(after) == Active(st) - {s};
  }

  /** Retirement replaces: the retired sequence leaves, the next one enters, and the number stays. */
  lemma RetireReplaces(st: Local, s: nat, next: Issued)
    requires st.cids.Largest() <= VARINT_MAX && IsActive(st, s)
    ensures RecvRetire(st, s, next).Ok?
    ensures Active(RecvRetire(st, s, next).value) == Active(st) - {s} + {st.cids.Largest()}
    ensures |Active(RecvRetire(st, s, next).value)| == |Active(st)|
  {
    WithdrawRemoves(st, s);
    IssueAdds(Withdraw(st, s), next);
    assert s in Active(st);
  }

  lemma IssueKeepsNames(st: Local, scid: ConnectionId, next: Issued)
    requires Numbered(st) && Named(st, scid) && st.cids.Largest() <= VARINT_MAX
    ensures Numbered(Issue(st, next)) && Named(Issue(st, next), scid)
  {
    var after := Issue(st, next);
    forall s: nat | IsActive(after, s) ensures NameOf(scid, after.sent, s) == Some(after.cids.Get(s).value.value.cid) {
      if s < st.cids.Largest() { assert IsActive(st, s); }
    }
  }

  lemma {:induction false} IssueAllKeepsNames(st: Local, scid: ConnectionId, batch: seq<Issued>)
    requires Numbered(st) && Named(st, scid) && st.cids.Largest() + |batch| <= VARINT_MAX + 1
    ensures Numbered(IssueAll(st, batch)) && Named(IssueAll(st, batch), scid) && st.sent <= IssueAll(st, batch).sent
    decreases |batch|
  {
    if batch != [] {
      var n := |batch| - 1;
      IssueAllKeepsNames(st, scid, batch[..n]);
      IssueKeepsNames(IssueAll(st, batch[..n]), scid, batch[n]);
    }
  }

  lemma {:induction false} IssueAllAdds(st: Local, batch: seq<Issued>)
    requires st.cids.Largest() + |batch| <= VARINT_MAX + 1
    ensures forall s: nat :: s in Active(IssueAll(st, batch))
                             <==> s in Active(st) || st.cids.Largest() <= s < st.cids.Largest() + |batch|
    ensures |Active(IssueAll(st, batch))| == |Active(st)| + |batch|
    decreases |batch|
  {
    if batch != [] {
      var n := |batch| - 1;
      var before := IssueAll(st, batch[..n]);
      IssueAllAdds(st, batch[..n]);
      IssueAdds(before, batch[n]);
      assert IssueAll(st, batch) == Issue(before, batch[n]);
    }
  }

  lemma SetLimitKeepsInv(st: Local, scid: ConnectionId, limit: nat, batch: seq<Issued>)
    requires Inv(st, scid) && st.limit.None? && |batch| == Missing(st, limit) && 2 <= limit <= VARINT_MAX
    ensures Inv(SetLimit(st, limit, batch).value, scid)
  {
    IssueAllKeepsNames(st, scid, batch);
    IssueAllAdds(st, batch);
    assert Active(SetLimit(st, limit, batch).value) == Active(IssueAll(st, batch));
    WindowBoundsActive(st);
  }

  /**
   The issuer fills the peer's limit if and only if the limit is two or no CID was retired before it
   was known: every earlier retirement leaves the count one short.
   */
  lemma SetLimitFillsIff(st: Local, scid: ConnectionId, limit: nat, batch: seq<Issued>)
    requires Inv(st, scid) && st.limit.None? && |batch| == Missing(st, limit) && 2 <= limit <= VARINT_MAX
    ensures |Active(SetLimit(st, limit, batch).value)| == limit <==> limit == 2 || st.cids.Largest() == 2
  {
    IssueAllAdds(st, batch);
    assert Active(SetLimit(st, limit, batch).value) == Active(IssueAll(st, batch));
    WindowBoundsActive(st);
  }

  lemma WindowBoundsActive(st: Local)
    ensures |Active(st)| <= |st.cids.items| <= st.cids.Largest()
  {
    CountWindow(Active(st), st.cids.offset, st.cids.Largest());
  }

  lemma {:induction false} CountWindow(s: set<nat>, lo: nat, hi: nat)
    requires lo <= hi && forall x <- s :: lo <= x < hi
    ensures |s| <= hi - lo
    decreases hi
  {
    if lo < hi {
      CountWindow(s - {hi - 1}, lo, hi - 1);
    } else {
      assert s == {};
    }
  }

  lemma RecvRetireKeepsInv(st: Local, scid: ConnectionId, s: nat, next: Issued)
    requires Inv(st, scid) && s < st.cids.Largest() <= VARINT_MAX
    ensures Inv(RecvRetire(st, s, next).value, scid)
  {
    if IsActive(st, s) {
      WithdrawRemoves(st, s);
      RetireReplaces(st, s, next);
      IssueKeepsNames(Withdraw(st, s), scid, next);
    }
  }
}
