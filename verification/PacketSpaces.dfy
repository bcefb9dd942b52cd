/** Sent records and NewReno's byte count as the objects the implementation updates in place. */
module PacketSpaces {
  import opened Basics
  import opened RecoveryModel
  import M = CongestionModel

  // ---------------------------------------------------------------- specification helpers

  /** The tags of records already known to be lost: only those counted by congestion control. */
  ghost function CountedTags(packets: seq<SentPacket>, e: M.Epoch): seq<M.Tag> {
    if packets == [] then []
    else
      var n := |packets| - 1;
      CountedTags(packets[..n], e) + if packets[n].countForCc then [M.TagOf(packets[n], e)] else []
  }

  lemma CountedTagsPush(packets: seq<SentPacket>, p: SentPacket, e: M.Epoch)
    ensures CountedTags(packets + [p], e) == CountedTags(packets, e) + if p.countForCc then [M.TagOf(p, e)] else []
  {
    assert (packets + [p])[..|packets|] == packets;
  }

  lemma SubtractOneMore(n: nat, tags: seq<M.Tag>, t: M.Tag)
    ensures M.SubtractAll(n, tags + [t]) == SaturatingSub(M.SubtractAll(n, tags), t.bytes)
  {
    assert (tags + [t])[..|tags|] == tags;
  }

  lemma {:induction false} PersistentSticks(ps: seq<nat>, k: nat)
    requires k <= |ps| && FoldRuns(ps[..k]).Persistent?
    ensures FoldRuns(ps).Persistent?
    decreases |ps|
  {
    if k == |ps| {
      assert ps[..k] == ps;
    } else {
      assert ps[..|ps| - 1][..k] == ps[..k];
      PersistentSticks(ps[..|ps| - 1], k);
    }
  }

  lemma {:induction false} WeighPrefix(sent: seq<SentPacket>, i: nat, e: M.Epoch)
    requires i <= |sent|
    ensures M.FlightWeight(sent[..i], e, M.Bytes) <= M.FlightWeight(sent, e, M.Bytes)
    decreases |sent|
  {
    if i == |sent| {
      assert sent[..i] == sent;
    } else {
      assert sent[..|sent| - 1][..i] == sent[..i];
      WeighPrefix(sent[..|sent| - 1], i, e);
    }
  }

  // ---------------------------------------------------------------- NewReno

  class NewReno {
    var bytesInFlight: nat
    ghost var sent: seq<M.Tag>
    ghost var acked: seq<M.Tag>
    ghost var lost: seq<M.Tag>
    ghost var removed: seq<M.Tag>

    constructor ()
      ensures View() == M.Account(0, [], [], [], [])
    {
      bytesInFlight, sent, acked, lost, removed := 0, [], [], [], [];
    }

    ghost function View(): M.Account
      reads this
    {
      M.Account(bytesInFlight, sent, acked, lost, removed)
    }

    method OnPacketSentCc(p: SentPacket, ghost e: M.Epoch)
      modifies this
      ensures View() == M.OnSentCc(old(View()), M.TagOf(p, e))
    {
      bytesInFlight := bytesInFlight + p.sentBytes;
      sent := sent + [M.TagOf(p, e)];
    }

    /** Records already retransmitted were subtracted when they were declared lost. */
    method OnPacketAcked(p: SentPacket, ghost e: M.Epoch)
      modifies this
      ensures View() == if M.InFlight(p) then M.OnAckedCc(old(View()), [M.TagOf(p, e)]) else old(View())
    {
      if !p.countForCc { return; }
      if p.state == Inflight {
        SubtractOneMore(bytesInFlight, [], M.TagOf(p, e));
        assert [] + [M.TagOf(p, e)] == [M.TagOf(p, e)];
        bytesInFlight := SaturatingSub(bytesInFlight, p.sentBytes);
        acked := acked + [M.TagOf(p, e)];
      }
    }

    method OnPacketsLost(packets: seq<SentPacket>, ghost e: M.Epoch)
      modifies this
      ensures View() == M.OnLostCc(old(View()), CountedTags(packets, e))
    {
      ghost var tags := [];
      assert packets[..0] == [];
      for i := 0 to |packets|
        invariant tags == CountedTags(packets[..i], e)
        invariant View() == old(View()).(bytesInFlight := M.SubtractAll(old(bytesInFlight), tags))
      {
        assert packets[..i + 1] == packets[..i] + [packets[i]];
        CountedTagsPush(packets[..i], packets[i], e);
        if packets[i].countForCc {
          SubtractOneMore(old(bytesInFlight), tags, M.TagOf(packets[i], e));
          bytesInFlight := SaturatingSub(bytesInFlight, packets[i].sentBytes);
          tags := tags + [M.TagOf(packets[i], e)];
        }
      }
      assert packets[..|packets|] == packets;
      lost := lost + tags;
    }

    /** The subtraction is exact: what the records weigh must be in the counter. */
    method RemoveFromBytesInFlight(packets: seq<SentPacket>, ghost e: M.Epoch)
      requires M.FlightWeight(packets, e, M.Bytes) <= bytesInFlight
      modifies this
      ensures bytesInFlight == old(bytesInFlight) - M.FlightWeight(packets, e, M.Bytes)
      ensures removed == old(removed) + M.InFlightTags(packets, e)
      ensures sent == old(sent) && acked == old(acked) && lost == old(lost)
    {
      assert packets[..0] == [];
      for i := 0 to |packets|
        invariant bytesInFlight == old(bytesInFlight) - M.FlightWeight(packets[..i], e, M.Bytes)
        invariant sent == old(sent) && acked == old(acked) && lost == old(lost) && removed == old(removed)
      {
        assert packets[..i + 1][..i] == packets[..i];
        WeighPrefix(packets, i + 1, e);
        if packets[i].state == Inflight && packets[i].countForCc {
          bytesInFlight := bytesInFlight - packets[i].sentBytes;
        }
      }
      assert packets[..|packets|] == packets;
      removed := removed + M.InFlightTags(packets, e);
    }
  }

  // ---------------------------------------------------------------- one packet number space

  datatype Newly = Newly(includeAckEliciting: bool, largest: (nat, nat))

  /** The summary of an acknowledgement over the records from position `from` on. */
  ghost predicate Summarizes(newly: Option<Newly>, sent: seq<SentPacket>, ranges: AckRanges, from: nat) {
    match newly
    case None => forall k :: from <= k < |sent| ==> !NewlyAcked(sent[k], ranges)
    case Some(n) =>
      && (n.includeAckEliciting <==> exists k :: from <= k < |sent| && NewlyAcked(sent[k], ranges) && sent[k].ackEliciting)
      && (exists k :: from <= k < |sent| && NewlyAcked(sent[k], ranges) && (sent[k].pn, sent[k].timeSent) == n.largest)
      && (forall k :: from <= k < |sent| && NewlyAcked(sent[k], ranges) ==> sent[k].pn <= n.largest.0)
  }

  /** `sent` is `was` with the selected records in `[lo, hi)` settled. */
  ghost predicate SettledWithin(sent: seq<SentPacket>, was: seq<SentPacket>, mask: seq<bool>, state: PacketState, lo: int, hi: int) {
    && |sent| == |was| == |mask|
    && forall k :: 0 <= k < |was| ==> sent[k] == if lo <= k < hi && mask[k] then was[k].(state := state) else was[k]
  }

  lemma AckedMore(a: M.Account, tags: seq<M.Tag>, t: M.Tag)
    ensures M.OnAckedCc(M.OnAckedCc(a, tags), [t]) == M.OnAckedCc(a, tags + [t])
  {
    SubtractOneMore(a.bytesInFlight, tags, t);
    SubtractOneMore(M.SubtractAll(a.bytesInFlight, tags), [], t);
    assert [] + [t] == [t];
    assert a.acked + tags + [t] == a.acked + (tags + [t]);
  }

  function Merge(newly: Option<Newly>, p: SentPacket): Option<Newly> {
    match newly
    case None => Some(Newly(p.ackEliciting, (p.pn, p.timeSent)))
    case Some(n) =>
      Some(Newly(n.includeAckEliciting || p.ackEliciting, if n.largest.0 < p.pn then (p.pn, p.timeSent) else n.largest))
  }

  lemma SummaryStep(newly: Option<Newly>, sent: seq<SentPacket>, ranges: AckRanges, i: nat)
    requires i < |sent| && Summarizes(newly, sent, ranges, i + 1)
    ensures Summarizes(if NewlyAcked(sent[i], ranges) then Merge(newly, sent[i]) else newly, sent, ranges, i)
  {
  }

  lemma BackwardStep(tags: seq<M.Tag>, sent: seq<SentPacket>, mask: seq<bool>, i: nat, e: M.Epoch)
    requires i < |sent| == |mask|
    ensures var next := if mask[i] && M.InFlight(sent[i]) then tags + [M.TagOf(sent[i], e)] else tags;
            tags + M.TagsBackward(sent[..i + 1], mask[..i + 1], e) == next + M.TagsBackward(sent[..i], mask[..i], e)
  {
    assert sent[..i + 1][..i] == sent[..i] && mask[..i + 1][..i] == mask[..i];
    if mask[i] && M.InFlight(sent[i]) {
      var t, rest := M.TagOf(sent[i], e), M.TagsBackward(sent[..i], mask[..i], e);
      assert tags + ([t] + rest) == (tags + [t]) + rest;
    }
  }

  lemma LossTimeStep(sent: seq<SentPacket>, mask: seq<bool>, pass: Pass, i: nat)
    requires i < |sent| == |mask|
    ensures var earlier := NextLossTime(sent[..i], mask[..i], pass);
            NextLossTime(sent[..i + 1], mask[..i + 1], pass) ==
            if Candidate(sent[i], pass) && !mask[i] then
              var t := sent[i].timeSent + pass.lossDelay;
              Some(if earlier.Some? && earlier.value < t then earlier.value else t)
            else earlier
  {
    assert sent[..i + 1][..i] == sent[..i] && mask[..i + 1][..i] == mask[..i];
  }

  lemma LostStep(sent: seq<SentPacket>, mask: seq<bool>, i: nat, e: M.Epoch)
    requires i < |sent| == |mask|
    ensures Positions(mask[..i + 1]) == Positions(mask[..i]) + if mask[i] then [i] else []
    ensures PacketNumbers(sent[..i + 1], mask[..i + 1]) == PacketNumbers(sent[..i], mask[..i]) + if mask[i] then [sent[i].pn] else []
    ensures M.Tags(sent[..i + 1], mask[..i + 1], e)
         == M.Tags(sent[..i], mask[..i], e) + if mask[i] && M.InFlight(sent[i]) then [M.TagOf(sent[i], e)] else []
  {
    assert sent[..i + 1][..i] == sent[..i] && mask[..i + 1][..i] == mask[..i];
  }

  class PacketSpace {
    const epoch: M.Epoch
    var largestAcked: Option<nat>
    var lastAckEliciting: Option<nat>
    var lossTime: Option<nat>
    var sent: seq<SentPacket>

    constructor (e: M.Epoch)
      ensures View() == M.EMPTY && epoch == e
    {
      epoch := e;
      largestAcked, lastAckEliciting, lossTime, sent := None, None, None, [];
    }

    ghost function View(): M.Space
      reads this
    {
      M.Space(largestAcked, lastAckEliciting, lossTime, sent)
    }

    method UpdateLargestAcked(pn: nat)
      modifies this
      ensures View() == old(View()).(largestAcked := M.MaxAcked(old(largestAcked), pn))
    {
      largestAcked := match largestAcked case Some(n) => Some(if n < pn then pn else n) case None => Some(pn);
    }

    method NoneInFlight() returns (none: bool)
      ensures none <==> NoAckElicitingInFlight(sent)
    {
      var i := 0;
      while i < |sent|
        invariant i <= |sent|
        invariant forall k :: 0 <= k < i ==> !sent[k].ackEliciting || sent[k].state != Inflight
      {
        if sent[i].ackEliciting && sent[i].state == Inflight { return false; }
        i := i + 1;
      }
      return true;
    }

    static method Contains(ranges: AckRanges, pn: nat) returns (found: bool)
      ensures found <==> Covered(ranges, pn)
    {
      for i := 0 to |ranges|
        invariant forall k :: 0 <= k < i ==> !(ranges[k].0 <= pn <= ranges[k].1)
      {
        if ranges[i].0 <= pn <= ranges[i].1 { return true; }
      }
      return false;
    }

    method Acknowledge(i: nat, cc: NewReno)
      requires i < |sent|
      modifies this`sent, cc
      ensures sent == old(sent)[i := old(sent)[i].(state := Acked)]
      ensures cc.View() ==
              if M.InFlight(old(sent)[i]) then M.OnAckedCc(old(cc.View()), [M.TagOf(old(sent)[i], epoch)]) else old(cc.View())
    {
      cc.OnPacketAcked(sent[i], epoch);
      sent := sent[i := sent[i].(state := Acked)];
    }

    /** Walk the records from the newest to the oldest, marking and reporting what the frame newly acknowledges. */
    method MarkAcked(ranges: AckRanges, cc: NewReno) returns (newly: Option<Newly>)
      modifies this`sent, cc
      ensures sent == Settle(old(sent), AckMask(old(sent), ranges), Acked)
      ensures cc.View() == M.OnAckedCc(old(cc.View()), M.TagsBackward(old(sent), AckMask(old(sent), ranges), epoch))
      ensures Summarizes(newly, old(sent), ranges, 0)
    {
      newly := None;
      ghost var was, mask, account := sent, AckMask(sent, ranges), cc.View();
      ghost var tags: seq<M.Tag> := [];
      assert was[..|was|] == was && mask[..|was|] == mask;
      for i := |sent| downto 0
        invariant SettledWithin(sent, was, mask, Acked, i, |was|)
        invariant tags + M.TagsBackward(was[..i], mask[..i], epoch) == M.TagsBackward(was, mask, epoch)
        invariant cc.View() == M.OnAckedCc(account, tags)
        invariant Summarizes(newly, was, ranges, i)
      {
        BackwardStep(tags, was, mask, i, epoch);
        SummaryStep(newly, was, ranges, i);
        var p := sent[i];
        var hit := Contains(ranges, p.pn);
        if p.state != Acked && hit {
          Acknowledge(i, cc);
          newly := Merge(newly, p);
          if M.InFlight(p) {
            AckedMore(account, tags, M.TagOf(p, epoch));
            tags := tags + [M.TagOf(p, epoch)];
          }
        }
      }
      assert tags + [] == tags;
    }

    method TrimSettled()
      modifies this`sent
      ensures sent == TrimFront(old(sent))
    {
      while sent != [] && sent[0].state != Inflight
        invariant TrimFront(sent) == TrimFront(old(sent))
        decreases |sent|
      {
        sent := sent[1..];
      }
    }

    method OnAckRcvd(ranges: AckRanges, cc: NewReno) returns (newly: Option<Newly>)
      modifies this`sent, cc
      ensures sent == TrimFront(Settle(old(sent), AckMask(old(sent), ranges), Acked))
      ensures cc.View() == M.OnAckedCc(old(cc.View()), M.TagsBackward(old(sent), AckMask(old(sent), ranges), epoch))
      ensures Summarizes(newly, old(sent), ranges, 0)
    {
      newly := MarkAcked(ranges, cc);
      TrimSettled();
    }

    method LastAcked() returns (end: nat)
      ensures end == AckedEnd(sent)
    {
      end := |sent|;
      assert sent[..end] == sent;
      while end > 0 && sent[end - 1].state != Acked
        invariant end <= |sent| && AckedEnd(sent[..end]) == AckedEnd(sent)
      {
        assert sent[..end][..end - 1] == sent[..end - 1];
        end := end - 1;
      }
    }

    /** Mark what the pass declares lost; collect positions and packets, and the next deadline. */
    method MarkLost(pass: Pass) returns (positions: seq<nat>, packets: seq<SentPacket>, pns: seq<nat>)
      modifies this`sent, this`lossTime
      ensures sent == Settle(old(sent), LostMask(old(sent), pass), Retransmitted)
      ensures lossTime == NextLossTime(old(sent), LostMask(old(sent), pass), pass)
      ensures positions == Positions(LostMask(old(sent), pass))
      ensures pns == PacketNumbers(old(sent), LostMask(old(sent), pass))
      ensures CountedTags(packets, epoch) == M.Tags(old(sent), LostMask(old(sent), pass), epoch)
    {
      var end := LastAcked();
      positions, packets, pns, lossTime := [], [], [], None;
      ghost var was, mask := sent, LostMask(sent, pass);
      assert was[..0] == [] && mask[..0] == [];
      for i := 0 to |sent|
        invariant SettledWithin(sent, was, mask, Retransmitted, 0, i)
        invariant lossTime == NextLossTime(was[..i], mask[..i], pass)
        invariant positions == Positions(mask[..i])
        invariant pns == PacketNumbers(was[..i], mask[..i])
        invariant CountedTags(packets, epoch) == M.Tags(was[..i], mask[..i], epoch)
      {
        var p := sent[i];
        LossTimeStep(was, mask, pass, i);
        LostStep(was, mask, i, epoch);
        if p.state == Inflight && p.pn <= pass.largestAcked {
          if p.timeSent <= pass.now - pass.lossDelay || (end > 0 && end - 1 >= i + PACKET_THRESHOLD) {
            CountedTagsPush(packets, p.(state := Retransmitted), epoch);
            sent := sent[i := p.(state := Retransmitted)];
            positions, packets, pns := positions + [i], packets + [sent[i]], pns + [p.pn];
          } else {
            var t := p.timeSent + pass.lossDelay;
            lossTime := Some(if lossTime.Some? && lossTime.value < t then lossTime.value else t);
          }
        }
      }
      assert was[..|was|] == was && mask[..|was|] == mask;
    }

    static method IsPersistent(positions: seq<nat>) returns (persistent: bool)
      ensures persistent <==> FoldRuns(positions).Persistent?
    {
      var prev: Option<nat>, count: nat := None, 0;
      assert positions[..0] == [];
      for k := 0 to |positions|
        invariant FoldRuns(positions[..k]) == Run(prev, count)
      {
        assert positions[..k + 1][..k] == positions[..k];
        var p := positions[k];
        var adjacent := if prev.Some? && p == prev.value + 1 then count + 1 else 0;
        if adjacent + 1 >= PERSISTENT_LOSS_THRESHOLD {
          PersistentSticks(positions, k + 1);
          return true;
        }
        prev, count := Some(p), adjacent;
      }
      assert positions[..|positions|] == positions;
      return false;
    }

    /** One detection pass; the verdict is the model's. */
    method DetectLostPackets(now: nat, lossDelay: nat, cc: NewReno) returns (lost: seq<nat>, persistent: bool)
      modifies this`sent, this`lossTime, cc
      ensures largestAcked.None? ==>
                lost == [] && !persistent && View() == old(View()).(lossTime := None) && cc.View() == old(cc.View())
      ensures largestAcked.Some? ==>
                var pass := Pass(largestAcked.value, now, lossDelay);
                var mask := LostMask(old(sent), pass);
                && Verdict(lost, lossTime, persistent) == Detect(old(sent), pass)
                && sent == Settle(old(sent), mask, Retransmitted)
                && cc.View() == M.OnLostCc(old(cc.View()), M.Tags(old(sent), mask, epoch))
    {
      lossTime := None;
      if largestAcked.None? { return [], false; }
      var positions, packets;
      positions, packets, lost := MarkLost(Pass(largestAcked.value, now, lossDelay));
      persistent := IsPersistent(positions);
      if packets != [] {
        cc.OnPacketsLost(packets, epoch);
      }
    }

    method Discard(cc: NewReno) returns (pns: seq<nat>)
      requires M.FlightWeight(sent, epoch, M.Bytes) <= cc.bytesInFlight
      modifies this, cc
      ensures View() == M.EMPTY
      ensures pns == PacketNumbers(old(sent), InflightMask(old(sent)))
      ensures M.Weigh(M.InFlightTags(old(sent), epoch), M.Bytes) <= old(cc.bytesInFlight)
      ensures cc.View() == M.OnRemovedCc(old(cc.View()), M.InFlightTags(old(sent), epoch))
    {
      pns := [];
      ghost var mask := InflightMask(sent);
      assert sent[..0] == [] && mask[..0] == [];
      for i := 0 to |sent|
        invariant pns == PacketNumbers(sent[..i], mask[..i])
      {
        assert sent[..i + 1][..i] == sent[..i] && mask[..i + 1][..i] == mask[..i];
        if sent[i].state == Inflight { pns := pns + [sent[i].pn]; }
      }
      assert sent[..|sent|] == sent && mask[..|sent|] == mask;
      M.InFlightTagsWeigh(sent, epoch, M.Bytes);
      cc.RemoveFromBytesInFlight(sent, epoch);
      sent, largestAcked, lastAckEliciting, lossTime := [], None, None, None;
    }
  }
}
