/**
 Which packets a detection pass declares lost and when the next pass is due, said of the sent records
 themselves (section 6.1 of RFC 9002).
 */
module LossVerdicts {
  import opened Basics
  import opened RecoveryModel

  /** Still unacknowledged although something at or above it was acknowledged. */
  predicate InDoubt(p: SentPacket, pass: Pass) { p.state == Inflight && p.pn <= pass.largestAcked }

  predicate TooOld(p: SentPacket, pass: Pass) { p.timeSent + pass.lossDelay <= pass.now }

  /** A record acknowledged three or more positions later. */
  predicate Overtaken(sent: seq<SentPacket>, i: nat) { exists j :: i + 3 <= j < |sent| && sent[j].state == Acked }

  predicate Doomed(sent: seq<SentPacket>, i: nat, pass: Pass) {
    i < |sent| && InDoubt(sent[i], pass) && (TooOld(sent[i], pass) || Overtaken(sent, i))
  }

  lemma {:induction false} AckedEndIs(sent: seq<SentPacket>)
    ensures AckedEnd(sent) <= |sent|
    ensures AckedEnd(sent) > 0 ==> sent[AckedEnd(sent) - 1].state == Acked
    ensures forall j :: AckedEnd(sent) <= j < |sent| ==> sent[j].state != Acked
    decreases |sent|
  {
    if sent != [] && sent[|sent| - 1].state != Acked { AckedEndIs(sent[..|sent| - 1]); }
  }

  lemma LostIffDoomed(sent: seq<SentPacket>, pass: Pass, i: nat)
    requires i < |sent|
    ensures LostMask(sent, pass)[i] <==> Doomed(sent, i, pass)
  {
    AckedEndIs(sent);
    if AckedEnd(sent) > i + 3 { assert sent[AckedEnd(sent) - 1].state == Acked; }
  }

  // ---------------------------------------------------------------- what is reported

  /** `ps` lists the positions of the doomed records, in the order they were sent. */
  ghost predicate ListsDoomed(ps: seq<nat>, sent: seq<SentPacket>, pass: Pass) {
    && (forall a, b :: 0 <= a < b < |ps| ==> ps[a] < ps[b])
    && (forall i: nat :: i in ps <==> Doomed(sent, i, pass))
  }

  lemma {:induction false} PositionsSelect(mask: seq<bool>, i: nat)
    ensures i in Positions(mask) <==> i < |mask| && mask[i]
    decreases |mask|
  {
    if mask != [] { PositionsSelect(mask[..|mask| - 1], i); }
  }

  lemma {:induction false} PositionsAscend(mask: seq<bool>, a: nat, b: nat)
    requires a < b < |Positions(mask)|
    ensures Positions(mask)[a] < Positions(mask)[b]
    decreases |mask|
  {
    var n := |mask| - 1;
    var ps := Positions(mask[..n]);
    if b < |ps| {
      PositionsAscend(mask[..n], a, b);
    } else {
      assert ps[a] in ps;
      PositionsSelect(mask[..n], ps[a]);
    }
  }

  lemma {:induction false} NumbersAtPositions(sent: seq<SentPacket>, mask: seq<bool>)
    requires |mask| == |sent|
    ensures |PacketNumbers(sent, mask)| == |Positions(mask)|
    ensures forall a :: 0 <= a < |Positions(mask)| ==>
              Positions(mask)[a] < |sent| && PacketNumbers(sent, mask)[a] == sent[Positions(mask)[a]].pn
    decreases |sent|
  {
    if sent != [] { NumbersAtPositions(sent[..|sent| - 1], mask[..|mask| - 1]); }
  }

  lemma DoomedAreListed(sent: seq<SentPacket>, pass: Pass)
    ensures ListsDoomed(Positions(LostMask(sent, pass)), sent, pass)
  {
    var mask := LostMask(sent, pass);
    forall i: nat ensures i in Positions(mask) <==> Doomed(sent, i, pass) {
      PositionsSelect(mask, i);
      if i < |sent| { LostIffDoomed(sent, pass, i); }
    }
    forall a, b | 0 <= a < b < |Positions(mask)| ensures Positions(mask)[a] < Positions(mask)[b] {
      PositionsAscend(mask, a, b);
    }
  }

  /** A pass reports exactly the doomed records, each once and in the order they were sent. */
  lemma LostExactly(sent: seq<SentPacket>, pass: Pass) returns (ps: seq<nat>)
    ensures ListsDoomed(ps, sent, pass)
    ensures |Detect(sent, pass).lost| == |ps|
    ensures forall a :: 0 <= a < |ps| ==> ps[a] < |sent| && Detect(sent, pass).lost[a] == sent[ps[a]].pn
  {
    ps := Positions(LostMask(sent, pass));
    DoomedAreListed(sent, pass);
    NumbersAtPositions(sent, LostMask(sent, pass));
  }

  predicate ThreeDoomed(sent: seq<SentPacket>, i: nat, pass: Pass) {
    Doomed(sent, i, pass) && Doomed(sent, i + 1, pass) && Doomed(sent, i + 2, pass)
  }

  /** It reports persistent loss if and only if three neighbouring records were doomed. */
  lemma PersistentIff(sent: seq<SentPacket>, pass: Pass)
    ensures Detect(sent, pass).persistent <==> exists i: nat :: ThreeDoomed(sent, i, pass)
  {
    var mask := LostMask(sent, pass);
    PersistentIffThreeAdjacent(mask);
    forall i: nat ensures ThreeAt(mask, i) <==> ThreeDoomed(sent, i, pass) {
      if i + 2 < |sent| {
        LostIffDoomed(sent, pass, i);
        LostIffDoomed(sent, pass, i + 1);
        LostIffDoomed(sent, pass, i + 2);
      }
    }
  }

  /** A packet number is reported lost if and only if some doomed record carries it. */
  lemma LostIff(sent: seq<SentPacket>, pass: Pass, pn: nat)
    ensures pn in Detect(sent, pass).lost <==> exists i: nat :: Doomed(sent, i, pass) && sent[i].pn == pn
  {
    var ps := LostExactly(sent, pass);
    var lost := Detect(sent, pass).lost;
    if pn in lost {
      var a :| 0 <= a < |lost| && lost[a] == pn;
      assert ps[a] in ps;
      assert Doomed(sent, ps[a], pass) && sent[ps[a]].pn == pn;
    }
    if i: nat :| Doomed(sent, i, pass) && sent[i].pn == pn {
      assert i in ps;
      var a :| 0 <= a < |ps| && ps[a] == i;
      assert lost[a] == pn;
    }
  }

  // ---------------------------------------------------------------- what is left

  /** The queue after the pass: the doomed records are marked for retransmission, the others stay as they are. */
  lemma PassMarks(sent: seq<SentPacket>, pass: Pass, i: nat)
    requires i < |sent|
    ensures |Keep(sent, LossPass(pass))| == |sent|
    ensures Keep(sent, LossPass(pass))[i] == if Doomed(sent, i, pass) then sent[i].(state := Retransmitted) else sent[i]
  {
    LostIffDoomed(sent, pass, i);
  }

  /** Whatever is still in doubt after a pass is younger than the loss delay. */
  lemma SurvivorsAreYoung(sent: seq<SentPacket>, pass: Pass, i: nat)
    requires i < |Keep(sent, LossPass(pass))| && InDoubt(Keep(sent, LossPass(pass))[i], pass)
    ensures pass.now < sent[i].timeSent + pass.lossDelay && sent[i] == Keep(sent, LossPass(pass))[i]
  {
    PassMarks(sent, pass, i);
  }

  ghost predicate IsLeastDeadline(t: Option<nat>, sent: seq<SentPacket>, pass: Pass) {
    && (t.Some? <==> exists i :: 0 <= i < |sent| && InDoubt(sent[i], pass))
    && (t.Some? ==>
          && (exists i :: 0 <= i < |sent| && InDoubt(sent[i], pass) && t.value == sent[i].timeSent + pass.lossDelay)
          && (forall i :: 0 <= i < |sent| && InDoubt(sent[i], pass) ==> t.value <= sent[i].timeSent + pass.lossDelay))
  }

  lemma {:induction false} NextLossTimeIs(sent: seq<SentPacket>, mask: seq<bool>, pass: Pass)
    requires |mask| == |sent|
    ensures IsLeastDeadline(NextLossTime(sent, mask, pass), Settle(sent, mask, Retransmitted), pass)
    decreases |sent|
  {
    if sent != [] {
      var n := |sent| - 1;
      NextLossTimeIs(sent[..n], mask[..n], pass);
      var after := Settle(sent, mask, Retransmitted);
      assert after[..n] == Settle(sent[..n], mask[..n], Retransmitted);
      assert forall i :: 0 <= i < n ==> after[..n][i] == after[i];
      assert InDoubt(after[n], pass) <==> Candidate(sent[n], pass) && !mask[n];
      assert after[n].timeSent == sent[n].timeSent;
    }
  }

  /** The next pass is due when the oldest record still in doubt reaches the loss delay; that is always later than now. */
  lemma LossTimeIsLeast(sent: seq<SentPacket>, pass: Pass)
    ensures IsLeastDeadline(Detect(sent, pass).lossTime, Keep(sent, LossPass(pass)), pass)
    ensures Detect(sent, pass).lossTime.Some? ==> pass.now < Detect(sent, pass).lossTime.value
  {
    NextLossTimeIs(sent, LostMask(sent, pass), pass);
    var after := Keep(sent, LossPass(pass));
    if Detect(sent, pass).lossTime.Some? {
      var i :| 0 <= i < |after| && InDoubt(after[i], pass)
               && Detect(sent, pass).lossTime.value == after[i].timeSent + pass.lossDelay;
      SurvivorsAreYoung(sent, pass, i);
    }
  }

  /** A pass held at that time or later, with no longer delay, loses at least one packet: the timer never fires in vain. */
  lemma LossTimeFires(sent: seq<SentPacket>, pass: Pass, later: Pass)
    requires Detect(sent, pass).lossTime.Some? && Detect(sent, pass).lossTime.value <= later.now
    requires pass.largestAcked <= later.largestAcked && later.lossDelay <= pass.lossDelay
    ensures Detect(Keep(sent, LossPass(pass)), later).lost != []
  {
    LossTimeIsLeast(sent, pass);
    var after := Keep(sent, LossPass(pass));
    var i: nat :| i < |after| && InDoubt(after[i], pass)
                  && Detect(sent, pass).lossTime.value == after[i].timeSent + pass.lossDelay;
    assert Doomed(after, i, later);
    LostIff(after, later, after[i].pn);
  }

  // ---------------------------------------------------------------- acknowledgements

  /** An acknowledgement marks exactly the records whose number lies in one of its ranges; a late one counts too. */
  lemma AckMarks(sent: seq<SentPacket>, ranges: AckRanges, i: nat)
    requires i < |sent|
    ensures |Remember(sent, Ack(ranges))| == |sent|
    ensures var p, after := sent[i], Remember(sent, Ack(ranges))[i];
            after == if exists r :: 0 <= r < |ranges| && ranges[r].0 <= p.pn <= ranges[r].1 then p.(state := Acked) else p
  {
  }

  /** Of that the queue keeps everything from the first record still in flight on. */
  lemma AckTrims(sent: seq<SentPacket>, ranges: AckRanges)
    ensures Trims(Remember(sent, Ack(ranges)), Keep(sent, Ack(ranges)))
    ensures Keep(sent, Ack(ranges)) != [] ==> Keep(sent, Ack(ranges))[0].state == Inflight
  {
    TrimFrontTrims(Remember(sent, Ack(ranges)));
    TrimReachesFlight(Remember(sent, Ack(ranges)));
  }

  lemma {:induction false} TrimReachesFlight(sent: seq<SentPacket>)
    ensures TrimFront(sent) != [] ==> TrimFront(sent)[0].state == Inflight
    decreases |sent|
  {
    if sent != [] && sent[0].state != Inflight { TrimReachesFlight(sent[1..]); }
  }

  // ---------------------------------------------------------------- a space that is given up

  /** What a discarded space hands over are exactly the packets still in flight. */
  lemma HandedOverIff(sent: seq<SentPacket>, pn: nat)
    ensures pn in PacketNumbers(sent, InflightMask(sent)) <==> exists i :: 0 <= i < |sent| && sent[i].state == Inflight && sent[i].pn == pn
  {
    var mask := InflightMask(sent);
    var pns, ps := PacketNumbers(sent, mask), Positions(mask);
    NumbersAtPositions(sent, mask);
    if pn in pns {
      var a :| 0 <= a < |pns| && pns[a] == pn;
      assert ps[a] in ps;
      PositionsSelect(mask, ps[a]);
      assert sent[ps[a]].state == Inflight && sent[ps[a]].pn == pn;
    }
    if i: nat :| i < |sent| && sent[i].state == Inflight && sent[i].pn == pn {
      PositionsSelect(mask, i);
      var a :| 0 <= a < |ps| && ps[a] == i;
      assert pns[a] == pn;
    }
  }
}
