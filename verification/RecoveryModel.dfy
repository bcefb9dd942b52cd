/**
 Loss recovery of one path (RFC 9002, appendix A) as values: three packet number spaces of sent
 records, and the congestion controller's account of the bytes in flight.
 */
module RecoveryModel {
  import opened Basics

  // ---------------------------------------------------------------- sent records

  datatype PacketState = Inflight | Acked | Retransmitted

  datatype SentPacket = SentPacket(
    pn: nat, timeSent: nat, ackEliciting: bool, countForCc: bool, sentBytes: nat, state: PacketState)

  /** The acknowledged packet numbers, as inclusive ranges. */
  type AckRanges = seq<(nat, nat)>

  predicate Covered(ranges: AckRanges, pn: nat) {
    exists i :: 0 <= i < |ranges| && ranges[i].0 <= pn <= ranges[i].1
  }

  predicate NewlyAcked(p: SentPacket, ranges: AckRanges) { p.state != Acked && Covered(ranges, p.pn) }

  function AckMask(sent: seq<SentPacket>, ranges: AckRanges): (mask: seq<bool>) {
    seq(|sent|, i requires 0 <= i < |sent| => NewlyAcked(sent[i], ranges))
  }

  /** Give the selected records a new state. */
  function Settle(sent: seq<SentPacket>, mask: seq<bool>, state: PacketState): (settled: seq<SentPacket>)
    requires |mask| == |sent|
  {
    seq(|sent|, i requires 0 <= i < |sent| => if mask[i] then sent[i].(state := state) else sent[i])
  }

  function TrimFront(sent: seq<SentPacket>): (kept: seq<SentPacket>) {
    if sent != [] && sent[0].state != Inflight then TrimFront(sent[1..]) else sent
  }

  predicate NoAckElicitingInFlight(sent: seq<SentPacket>) {
    forall i :: 0 <= i < |sent| ==> !sent[i].ackEliciting || sent[i].state != Inflight
  }

  // ---------------------------------------------------------------- loss detection

  const PACKET_THRESHOLD: nat := 3

  /** One past the last acknowledged position, or zero if there is none. */
  function AckedEnd(sent: seq<SentPacket>): (end: nat) {
    if sent == [] then 0
    else if sent[|sent| - 1].state == Acked then |sent|
    else AckedEnd(sent[..|sent| - 1])
  }

  /** The parameters of one detection pass. */
  datatype Pass = Pass(largestAcked: nat, now: int, lossDelay: nat)

  predicate Candidate(p: SentPacket, pass: Pass) { p.state == Inflight && p.pn <= pass.largestAcked }

  predicate IsLost(sent: seq<SentPacket>, i: nat, pass: Pass)
    requires i < |sent|
  {
    Candidate(sent[i], pass)
    && (sent[i].timeSent <= pass.now - pass.lossDelay || AckedEnd(sent) > i + PACKET_THRESHOLD)
  }

  function LostMask(sent: seq<SentPacket>, pass: Pass): (mask: seq<bool>) {
    seq(|sent|, i requires 0 <= i < |sent| => IsLost(sent, i, pass))
  }

  /** When the earliest surviving candidate will be lost by age. */
  function NextLossTime(sent: seq<SentPacket>, mask: seq<bool>, pass: Pass): (t: Option<nat>)
    requires |mask| == |sent|
  {
    if sent == [] then None
    else
      var n := |sent| - 1;
      var earlier := NextLossTime(sent[..n], mask[..n], pass);
      if Candidate(sent[n], pass) && !mask[n] then
        var t := sent[n].timeSent + pass.lossDelay;
        if earlier.Some? && earlier.value <= t then earlier else Some(t)
      else earlier
  }

  /** The selected positions, in increasing order. */
  function Positions(mask: seq<bool>): (ps: seq<nat>) {
    if mask == [] then []
    else
      var n := |mask| - 1;
      Positions(mask[..n]) + if mask[n] then [n] else []
  }

  function PacketNumbers(sent: seq<SentPacket>, mask: seq<bool>): (pns: seq<nat>)
    requires |mask| == |sent|
  {
    if sent == [] then []
    else
      var n := |sent| - 1;
      PacketNumbers(sent[..n], mask[..n]) + if mask[n] then [sent[n].pn] else []
  }

  function InflightMask(sent: seq<SentPacket>): seq<bool> {
    seq(|sent|, i requires 0 <= i < |sent| => sent[i].state == Inflight)
  }

  const PERSISTENT_LOSS_THRESHOLD: nat := 3

  /** The fold over lost positions: previous position and length of the current run, or failure. */
  datatype Run = Run(prev: Option<nat>, count: nat) | Persistent

  function Extend(run: Run, p: nat): Run {
    match run
    case Persistent => Persistent
    case Run(prev, count) =>
      var adjacent := if prev.Some? && p == prev.value + 1 then count + 1 else 0;
      if adjacent + 1 >= PERSISTENT_LOSS_THRESHOLD then Persistent else Run(Some(p), adjacent)
  }

  function FoldRuns(ps: seq<nat>): Run {
    if ps == [] then Run(None, 0) else Extend(FoldRuns(ps[..|ps| - 1]), ps[|ps| - 1])
  }

  /** What one detection pass reports. */
  datatype Verdict = Verdict(lost: seq<nat>, lossTime: Option<nat>, persistent: bool)

  function Detect(sent: seq<SentPacket>, pass: Pass): Verdict {
    var mask := LostMask(sent, pass);
    Verdict(PacketNumbers(sent, mask), NextLossTime(sent, mask, pass), FoldRuns(Positions(mask)).Persistent?)
  }

  // ---------------------------------------------------------------- persistent loss

  predicate ThreeAt(mask: seq<bool>, i: int) {
    0 <= i < |mask| - 2 && mask[i] && mask[i + 1] && mask[i + 2]
  }

  ghost predicate ThreeInARow(mask: seq<bool>) { exists i :: ThreeAt(mask, i) }

  /** What the fold knows after a mask without three adjacent losses: the last loss, and whether it had a neighbour. */
  ghost predicate LastRun(mask: seq<bool>, run: Run) {
    match run
    case Persistent => false
    case Run(None, count) => count == 0 && forall i :: 0 <= i < |mask| ==> !mask[i]
    case Run(Some(p), count) =>
      && p < |mask| && mask[p] && (forall i :: p < i < |mask| ==> !mask[i])
      && count == if p > 0 && mask[p - 1] then 1 else 0
  }

  lemma StepOfFold(mask: seq<bool>)
    requires mask != []
    ensures var n := |mask| - 1;
            FoldRuns(Positions(mask)) == if mask[n] then Extend(FoldRuns(Positions(mask[..n])), n) else FoldRuns(Positions(mask[..n]))
  {
    var n, ps := |mask| - 1, Positions(mask[..|mask| - 1]);
    if mask[n] {
      assert (ps + [n])[..|ps|] == ps;
    } else {
      assert ps + [] == ps;
    }
  }

  lemma StepOfLastRun(mask: seq<bool>, run: Run)
    requires mask != [] && LastRun(mask[..|mask| - 1], run) && !ThreeInARow(mask[..|mask| - 1])
    ensures var next := if mask[|mask| - 1] then Extend(run, |mask| - 1) else run;
            if ThreeAt(mask, |mask| - 3) then next.Persistent? else LastRun(mask, next)
  {
    var n := |mask| - 1;
    assert !ThreeAt(mask[..n], n - 3);
    assert forall i :: 0 <= i < n ==> mask[..n][i] == mask[i];
  }

  /** The fold over lost positions fails exactly when three adjacent positions were lost in the pass. */
  lemma {:induction false} PersistentIffThreeAdjacent(mask: seq<bool>)
    ensures FoldRuns(Positions(mask)).Persistent? <==> ThreeInARow(mask)
    ensures !ThreeInARow(mask) ==> LastRun(mask, FoldRuns(Positions(mask)))
    decreases |mask|
  {
    if mask == [] {
      assert forall i :: !ThreeAt(mask, i);
    } else {
      var run := FoldRuns(Positions(mask[..|mask| - 1]));
      PersistentIffThreeAdjacent(mask[..|mask| - 1]);
      StepOfFold(mask);
      ThreeInAPrefix(mask);
      if run.Run? { StepOfLastRun(mask, run); }
    }
  }

  lemma ThreeInAPrefix(mask: seq<bool>)
    requires mask != []
    ensures ThreeInARow(mask) <==> ThreeInARow(mask[..|mask| - 1]) || ThreeAt(mask, |mask| - 3)
  {
    var front := mask[..|mask| - 1];
    forall i ensures ThreeAt(mask, i) <==> ThreeAt(front, i) || (i == |mask| - 3 && ThreeAt(mask, i)) {
    }
  }

  // ---------------------------------------------------------------- the trimmed queue refines the history

  /** `trimmed` is `history` without a prefix of settled records. */
  ghost predicate Trims(history: seq<SentPacket>, trimmed: seq<SentPacket>) {
    && |trimmed| <= |history|
    && history[|history| - |trimmed|..] == trimmed
    && forall i :: 0 <= i < |history| - |trimmed| ==> history[i].state != Inflight
  }

  lemma {:induction false} TrimFrontTrims(sent: seq<SentPacket>)
    ensures Trims(sent, TrimFront(sent))
    decreases |sent|
  {
    if sent != [] && sent[0].state != Inflight {
      TrimFrontTrims(sent[1..]);
      var kept := TrimFront(sent[1..]);
      var k := |sent| - |kept|;
      assert sent[k..] == sent[1..][k - 1..];
      forall i | 0 <= i < k ensures sent[i].state != Inflight {
        if i > 0 { assert sent[i] == sent[1..][i - 1]; }
      }
    }
  }

  lemma TrimsCompose(a: seq<SentPacket>, b: seq<SentPacket>, c: seq<SentPacket>)
    requires Trims(a, b) && Trims(b, c)
    ensures Trims(a, c)
  {
    var k, m := |a| - |b|, |b| - |c|;
    assert a[k + m..] == a[k..][m..];
    forall i | 0 <= i < k + m ensures a[i].state != Inflight {
      if i >= k { assert a[i] == b[i - k]; }
    }
  }

  /** A send appends to both; the relation is kept. */
  lemma SendKeepsTrims(history: seq<SentPacket>, trimmed: seq<SentPacket>, p: SentPacket)
    requires Trims(history, trimmed)
    ensures Trims(history + [p], trimmed + [p])
  {
  }

  /** Settling the same retained records on both sides keeps the relation, whatever happens to dropped ones. */
  lemma SettleKeepsTrims(history: seq<SentPacket>, trimmed: seq<SentPacket>, hm: seq<bool>, tm: seq<bool>, state: PacketState)
    requires Trims(history, trimmed) && |hm| == |history| && |tm| == |trimmed| && state != Inflight
    requires forall i :: 0 <= i < |tm| ==> tm[i] == hm[|history| - |trimmed| + i]
    ensures Trims(Settle(history, hm, state), Settle(trimmed, tm, state))
  {
    var k := |history| - |trimmed|;
    var h, t := Settle(history, hm, state), Settle(trimmed, tm, state);
    forall i | 0 <= i < |t| ensures h[k + i] == t[i] {
      assert trimmed[i] == history[k + i];
    }
    assert h[k..] == t;
  }

  /** Acknowledging on both sides keeps the relation, also when it reaches records already dropped. */
  lemma AckKeepsTrims(history: seq<SentPacket>, trimmed: seq<SentPacket>, ranges: AckRanges)
    requires Trims(history, trimmed)
    ensures Trims(Settle(history, AckMask(history, ranges), Acked),
                  TrimFront(Settle(trimmed, AckMask(trimmed, ranges), Acked)))
  {
    var hm, tm := AckMask(history, ranges), AckMask(trimmed, ranges);
    forall i | 0 <= i < |tm| ensures tm[i] == hm[|history| - |trimmed| + i] {
      assert trimmed[i] == history[|history| - |trimmed| + i];
    }
    SettleKeepsTrims(history, trimmed, hm, tm, Acked);
    TrimFrontTrims(Settle(trimmed, tm, Acked));
    TrimsCompose(Settle(history, hm, Acked), Settle(trimmed, tm, Acked), TrimFront(Settle(trimmed, tm, Acked)));
  }

  lemma {:induction false} AckedEndTrims(history: seq<SentPacket>, trimmed: seq<SentPacket>)
    requires Trims(history, trimmed)
    ensures var k := |history| - |trimmed|;
            AckedEnd(trimmed) > 0 ==> AckedEnd(history) == k + AckedEnd(trimmed)
    ensures var k := |history| - |trimmed|;
            AckedEnd(trimmed) == 0 ==> AckedEnd(history) <= k
    decreases |trimmed|
  {
    var k := |history| - |trimmed|;
    if trimmed == [] {
      AckedEndBound(history);
    } else {
      assert history[|history| - 1] == trimmed[|trimmed| - 1];
      assert history[..|history| - 1][k..] == trimmed[..|trimmed| - 1];
      AckedEndTrims(history[..|history| - 1], trimmed[..|trimmed| - 1]);
    }
  }

  lemma {:induction false} AckedEndBound(sent: seq<SentPacket>)
    ensures AckedEnd(sent) <= |sent|
    decreases |sent|
  {
    if sent != [] { AckedEndBound(sent[..|sent| - 1]); }
  }

  /** The verdict on a retained record is the verdict on the same record of the full history. */
  lemma VerdictOnTrimmed(history: seq<SentPacket>, trimmed: seq<SentPacket>, pass: Pass, i: nat)
    requires Trims(history, trimmed) && i < |trimmed|
    ensures IsLost(trimmed, i, pass) <==> IsLost(history, |history| - |trimmed| + i, pass)
  {
    AckedEndTrims(history, trimmed);
    assert trimmed[i] == history[|history| - |trimmed| + i];
  }

  lemma LostMaskOnTrimmed(history: seq<SentPacket>, trimmed: seq<SentPacket>, pass: Pass)
    requires Trims(history, trimmed)
    ensures var k := |history| - |trimmed|;
            && LostMask(history, pass)[k..] == LostMask(trimmed, pass)
            && forall i :: 0 <= i < k ==> !LostMask(history, pass)[i]
  {
    var k := |history| - |trimmed|;
    forall i | 0 <= i < |trimmed| ensures LostMask(history, pass)[k + i] == LostMask(trimmed, pass)[i] {
      VerdictOnTrimmed(history, trimmed, pass, i);
    }
  }

  lemma LostKeepsTrims(history: seq<SentPacket>, trimmed: seq<SentPacket>, pass: Pass)
    requires Trims(history, trimmed)
    ensures Trims(Settle(history, LostMask(history, pass), Retransmitted),
                  Settle(trimmed, LostMask(trimmed, pass), Retransmitted))
  {
    var hm, tm, k := LostMask(history, pass), LostMask(trimmed, pass), |history| - |trimmed|;
    LostMaskOnTrimmed(history, trimmed, pass);
    assert forall i :: 0 <= i < |tm| ==> tm[i] == hm[k..][i];
    SettleKeepsTrims(history, trimmed, hm, tm, Retransmitted);
  }

  /** `tm` selects in the trimmed queue what `hm` selects in the history. */
  ghost predicate SameSelection(history: seq<SentPacket>, trimmed: seq<SentPacket>, hm: seq<bool>, tm: seq<bool>) {
    && Trims(history, trimmed) && |hm| == |history| && |tm| == |trimmed|
    && hm[|history| - |trimmed|..] == tm && forall i :: 0 <= i < |history| - |trimmed| ==> !hm[i]
  }

  lemma SelectionOfFronts(history: seq<SentPacket>, trimmed: seq<SentPacket>, hm: seq<bool>, tm: seq<bool>)
    requires SameSelection(history, trimmed, hm, tm) && trimmed != []
    ensures var n, m := |history| - 1, |trimmed| - 1;
            && SameSelection(history[..n], trimmed[..m], hm[..n], tm[..m])
            && history[n] == trimmed[m] && hm[n] == tm[m]
  {
    var k, n, m := |history| - |trimmed|, |history| - 1, |trimmed| - 1;
    assert history[..n][k..] == trimmed[..m] && hm[..n][k..] == tm[..m];
  }

  lemma {:induction false} SamePacketNumbers(history: seq<SentPacket>, trimmed: seq<SentPacket>, hm: seq<bool>, tm: seq<bool>)
    requires SameSelection(history, trimmed, hm, tm)
    ensures PacketNumbers(history, hm) == PacketNumbers(trimmed, tm)
    decreases |history|
  {
    if history != [] {
      var n := |history| - 1;
      if trimmed == [] {
        SamePacketNumbers(history[..n], [], hm[..n], []);
      } else {
        SelectionOfFronts(history, trimmed, hm, tm);
        SamePacketNumbers(history[..n], trimmed[..|trimmed| - 1], hm[..n], tm[..|trimmed| - 1]);
      }
    }
  }

  lemma {:induction false} SameNextLossTime(history: seq<SentPacket>, trimmed: seq<SentPacket>, hm: seq<bool>, tm: seq<bool>, pass: Pass)
    requires SameSelection(history, trimmed, hm, tm)
    ensures NextLossTime(history, hm, pass) == NextLossTime(trimmed, tm, pass)
    decreases |history|
  {
    if history != [] {
      var n := |history| - 1;
      if trimmed == [] {
        assert !Candidate(history[n], pass);
        SameNextLossTime(history[..n], [], hm[..n], [], pass);
      } else {
        SelectionOfFronts(history, trimmed, hm, tm);
        SameNextLossTime(history[..n], trimmed[..|trimmed| - 1], hm[..n], tm[..|trimmed| - 1], pass);
      }
    }
  }

  lemma ThreeInASuffix(hm: seq<bool>, tm: seq<bool>)
    requires |tm| <= |hm| && hm[|hm| - |tm|..] == tm && forall i :: 0 <= i < |hm| - |tm| ==> !hm[i]
    ensures ThreeInARow(hm) <==> ThreeInARow(tm)
  {
    var k := |hm| - |tm|;
    assert forall i :: 0 <= i < |tm| ==> tm[i] == hm[k + i];
    if ThreeInARow(hm) {
      var i :| ThreeAt(hm, i);
      assert ThreeAt(tm, i - k);
    }
    if ThreeInARow(tm) {
      var i :| ThreeAt(tm, i);
      assert ThreeAt(hm, k + i);
    }
  }

  /** Detection on the trimmed queue reports exactly what it would report on the full history. */
  lemma DetectOnTrimmed(history: seq<SentPacket>, trimmed: seq<SentPacket>, pass: Pass)
    requires Trims(history, trimmed)
    ensures Detect(trimmed, pass) == Detect(history, pass)
  {
    var hm, tm := LostMask(history, pass), LostMask(trimmed, pass);
    LostMaskOnTrimmed(history, trimmed, pass);
    SamePacketNumbers(history, trimmed, hm, tm);
    SameNextLossTime(history, trimmed, hm, tm, pass);
    ThreeInASuffix(hm, tm);
    PersistentIffThreeAdjacent(hm);
    PersistentIffThreeAdjacent(tm);
  }

  // ---------------------------------------------------------------- whole runs of one space

  datatype SpaceStep =
    | Send(packet: SentPacket)
    | Ack(ranges: AckRanges)
    | LossPass(pass: Pass)

  /** The queue the implementation keeps: settled records leave at the front after an acknowledgement. */
  function Keep(sent: seq<SentPacket>, step: SpaceStep): seq<SentPacket> {
    match step
    case Send(p) => sent + [p]
    case Ack(ranges) => TrimFront(Settle(sent, AckMask(sent, ranges), Acked))
    case LossPass(pass) => Settle(sent, LostMask(sent, pass), Retransmitted)
  }

  /** The same without ever forgetting a record. */
  function Remember(sent: seq<SentPacket>, step: SpaceStep): seq<SentPacket> {
    match step
    case Send(p) => sent + [p]
    case Ack(ranges) => Settle(sent, AckMask(sent, ranges), Acked)
    case LossPass(pass) => Settle(sent, LostMask(sent, pass), Retransmitted)
  }

  function KeepAll(steps: seq<SpaceStep>): seq<SentPacket> {
    if steps == [] then [] else Keep(KeepAll(steps[..|steps| - 1]), steps[|steps| - 1])
  }

  function RememberAll(steps: seq<SpaceStep>): seq<SentPacket> {
    if steps == [] then [] else Remember(RememberAll(steps[..|steps| - 1]), steps[|steps| - 1])
  }

  lemma {:induction false} RunKeepsTrims(steps: seq<SpaceStep>)
    ensures Trims(RememberAll(steps), KeepAll(steps))
    decreases |steps|
  {
    if steps != [] {
      var n := |steps| - 1;
      RunKeepsTrims(steps[..n]);
      var history, trimmed := RememberAll(steps[..n]), KeepAll(steps[..n]);
      match steps[n]
      case Send(p) => SendKeepsTrims(history, trimmed, p);
      case Ack(ranges) => AckKeepsTrims(history, trimmed, ranges);
      case LossPass(pass) => LostKeepsTrims(history, trimmed, pass);
    }
  }

  /**
   After any run of sends, acknowledgements and detection passes, the front-trimmed queue yields the
   same lost packets, the same next loss time and the same persistent-loss flag as the full history.
   */
  lemma TrimmingLosesNoVerdict(steps: seq<SpaceStep>, pass: Pass)
    ensures Detect(KeepAll(steps), pass) == Detect(RememberAll(steps), pass)
  {
    RunKeepsTrims(steps);
    DetectOnTrimmed(RememberAll(steps), KeepAll(steps), pass);
  }
}
