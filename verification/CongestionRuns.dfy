/** Whole runs of a path's congestion controller. */
module CongestionRuns {
  import opened Basics
  import opened RecoveryModel
  import opened CongestionModel
  import P = PacketContents

  /** A packet is reported as assembly recorded its frames. */
  datatype Op =
    | PacketSent(e: Epoch, pn: nat, frames: seq<P.Frame>, bytes: nat)
    | AckRcvd(e: Epoch, largest: nat, ranges: AckRanges)
    | Timer
    | SelectPto
    | EpochDone(e: Epoch)
    | PathLost
    | Amplification(blocked: bool)
    | AckDelay(peer: nat)

  function Submit(c: Controller, e: Epoch, pn: nat, frames: seq<P.Frame>, bytes: nat, env: Env): Controller
    requires AllAnchored(c)
  {
    OnPacketSent(c, e, pn, P.IsAckEliciting(P.ContentOf(frames)), P.CountsInFlight(frames), bytes, env)
  }

  lemma RecordAnchored(c: Controller, e: Epoch, p: SentPacket)
    requires AllAnchored(c) && p.state == Inflight && (p.ackEliciting ==> p.countForCc)
    ensures AllAnchored(Record(c, e, p))
  {
    if NoAckElicitingInFlight(Sent(c, e)) && !p.ackEliciting {
      assert NoAckElicitingInFlight(Sent(Record(c, e, p), e));
    }
  }

  /** Whatever frames a packet carries, submitting it keeps the ledger and the PTO's send times. */
  lemma SubmitSound(c: Controller, e: Epoch, pn: nat, frames: seq<P.Frame>, bytes: nat, env: Env)
    requires Sound(c)
    ensures Sound(Submit(c, e, pn, frames, bytes, env))
  {
    if !c.discarded.Get(e) {
      P.ElicitingIsInFlight(frames);
      var p := SentPacket(pn, env.now, P.IsAckEliciting(P.ContentOf(frames)), P.CountsInFlight(frames), bytes, Inflight);
      RecordConserves(c, e, p);
      RecordAnchored(c, e, p);
      SameLedger(Record(c, e, p), Submit(c, e, pn, frames, bytes, env));
    }
  }

  lemma AckSound(c: Controller, e: Epoch, largest: nat, ranges: AckRanges, env: Env)
    requires Sound(c)
    ensures Sound(OnAckRcvd(c, e, largest, ranges, env))
  {
    if !c.discarded.Get(e) {
      var taken := TakeAck(c, e, largest, ranges);
      TakeAckAnchored(c, e, largest, ranges);
      TakeAckConserves(c, e, largest, ranges);
      DetectSound(taken, e, env);
      var after := OnAckRcvd(c, e, largest, ranges, env);
      if after != taken { SameLedger(DetectIn(taken, e, env), after); }
    }
  }

  /**
   The rule for a caller that reports packets of its own making: the PTO computation stays safe if and
   only if the packet is not an ack-eliciting one outside the in-flight count, sent in a space that has
   not yet sent one inside it; in the data space this matters only once the handshake is done.
   */
  lemma SendPtoSafeIff(c: Controller, e: Epoch, p: SentPacket, env: Env, at: nat)
    requires AllAnchored(c) && p.state == Inflight
    ensures PtoSafe(Record(c, e, p), env, at) <==>
            (p.ackEliciting && !p.countForCc && c.spaces.Get(e).lastAckEliciting.None? ==>
               e == Data && !env.facts(at + 1).handshakeDone)
  {
    var before, after := c.spaces.Get(e), Record(c, e, p).spaces.Get(e);
    if p.ackEliciting {
      assert after.sent[|before.sent|] == p;
    } else if NoAckElicitingInFlight(before.sent) {
      assert NoAckElicitingInFlight(after.sent);
    }
  }

  function Next(c: Controller, op: Op, env: Env): (next: Controller)
    requires Sound(c) && Monotone(env)
    ensures Sound(next)
  {
    match op
    case PacketSent(e, pn, frames, bytes) =>
      SubmitSound(c, e, pn, frames, bytes, env);
      Submit(c, e, pn, frames, bytes, env)
    case AckRcvd(e, largest, ranges) =>
      AckSound(c, e, largest, ranges, env);
      OnAckRcvd(c, e, largest, ranges, env)
    case Timer => Tick(c, env)
    case SelectPto => PtoEpoch(c, env).0
    case EpochDone(e) =>
      if e == Data then c else DiscardEpochSound(c, e, env, 0); DiscardEpoch(c, e, env, 0)
    case PathLost => OnPathLost(c)
    case Amplification(blocked) =>
      SameLedger(c, SetBlocked(c, blocked, env));
      SetBlocked(c, blocked, env)
    case AckDelay(peer) =>
      SameLedger(c, c.(maxAckDelay := peer));
      c.(maxAckDelay := peer)
  }

  ghost predicate Admissible(run: seq<(Op, Env)>) {
    forall i :: 0 <= i < |run| ==> Monotone(run[i].1)
  }

  ghost function Exec(maxAckDelay: nat, run: seq<(Op, Env)>): (end: Controller)
    requires Admissible(run)
    ensures Sound(end)
    decreases |run|
  {
    if run == [] then
      InitSound(maxAckDelay);
      Init(maxAckDelay)
    else
      Next(Exec(maxAckDelay, run[..|run| - 1]), run[|run| - 1].0, run[|run| - 1].1)
  }

  lemma InitSound(maxAckDelay: nat)
    ensures Sound(Init(maxAckDelay))
  {
  }

  /** Counts the occurrences of one packet. */
  function Only(tag: Tag): Tag -> nat { t => if t == tag then 1 else 0 }

  /**
   Over every run, spaces discarded and path loss included: NewReno's counter is the size of what is
   in flight, and a packet reported once is in flight, or was acked while in flight, or was reported
   lost, or was removed; exactly one of the four.
   */
  lemma InFlightLedger(maxAckDelay: nat, run: seq<(Op, Env)>, tag: Tag)
    requires Admissible(run)
    ensures var end := Exec(maxAckDelay, run);
            end.account.bytesInFlight == TotalFlight(end, Bytes)
    ensures var end := Exec(maxAckDelay, run);
            Weigh(end.account.sent, Only(tag))
            == TotalFlight(end, Only(tag)) + Weigh(end.account.acked, Only(tag))
               + Weigh(end.account.lost, Only(tag)) + Weigh(end.account.removed, Only(tag))
  {
    assert Balanced(Exec(maxAckDelay, run), Only(tag));
  }

  /** A send that completes after its space was discarded changes nothing; after path loss it counts again. */
  lemma LateSend(c: Controller, e: Epoch, pn: nat, bytes: nat, env: Env)
    requires Sound(c)
    ensures c.discarded.Get(e) ==> OnPacketSent(c, e, pn, true, true, bytes, env) == c
    ensures !c.discarded.Get(e) ==>
              OnPacketSent(OnPathLost(c), e, pn, true, true, bytes, env).account.bytesInFlight == bytes
  {
    var lost := OnPathLost(c);
    assert lost.account.bytesInFlight == TotalFlight(lost, Bytes) == 0;
  }
}
