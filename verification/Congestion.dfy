/** The congestion controller object: three packet spaces, NewReno and the loss detection timer. */
module Congestion {
  import opened Basics
  import opened RecoveryModel
  import opened PacketSpaces
  import M = CongestionModel

  class CongestionController {
    const initial: PacketSpace
    const handshake: PacketSpace
    const data: PacketSpace
    const cc: NewReno
    var maxAckDelay: nat
    var discarded: M.PerEpoch<bool>
    var timer: Option<nat>
    var ptoCount: nat
    var probes: M.PerEpoch<nat>
    var blocked: bool
    ghost const Repr: set<object>

    ghost predicate Valid() {
      && Repr == {this, initial, handshake, data, cc}
      && initial != handshake && initial != data && handshake != data
      && initial.epoch == M.Initial && handshake.epoch == M.Handshake && data.epoch == M.Data
    }

    ghost function View(): M.Controller
      reads this, initial, handshake, data, cc
    {
      M.Controller(M.PerEpoch(initial.View(), handshake.View(), data.View()), discarded, timer, ptoCount, probes, blocked,
                   maxAckDelay, cc.View())
    }

    constructor (delay: nat)
      ensures Valid() && View() == M.Init(delay) && fresh(Repr)
    {
      var i := new PacketSpace(M.Initial);
      var h := new PacketSpace(M.Handshake);
      var d := new PacketSpace(M.Data);
      var n := new NewReno();
      initial, handshake, data, cc, maxAckDelay := i, h, d, n, delay;
      discarded, timer, ptoCount := M.PerEpoch(false, false, false), None, 0;
      probes, blocked := M.PerEpoch(0, 0, 0), false;
      Repr := {this, i, h, d, n};
    }

    function Space(e: M.Epoch): PacketSpace {
      match e
      case Initial => initial
      case Handshake => handshake
      case Data => data
    }

    method NoneInFlight() returns (none: bool)
      ensures none <==> M.Idle(View())
    {
      none := initial.NoneInFlight();
      if none { none := handshake.NoneInFlight(); }
      if none { none := data.NoneInFlight(); }
    }

    /** The earliest loss time; the earlier epoch wins a tie. */
    method GetLossTime() returns (best: Option<(nat, M.Epoch)>)
      ensures best == M.GetLossTime(View())
    {
      best := None;
      if initial.lossTime.Some? { best := Some((initial.lossTime.value, M.Initial)); }
      if handshake.lossTime.Some? && (best.None? || handshake.lossTime.value < best.value.0) {
        best := Some((handshake.lossTime.value, M.Handshake));
      }
      if data.lossTime.Some? && (best.None? || data.lossTime.value < best.value.0) {
        best := Some((data.lossTime.value, M.Data));
      }
    }

    static method ShiftLeft(delay: nat, count: nat) returns (r: nat)
      ensures r == delay * M.Pow2(count)
    {
      r := delay;
      for i := 0 to count
        invariant r == delay * M.Pow2(i)
      {
        r := 2 * r;
      }
    }

    /** One round of the PTO loop. */
    method Consider(pto: Option<(nat, M.Epoch)>, e: M.Epoch, duration: nat) returns (next: Option<(nat, M.Epoch)>)
      requires M.Anchored(Space(e).View())
      ensures next == M.Earlier(pto, M.PtoOf(Space(e).View(), e, duration))
    {
      next := pto;
      var none := Space(e).NoneInFlight();
      if none { return; }
      var t := Space(e).lastAckEliciting.value + duration;
      if pto.None? || t < pto.value.0 { next := Some((t, e)); }
    }

    method GetPto(env: M.Env, at: nat) returns (pto: Option<(nat, M.Epoch)>)
      requires M.PtoSafe(View(), env, at)
      ensures pto == M.GetPto(View(), env, at)
    {
      var duration := env.basePto(ptoCount);
      var idle := NoneInFlight();
      if idle {
        return Some((env.now + duration, if env.facts(at).gotHandshakeKey then M.Handshake else M.Initial));
      }
      pto := Consider(None, M.Initial, duration);
      pto := Consider(pto, M.Handshake, duration);
      var none := data.NoneInFlight();
      if none || !env.facts(at + 1).handshakeDone { return; }
      var backoff := ShiftLeft(maxAckDelay, ptoCount);
      pto := Consider(pto, M.Data, duration + backoff);
    }

    method SetLossDetectionTimer(env: M.Env, at: nat)
      requires Valid() && (M.NeedsPto(View(), env, at) ==> M.PtoSafe(View(), env, at + 2))
      modifies this
      ensures View() == M.SetTimer(old(View()), env, at)
    {
      var loss := GetLossTime();
      if loss.Some? {
        timer := Some(loss.value.0);
        return;
      }
      if blocked {
        timer := None;
        return;
      }
      var idle := NoneInFlight();
      if idle && M.PeerValidated(env, at) {
        timer := None;
        return;
      }
      var pto := GetPto(env, at + 2);
      timer := if pto.Some? then Some(pto.value.0) else None;
    }

    /** Install the peer's negotiated bound. */
    method SetAckDelays(peer: nat)
      requires Valid()
      modifies this
      ensures View() == old(View()).(maxAckDelay := peer)
    {
      maxAckDelay := peer;
    }

    method SetAmplificationBlocked(block: bool, env: M.Env)
      requires Valid() && M.AllAnchored(View())
      modifies this
      ensures View() == M.SetBlocked(old(View()), block, env)
    {
      if blocked != block {
        blocked := block;
        SetLossDetectionTimer(env, 0);
      }
    }

    method OnPacketSent(pn: nat, e: M.Epoch, ackEliciting: bool, inFlight: bool, bytes: nat, env: M.Env)
      requires Valid() && M.AllAnchored(View())
      modifies Repr
      ensures View() == M.OnPacketSent(old(View()), e, pn, ackEliciting, inFlight, bytes, env)
    {
      if discarded.Get(e) { return; }
      ghost var before := View();
      var space := Space(e);
      var p := SentPacket(pn, env.now, ackEliciting, inFlight, bytes, Inflight);
      if inFlight {
        if ackEliciting {
          space.lastAckEliciting := Some(env.now);
          probes := probes.Set(e, SaturatingSub(probes.Get(e), 1));
        }
        cc.OnPacketSentCc(p, e);
      }
      if ackEliciting || inFlight {
        space.sent := space.sent + [p];
      }
      assert View() == M.Record(before, e, p);
      if inFlight { SetLossDetectionTimer(env, 0); }
    }

    method TakeAck(e: M.Epoch, largest: nat, ranges: AckRanges) returns (newly: Option<Newly>)
      requires Valid()
      modifies Repr - {this}
      ensures View() == M.TakeAck(old(View()), e, largest, ranges)
      ensures Summarizes(newly, M.Sent(old(View()), e), ranges, 0)
    {
      var space := Space(e);
      space.UpdateLargestAcked(largest);
      newly := space.OnAckRcvd(ranges, cc);
      assert View() == M.TakeAck(old(View()), e, largest, ranges);
    }

    method OnAckRcvd(e: M.Epoch, largest: nat, ranges: AckRanges, env: M.Env) returns (lost: seq<nat>)
      requires Valid() && M.AllAnchored(View())
      modifies Repr
      ensures View() == M.OnAckRcvd(old(View()), e, largest, ranges, env)
      ensures lost == M.LostOnAck(old(View()), e, largest, ranges, env)
    {
      lost := [];
      if discarded.Get(e) { return; }
      M.TakeAckAnchored(View(), e, largest, ranges);
      var newly := TakeAck(e, largest, ranges);
      assert newly.Some? <==> M.AcksAny(M.Sent(old(View()), e), ranges);
      if newly.None? { return; }
      lost := DetectIn(e, env);
      if M.PeerValidated(env, 0) { ptoCount := 0; }
      SetLossDetectionTimer(env, 2);
    }

    method DetectIn(e: M.Epoch, env: M.Env) returns (lost: seq<nat>)
      requires Valid() && M.AllAnchored(View())
      modifies Repr - {this}
      ensures View() == M.DetectIn(old(View()), e, env)
      ensures lost == M.LostNumbers(old(View()).spaces.Get(e), env)
      ensures M.AllAnchored(View())
    {
      ghost var before := View();
      var persistent;
      lost, persistent := Space(e).DetectLostPackets(env.now, env.lossDelay, cc);
      M.DetectAnchored(before, e, env);
      assert View() == M.DetectIn(before, e, env);
    }

    method DiscardSpace(e: M.Epoch) returns (pns: seq<nat>)
      requires Valid() && M.FlightWeight(M.Sent(View(), e), e, M.Bytes) <= cc.bytesInFlight
      modifies Repr - {this}
      ensures M.Weigh(M.InFlightTags(M.Sent(old(View()), e), e), M.Bytes) <= old(View()).account.bytesInFlight
      ensures View() == M.Discard(old(View()), e)
      ensures pns == PacketNumbers(M.Sent(old(View()), e), InflightMask(M.Sent(old(View()), e)))
    {
      pns := Space(e).Discard(cc);
      assert View() == M.Discard(old(View()), e);
    }

    method DiscardEpoch(e: M.Epoch, env: M.Env, at: nat)
      requires Valid() && M.Sound(View()) && e != M.Data
      modifies Repr
      ensures M.Weigh(M.InFlightTags(M.Sent(old(View()), e), e), M.Bytes) <= old(View()).account.bytesInFlight
      ensures View() == M.DiscardEpoch(old(View()), e, env, at) && M.Sound(View())
    {
      M.DiscardEpochSound(View(), e, env, at);
      M.FlightWithinTotal(View(), e);
      if discarded.Get(e) { return; }
      discarded := discarded.Set(e, true);
      var _ := DiscardSpace(e);
      probes, timer, ptoCount := probes.Set(e, 0), None, 0;
      assert View() == M.Forget(old(View()), e);
      SetLossDetectionTimer(env, at);
    }

    method RetireHandshakeSpaces(env: M.Env)
      requires Valid() && M.Sound(View())
      modifies Repr
      ensures View() == M.RetireHandshakeSpaces(old(View()), env)
    {
      if !discarded.initial && env.facts(0).InitialDone() {
        DiscardEpoch(M.Initial, env, 1);
      }
      if !discarded.handshake && env.facts(5).handshakeDone {
        DiscardEpoch(M.Handshake, env, 6);
      }
    }

    method PtoEpoch(env: M.Env) returns (selected: Option<M.Epoch>)
      requires Valid() && M.Sound(View())
      modifies Repr
      ensures M.Sound(View()) && (View(), selected) == M.PtoEpoch(old(View()), env)
    {
      RetireHandshakeSpaces(env);
      var idle := NoneInFlight();
      if idle && M.PeerValidated(env, 10) { return None; }
      var pto := GetPto(env, 12);
      selected := if pto.Some? then Some(pto.value.1) else None;
    }

    method OnLossDetectionTimeout(env: M.Env, peerValidated: bool, at: nat) returns (count: nat, lost: seq<nat>)
      requires Valid() && M.Sound(View())
      requires M.AntiDeadlock(View()) ==> !peerValidated
      modifies Repr
      ensures View() == M.OnTimeout(old(View()), env, peerValidated, at)
      ensures count == ptoCount && lost == M.LostOnTimeout(old(View()), env)
    {
      var loss := GetLossTime();
      if loss.Some? {
        lost := DetectIn(loss.value.1, env);
        SetLossDetectionTimer(env, at);
      } else {
        RaiseBackoff(env, at);
        lost := [];
      }
      count := ptoCount;
    }

    method RaiseBackoff(env: M.Env, at: nat)
      requires Valid() && M.AllAnchored(View())
      modifies this
      ensures View() == M.SetTimer(M.ProbeFor(old(View()), env, at).(ptoCount := old(ptoCount) + 1), env, at + 2)
    {
      SendProbe(env, at);
      ptoCount := ptoCount + 1;
      SetLossDetectionTimer(env, at + 2);
    }

    /** An anti-deadlock packet if nothing is in flight, else a probe in the space whose PTO comes first. */
    method SendProbe(env: M.Env, at: nat)
      requires Valid() && M.AllAnchored(View())
      modifies this
      ensures View() == M.ProbeFor(old(View()), env, at)
    {
      var idle := NoneInFlight();
      if idle {
        SendAckEliciting(if env.facts(at).gotHandshakeKey then M.Handshake else M.Initial);
      } else {
        var pto := GetPto(env, at);
        if pto.Some? { SendAckEliciting(pto.value.1); }
      }
    }

    method SendAckEliciting(e: M.Epoch)
      requires Valid()
      modifies this
      ensures View() == M.Probe(old(View()), e)
    {
      probes := probes.Set(e, probes.Get(e) + 1);
    }

    /** The debug assertion inside the timeout is the callee's precondition; it is discharged here. */
    method Tick(env: M.Env) returns (tooManyPtos: bool, lost: seq<nat>)
      requires Valid() && M.Sound(View()) && M.Monotone(env)
      modifies Repr
      ensures View() == M.Tick(old(View()), env) && M.Sound(View())
      ensures var armed := M.Armed(old(View()), env);
              && (tooManyPtos <==> M.Expired(armed, env) && ptoCount > 6)
              && lost == if M.Expired(armed, env) then M.LostOnTimeout(armed, env) else []
    {
      ghost var before := View();
      RetireHandshakeSpaces(env);
      var peerValidated := M.PeerValidated(env, 10);
      var idle := NoneInFlight();
      var loss := GetLossTime();
      if timer.None? || blocked || (peerValidated && idle && loss.None?) {
        SetLossDetectionTimer(env, 12);
      }
      assert View() == M.Armed(before, env);
      tooManyPtos, lost := false, [];
      if timer.Some? && timer.value <= env.now {
        M.AntiDeadlockAssertion(before, env);
        var count;
        count, lost := OnLossDetectionTimeout(env, peerValidated, 16);
        tooManyPtos := count > M.MAX_PTO_COUNT;
      }
    }

    /** What was still in flight in the data space is handed to retransmission. */
    method OnPathLost() returns (resend: seq<nat>)
      requires Valid() && M.Sound(View())
      modifies Repr
      ensures View() == M.OnPathLost(old(View())) && M.Sound(View())
      ensures resend == PacketNumbers(old(data.sent), InflightMask(old(data.sent)))
    {
      ghost var before := View();
      M.FlightWithinTotal(before, M.Initial);
      M.DiscardSound(before, M.Initial);
      var _ := DiscardSpace(M.Initial);
      M.FlightWithinTotal(View(), M.Handshake);
      M.DiscardSound(View(), M.Handshake);
      var _ := DiscardSpace(M.Handshake);
      M.FlightWithinTotal(View(), M.Data);
      M.DiscardSound(View(), M.Data);
      resend := DiscardSpace(M.Data);
      timer := None;
      assert View() == M.OnPathLost(before);
    }
  }
}
