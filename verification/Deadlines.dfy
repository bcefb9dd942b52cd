/**
 What the loss detection timer is set to and what happens when it expires (sections 6.1.2 and 6.2 of
 RFC 9002), said of the deadlines of the three spaces.
 */
module Deadlines {
  import opened Basics
  import opened RecoveryModel
  import opened CongestionModel
  import LossVerdicts

  function Order(e: Epoch): nat { match e case Initial => 0 case Handshake => 1 case Data => 2 }

  /** The earlier deadline goes first; of equal ones that of the earlier epoch. */
  predicate Precedes(t: nat, e: Epoch, u: nat, f: Epoch) { t < u || (t == u && Order(e) <= Order(f)) }

  // ---------------------------------------------------------------- loss times

  ghost predicate NoLossTime(c: Controller) { forall e: Epoch :: c.spaces.Get(e).lossTime.None? }

  /** `(t, e)` is a loss time, and no other goes before it. */
  ghost predicate EarliestLoss(c: Controller, t: nat, e: Epoch) {
    && c.spaces.Get(e).lossTime == Some(t)
    && forall f: Epoch :: c.spaces.Get(f).lossTime.Some? ==> Precedes(t, e, c.spaces.Get(f).lossTime.value, f)
  }

  lemma LossTimeIsEarliest(c: Controller)
    ensures GetLossTime(c).None? <==> NoLossTime(c)
    ensures forall t, e :: GetLossTime(c) == Some((t, e)) ==> EarliestLoss(c, t, e)
  {
    assert c.spaces.Get(Initial).lossTime == c.spaces.initial.lossTime;
    assert c.spaces.Get(Handshake).lossTime == c.spaces.handshake.lossTime;
    assert c.spaces.Get(Data).lossTime == c.spaces.data.lossTime;
  }

  // ---------------------------------------------------------------- probe timeouts

  predicate Waits(s: Space) { exists i :: 0 <= i < |s.sent| && s.sent[i].ackEliciting && s.sent[i].state == Inflight }

  ghost predicate NothingWaits(c: Controller) { forall e: Epoch :: !Waits(c.spaces.Get(e)) }

  /** A space that waits for an acknowledgement has a PTO; the data space only once the handshake is done. */
  predicate Eligible(c: Controller, e: Epoch, done: bool) { Waits(c.spaces.Get(e)) && (e == Data ==> done) }

  /** The last ack-eliciting send plus the backed-off PTO, in the data space with the peer's backed-off delay. */
  function Due(c: Controller, e: Epoch, env: Env): nat
    requires c.spaces.Get(e).lastAckEliciting.Some?
  {
    c.spaces.Get(e).lastAckEliciting.value + env.basePto(c.ptoCount) + if e == Data then c.maxAckDelay * Pow2(c.ptoCount) else 0
  }

  ghost predicate EarliestPto(c: Controller, env: Env, done: bool, t: nat, e: Epoch) {
    && Eligible(c, e, done) && c.spaces.Get(e).lastAckEliciting.Some? && t == Due(c, e, env)
    && forall f: Epoch :: Eligible(c, f, done) ==> c.spaces.Get(f).lastAckEliciting.Some? && Precedes(t, e, Due(c, f, env), f)
  }

  lemma IdleIsNothingWaits(c: Controller)
    ensures Idle(c) <==> NothingWaits(c)
  {
    assert Waits(c.spaces.Get(Initial)) <==> !NoAckElicitingInFlight(Sent(c, Initial));
    assert Waits(c.spaces.Get(Handshake)) <==> !NoAckElicitingInFlight(Sent(c, Handshake));
    assert Waits(c.spaces.Get(Data)) <==> !NoAckElicitingInFlight(Sent(c, Data));
  }

  /** The PTO is the earliest of the eligible spaces; with nothing in flight it probes for the handshake. */
  lemma PtoIsEarliest(c: Controller, env: Env, at: nat)
    requires PtoSafe(c, env, at)
    ensures NothingWaits(c) ==>
              GetPto(c, env, at) == Some((env.now + env.basePto(c.ptoCount), if env.facts(at).gotHandshakeKey then Handshake else Initial))
    ensures !NothingWaits(c) ==>
              var done := env.facts(at + 1).handshakeDone;
              && (GetPto(c, env, at).None? <==> forall e: Epoch :: !Eligible(c, e, done))
              && forall t, e :: GetPto(c, env, at) == Some((t, e)) ==> EarliestPto(c, env, done, t, e)
  {
    var done := env.facts(at + 1).handshakeDone;
    IdleIsNothingWaits(c);
    assert Eligible(c, Initial, done) <==> !NoAckElicitingInFlight(Sent(c, Initial));
    assert Eligible(c, Handshake, done) <==> !NoAckElicitingInFlight(Sent(c, Handshake));
    assert Eligible(c, Data, done) <==> !NoAckElicitingInFlight(Sent(c, Data)) && done;
  }

  // ---------------------------------------------------------------- the timer

  /**
   The timer: the earliest loss time if there is one; else nothing while the path is blocked, or idle
   with a validated peer; else the PTO. Nothing but the timer changes.
   */
  lemma TimerIsEarliest(c: Controller, env: Env, at: nat)
    requires AllAnchored(c)
    ensures SetTimer(c, env, at).(timer := c.timer) == c
    ensures !NoLossTime(c) ==> exists t: nat, e: Epoch :: EarliestLoss(c, t, e) && SetTimer(c, env, at).timer == Some(t)
    ensures NoLossTime(c) && (c.blocked || (NothingWaits(c) && PeerValidated(env, at))) ==> SetTimer(c, env, at).timer.None?
    ensures NoLossTime(c) && !c.blocked && NothingWaits(c) && !PeerValidated(env, at) ==>
              SetTimer(c, env, at).timer == Some(env.now + env.basePto(c.ptoCount))
    ensures NoLossTime(c) && !c.blocked && !NothingWaits(c) ==>
              var done := env.facts(at + 3).handshakeDone;
              match SetTimer(c, env, at).timer
              case None => forall e: Epoch :: !Eligible(c, e, done)
              case Some(t) => exists e: Epoch :: EarliestPto(c, env, done, t, e)
  {
    LossTimeIsEarliest(c);
    IdleIsNothingWaits(c);
    PtoIsEarliest(c, env, at + 2);
    if GetLossTime(c).Some? {
      var (t, e) := GetLossTime(c).value;
      assert EarliestLoss(c, t, e);
    } else if !c.blocked && !Idle(c) && GetPto(c, env, at + 2).Some? {
      var (t, e) := GetPto(c, env, at + 2).value;
      assert EarliestPto(c, env, env.facts(at + 3).handshakeDone, t, e);
    }
  }

  /** The timer is what the state and the facts read at `at` call for. */
  predicate TimerCurrent(c: Controller, env: Env, at: nat)
    requires AllAnchored(c)
  {
    SetTimer(c, env, at) == c
  }

  /** An idle server never arms the timer; an idle client does until its address is known to be validated. */
  lemma IdleTimer(c: Controller, env: Env, at: nat)
    requires AllAnchored(c) && NoLossTime(c) && NothingWaits(c) && !c.blocked
    ensures env.facts(at).isServer ==> SetTimer(c, env, at).timer.None?
    ensures !env.facts(at).isServer ==>
              (SetTimer(c, env, at).timer.Some? <==> !env.facts(at).handshakeAcked && !env.facts(at + 1).handshakeDone)
  {
    TimerIsEarliest(c, env, at);
  }

  lemma SetTimerIsCurrent(c: Controller, env: Env, at: nat)
    requires AllAnchored(c)
    ensures SetTimer(c, env, at) == c.(timer := SetTimer(c, env, at).timer)
    ensures TimerCurrent(SetTimer(c, env, at), env, at)
  {
    var next := SetTimer(c, env, at);
    assert GetLossTime(next) == GetLossTime(c);
    assert GetPto(next, env, at + 2) == GetPto(c, env, at + 2);
  }

  // ---------------------------------------------------------------- what each operation does

  ghost predicate OnlySpace(c: Controller, next: Controller, e: Epoch) {
    next.discarded == c.discarded && forall f: Epoch :: f != e ==> next.spaces.Get(f) == c.spaces.Get(f)
  }

  /** One detection pass in one space, as `LossVerdicts` describes it. */
  ghost predicate Detected(s: Space, next: Space, env: Env) {
    && next.largestAcked == s.largestAcked && next.lastAckEliciting == s.lastAckEliciting
    && match s.largestAcked
       case None => next.sent == s.sent && next.lossTime.None?
       case Some(largest) =>
         var pass := Pass(largest, env.now, env.lossDelay);
         next.sent == Keep(s.sent, LossPass(pass)) && next.lossTime == Detect(s.sent, pass).lossTime
  }

  lemma DetectActs(c: Controller, e: Epoch, env: Env)
    ensures var next := DetectIn(c, e, env);
            && OnlySpace(c, next, e) && Detected(c.spaces.Get(e), next.spaces.Get(e), env)
            && next.ptoCount == c.ptoCount && next.probes == c.probes && next.timer == c.timer && next.blocked == c.blocked
  {
  }

  /** The record a packet leaves: last in its space if it matters at all, with its send time if ack-eliciting. */
  lemma RecordActs(c: Controller, e: Epoch, p: SentPacket)
    ensures var next := Record(c, e, p);
            var s, after := c.spaces.Get(e), next.spaces.Get(e);
            && OnlySpace(c, next, e)
            && after.sent == (if p.ackEliciting || p.countForCc then s.sent + [p] else s.sent)
            && after.lastAckEliciting == (if p.ackEliciting && p.countForCc then Some(p.timeSent) else s.lastAckEliciting)
            && after.largestAcked == s.largestAcked && after.lossTime == s.lossTime
            && next.ptoCount == c.ptoCount && next.timer == c.timer && next.blocked == c.blocked
            && forall f: Epoch ::
                 next.probes.Get(f)
                 == if f == e && p.ackEliciting && p.countForCc && c.probes.Get(f) > 0 then c.probes.Get(f) - 1 else c.probes.Get(f)
  {
  }

  /** A send is recorded and, if it counts, sets the timer anew; in a discarded space it is nothing. */
  lemma SendActs(c: Controller, e: Epoch, pn: nat, ackEliciting: bool, inFlight: bool, bytes: nat, env: Env)
    requires AllAnchored(c)
    ensures c.discarded.Get(e) ==> OnPacketSent(c, e, pn, ackEliciting, inFlight, bytes, env) == c
    ensures !c.discarded.Get(e) ==>
              var p := SentPacket(pn, env.now, ackEliciting, inFlight, bytes, Inflight);
              var next := OnPacketSent(c, e, pn, ackEliciting, inFlight, bytes, env);
              && next.(timer := c.timer) == Record(c, e, p)
              && (if inFlight then AllAnchored(next) && TimerCurrent(next, env, 0) else next.timer == c.timer)
  {
    var p := SentPacket(pn, env.now, ackEliciting, inFlight, bytes, Inflight);
    RecordActs(c, e, p);
    if inFlight && !c.discarded.Get(e) { SetTimerIsCurrent(Record(c, e, p), env, 0); }
  }

  predicate Matches(p: SentPacket, ranges: AckRanges) {
    p.state != Acked && exists r :: 0 <= r < |ranges| && ranges[r].0 <= p.pn <= ranges[r].1
  }

  predicate MatchesAny(sent: seq<SentPacket>, ranges: AckRanges) { exists i :: 0 <= i < |sent| && Matches(sent[i], ranges) }

  /** The largest acknowledged number only grows, and covers the acknowledgement. */
  predicate Raised(before: Option<nat>, largest: nat, after: Option<nat>) {
    after.Some? && largest <= after.value && (after == Some(largest) || after == before) && (before.Some? ==> before.value <= after.value)
  }

  lemma TakeAckActs(c: Controller, e: Epoch, largest: nat, ranges: AckRanges)
    ensures var next := TakeAck(c, e, largest, ranges);
            var s, after := c.spaces.Get(e), next.spaces.Get(e);
            && OnlySpace(c, next, e) && Raised(s.largestAcked, largest, after.largestAcked)
            && after.sent == Keep(s.sent, Ack(ranges))
            && after.lastAckEliciting == s.lastAckEliciting && after.lossTime == s.lossTime
            && next.ptoCount == c.ptoCount && next.probes == c.probes && next.timer == c.timer && next.blocked == c.blocked
  {
  }

  /** What follows an acknowledgement that covers something new. */
  ghost predicate Followed(taken: Controller, next: Controller, e: Epoch, env: Env) {
    && OnlySpace(taken, next, e) && Detected(taken.spaces.Get(e), next.spaces.Get(e), env)
    && next.ptoCount == (if PeerValidated(env, 0) then 0 else taken.ptoCount) && next.probes == taken.probes
    && AllAnchored(next) && TimerCurrent(next, env, 2)
  }

  lemma FollowUpActs(taken: Controller, e: Epoch, env: Env)
    requires AllAnchored(taken)
    ensures AllAnchored(DetectIn(taken, e, env))
    ensures var detected := DetectIn(taken, e, env);
            Followed(taken, SetTimer(if PeerValidated(env, 0) then detected.(ptoCount := 0) else detected, env, 2), e, env)
  {
    DetectAnchored(taken, e, env);
    DetectActs(taken, e, env);
    var detected := DetectIn(taken, e, env);
    SetTimerIsCurrent(if PeerValidated(env, 0) then detected.(ptoCount := 0) else detected, env, 2);
  }

  /**
   An acknowledgement is taken in; if it covers anything new, a detection pass follows, the backoff ends
   once the peer is validated, and the timer is set anew.
   */
  lemma AckActs(c: Controller, e: Epoch, largest: nat, ranges: AckRanges, env: Env)
    requires AllAnchored(c)
    ensures c.discarded.Get(e) ==> OnAckRcvd(c, e, largest, ranges, env) == c
    ensures !c.discarded.Get(e) && !MatchesAny(Sent(c, e), ranges) ==>
              OnAckRcvd(c, e, largest, ranges, env) == TakeAck(c, e, largest, ranges)
    ensures !c.discarded.Get(e) && MatchesAny(Sent(c, e), ranges) ==>
              Followed(TakeAck(c, e, largest, ranges), OnAckRcvd(c, e, largest, ranges, env), e, env)
  {
    assert MatchesAny(Sent(c, e), ranges) <==> AcksAny(Sent(c, e), ranges);
    TakeAckAnchored(c, e, largest, ranges);
    FollowUpActs(TakeAck(c, e, largest, ranges), e, env);
  }

  /** Retiring an epoch leaves nothing of it and ends the backoff, once. */
  lemma DiscardActs(c: Controller, e: Epoch, env: Env, at: nat)
    requires Sound(c) && e != Data
    ensures Weigh(InFlightTags(Sent(c, e), e), Bytes) <= c.account.bytesInFlight
    ensures var next := DiscardEpoch(c, e, env, at);
            if c.discarded.Get(e) then next == c
            else
              && next.spaces.Get(e) == EMPTY && next.discarded.Get(e) && next.probes.Get(e) == 0 && next.ptoCount == 0
              && (forall f: Epoch :: f != e ==> next.spaces.Get(f) == c.spaces.Get(f) && next.discarded.Get(f) == c.discarded.Get(f)
                                                && next.probes.Get(f) == c.probes.Get(f))
              && AllAnchored(next) && TimerCurrent(next, env, at)
  {
    DiscardSound(c, e);
    if !c.discarded.Get(e) { SetTimerIsCurrent(Forget(c, e), env, at); }
  }

  /** The Initial space goes when a handshake packet was sent or received, the Handshake space when the handshake is done. */
  lemma RetireActs(c: Controller, env: Env)
    requires Sound(c)
    ensures var next := RetireHandshakeSpaces(c, env);
            && (next.discarded.initial <==>
                  c.discarded.initial || (if env.facts(0).isServer then env.facts(0).receivedHandshake else env.facts(0).sentHandshake))
            && (next.discarded.handshake <==> c.discarded.handshake || env.facts(5).handshakeDone)
            && next.discarded.data == c.discarded.data && next.spaces.data == c.spaces.data
            && (next.discarded == c.discarded ==> next == c)
  {
    if !c.discarded.initial && env.facts(0).InitialDone() { DiscardActs(c, Initial, env, 1); DiscardEpochSound(c, Initial, env, 1); }
    var first := if !c.discarded.initial && env.facts(0).InitialDone() then DiscardEpoch(c, Initial, env, 1) else c;
    if !first.discarded.handshake && env.facts(5).handshakeDone { DiscardActs(first, Handshake, env, 6); }
  }

  lemma BlockedActs(c: Controller, blocked: bool, env: Env)
    requires AllAnchored(c)
    ensures var next := SetBlocked(c, blocked, env);
            && next.blocked == blocked && next.spaces == c.spaces && next.ptoCount == c.ptoCount && next.probes == c.probes
            && (if c.blocked == blocked then next == c else TimerCurrent(next, env, 0))
  {
  }

  /** Losing the path forgets all three spaces and the timer, and nothing is in flight any more. */
  lemma PathLostActs(c: Controller)
    requires Sound(c)
    ensures var next := OnPathLost(c);
            && next == c.(spaces := PerEpoch(EMPTY, EMPTY, EMPTY), timer := None, account := next.account)
            && next.account.bytesInFlight == 0
  {
    DiscardSound(c, Initial);
    DiscardSound(Discard(c, Initial), Handshake);
    DiscardSound(Discard(Discard(c, Initial), Handshake), Data);
    var next := OnPathLost(c);
    assert next.account.bytesInFlight == TotalFlight(next, Bytes);
  }

  ghost predicate ProbedIn(c: Controller, next: Controller, e: Epoch) {
    forall f: Epoch :: next.probes.Get(f) == c.probes.Get(f) + if f == e then 1 else 0
  }

  /** A timeout with a loss time to act on looks for losses in the space whose loss time is earliest. */
  lemma LossTimeoutActs(c: Controller, env: Env, peerValidated: bool, at: nat) returns (t: nat, e: Epoch)
    requires Sound(c) && (AntiDeadlock(c) ==> !peerValidated) && !NoLossTime(c)
    ensures EarliestLoss(c, t, e)
    ensures var next := OnTimeout(c, env, peerValidated, at);
            && OnlySpace(c, next, e) && Detected(c.spaces.Get(e), next.spaces.Get(e), env)
            && next.ptoCount == c.ptoCount && next.probes == c.probes && TimerCurrent(next, env, at)
  {
    LossTimeIsEarliest(c);
    t, e := GetLossTime(c).value.0, GetLossTime(c).value.1;
    DetectSound(c, e, env);
    DetectActs(c, e, env);
    SetTimerIsCurrent(DetectIn(c, e, env), env, at);
  }

  lemma ProbeActs(c: Controller, env: Env, at: nat)
    requires AllAnchored(c)
    ensures ProbeFor(c, env, at) == c.(probes := ProbeFor(c, env, at).probes)
    ensures NothingWaits(c) ==> ProbedIn(c, ProbeFor(c, env, at), if env.facts(at).gotHandshakeKey then Handshake else Initial)
    ensures !NothingWaits(c) ==>
              var done := env.facts(at + 1).handshakeDone;
              if forall e: Epoch :: !Eligible(c, e, done) then ProbeFor(c, env, at).probes == c.probes
              else exists t: nat, e: Epoch :: EarliestPto(c, env, done, t, e) && ProbedIn(c, ProbeFor(c, env, at), e)
  {
    IdleIsNothingWaits(c);
    PtoIsEarliest(c, env, at);
    if !Idle(c) && GetPto(c, env, at).Some? {
      var (t, e) := GetPto(c, env, at).value;
      assert EarliestPto(c, env, env.facts(at + 1).handshakeDone, t, e) && ProbedIn(c, ProbeFor(c, env, at), e);
    }
  }

  /** Otherwise it raises the backoff and asks for one probe: see `ProbeActs` for where. */
  lemma PtoTimeoutActs(c: Controller, env: Env, peerValidated: bool, at: nat)
    requires Sound(c) && (AntiDeadlock(c) ==> !peerValidated) && NoLossTime(c)
    ensures var next := OnTimeout(c, env, peerValidated, at);
            && next.spaces == c.spaces && next.discarded == c.discarded && next.ptoCount == c.ptoCount + 1
            && next.probes == ProbeFor(c, env, at).probes && TimerCurrent(next, env, at + 2)
  {
    LossTimeIsEarliest(c);
    SetTimerIsCurrent(ProbeFor(c, env, at).(ptoCount := c.ptoCount + 1), env, at + 2);
  }

  /** Nothing to retire, not blocked, and not an idle path whose peer is validated: the timer stands as it is. */
  ghost predicate Undisturbed(c: Controller, env: Env) {
    && (c.discarded.initial || !env.facts(0).InitialDone()) && (c.discarded.handshake || !env.facts(5).handshakeDone)
    && !c.blocked && !(PeerValidated(env, 10) && NoLossTime(c) && NothingWaits(c))
  }

  /** A timer that is due is acted on, and one that is not due is left alone. */
  lemma TickActs(c: Controller, env: Env)
    requires Sound(c) && Monotone(env) && Undisturbed(c, env) && c.timer.Some?
    ensures AntiDeadlock(c) ==> !PeerValidated(env, 10)
    ensures Tick(c, env) == if c.timer.value <= env.now then OnTimeout(c, env, PeerValidated(env, 10), 16) else c
  {
    LossTimeIsEarliest(c);
    IdleIsNothingWaits(c);
    RetireActs(c, env);
  }
}
