/**
 The congestion controller of one path: three packet number spaces, the loss detection timer with
 its backoff, and NewReno's account of the bytes in flight.
 */
module CongestionModel {
  import opened Basics
  import opened RecoveryModel

  datatype Epoch = Initial | Handshake | Data

  datatype PerEpoch<T> = PerEpoch(initial: T, handshake: T, data: T) {
    function Get(e: Epoch): T {
      match e
      case Initial => initial
      case Handshake => handshake
      case Data => data
    }

    function Set(e: Epoch, x: T): PerEpoch<T> {
      match e
      case Initial => this.(initial := x)
      case Handshake => this.(handshake := x)
      case Data => this.(data := x)
    }
  }

  // ---------------------------------------------------------------- bytes in flight

  /** A packet as congestion control accounts for it. */
  datatype Tag = Tag(epoch: Epoch, pn: nat, bytes: nat)

  function Weigh(tags: seq<Tag>, weight: Tag -> nat): nat {
    if tags == [] then 0 else Weigh(tags[..|tags| - 1], weight) + weight(tags[|tags| - 1])
  }

  function Bytes(tag: Tag): nat { tag.bytes }

  predicate InFlight(p: SentPacket) { p.state == Inflight && p.countForCc }

  function TagOf(p: SentPacket, e: Epoch): Tag { Tag(e, p.pn, p.sentBytes) }

  /** The selected records that count as in flight, oldest first. */
  function Tags(sent: seq<SentPacket>, mask: seq<bool>, e: Epoch): seq<Tag>
    requires |mask| == |sent|
  {
    if sent == [] then []
    else
      var n := |sent| - 1;
      Tags(sent[..n], mask[..n], e) + if mask[n] && InFlight(sent[n]) then [TagOf(sent[n], e)] else []
  }

  /** The same, newest first. */
  function TagsBackward(sent: seq<SentPacket>, mask: seq<bool>, e: Epoch): seq<Tag>
    requires |mask| == |sent|
  {
    if sent == [] then []
    else
      var n := |sent| - 1;
      (if mask[n] && InFlight(sent[n]) then [TagOf(sent[n], e)] else []) + TagsBackward(sent[..n], mask[..n], e)
  }

  function All(n: nat): seq<bool> { seq(n, _ => true) }

  function InFlightTags(sent: seq<SentPacket>, e: Epoch): seq<Tag> { Tags(sent, All(|sent|), e) }

  /** NewReno's counter with every report it received. */
  datatype Account = Account(bytesInFlight: nat, sent: seq<Tag>, acked: seq<Tag>, lost: seq<Tag>, removed: seq<Tag>)

  function SubtractAll(n: nat, tags: seq<Tag>): nat {
    if tags == [] then n else SaturatingSub(SubtractAll(n, tags[..|tags| - 1]), tags[|tags| - 1].bytes)
  }

  function OnSentCc(a: Account, tag: Tag): Account {
    a.(bytesInFlight := a.bytesInFlight + tag.bytes, sent := a.sent + [tag])
  }

  function OnAckedCc(a: Account, tags: seq<Tag>): Account {
    a.(bytesInFlight := SubtractAll(a.bytesInFlight, tags), acked := a.acked + tags)
  }

  function OnLostCc(a: Account, tags: seq<Tag>): Account {
    a.(bytesInFlight := SubtractAll(a.bytesInFlight, tags), lost := a.lost + tags)
  }

  /** The only subtraction that would underflow rather than saturate. */
  function OnRemovedCc(a: Account, tags: seq<Tag>): Account
    requires Weigh(tags, Bytes) <= a.bytesInFlight
  {
    a.(bytesInFlight := a.bytesInFlight - Weigh(tags, Bytes), removed := a.removed + tags)
  }

  // ---------------------------------------------------------------- the environment

  /** Connection-wide handshake facts; other paths may set them at any time. */
  datatype Facts = Facts(
    isServer: bool, gotHandshakeKey: bool, sentHandshake: bool, receivedHandshake: bool, handshakeAcked: bool, handshakeDone: bool) {

    predicate InitialDone() { if isServer then receivedHandshake else sentHandshake }

    predicate Reaches(later: Facts) {
      && isServer == later.isServer
      && (gotHandshakeKey ==> later.gotHandshakeKey)
      && (sentHandshake ==> later.sentHandshake)
      && (receivedHandshake ==> later.receivedHandshake)
      && (handshakeAcked ==> later.handshakeAcked)
      && (handshakeDone ==> later.handshakeDone)
    }
  }

  /** What one operation observes: the time, the RTT estimator's answers, and the facts at each successive read. */
  datatype Env = Env(now: nat, lossDelay: nat, basePto: nat -> nat, facts: nat -> Facts)

  ghost predicate Monotone(env: Env) {
    forall i: nat, j: nat :: i <= j ==> env.facts(i).Reaches(env.facts(j))
  }

  /** Reads the facts twice. */
  predicate PeerValidated(env: Env, at: nat) {
    env.facts(at).isServer || env.facts(at).handshakeAcked || env.facts(at + 1).handshakeDone
  }

  // ---------------------------------------------------------------- spaces and the controller

  datatype Space = Space(largestAcked: Option<nat>, lastAckEliciting: Option<nat>, lossTime: Option<nat>, sent: seq<SentPacket>)

  datatype Controller = Controller(
    spaces: PerEpoch<Space>,
    discarded: PerEpoch<bool>,
    timer: Option<nat>,
    ptoCount: nat,
    probes: PerEpoch<nat>,
    blocked: bool,
    maxAckDelay: nat,
    account: Account)

  const EMPTY: Space := Space(None, None, None, [])

  function Init(maxAckDelay: nat): Controller {
    Controller(PerEpoch(EMPTY, EMPTY, EMPTY), PerEpoch(false, false, false), None, 0, PerEpoch(0, 0, 0), false, maxAckDelay,
               Account(0, [], [], [], []))
  }

  function Sent(c: Controller, e: Epoch): seq<SentPacket> { c.spaces.Get(e).sent }

  predicate Idle(c: Controller) {
    NoAckElicitingInFlight(Sent(c, Initial)) && NoAckElicitingInFlight(Sent(c, Handshake)) && NoAckElicitingInFlight(Sent(c, Data))
  }

  function Earlier(a: Option<(nat, Epoch)>, b: Option<(nat, Epoch)>): Option<(nat, Epoch)> {
    if a.None? || (b.Some? && b.value.0 < a.value.0) then b else a
  }

  function LossTimeOf(c: Controller, e: Epoch): Option<(nat, Epoch)> {
    if c.spaces.Get(e).lossTime.Some? then Some((c.spaces.Get(e).lossTime.value, e)) else None
  }

  function GetLossTime(c: Controller): Option<(nat, Epoch)> {
    Earlier(Earlier(LossTimeOf(c, Initial), LossTimeOf(c, Handshake)), LossTimeOf(c, Data))
  }

  function Pow2(n: nat): nat { if n == 0 then 1 else 2 * Pow2(n - 1) }

  /** A space with an ack-eliciting packet in flight remembers when the last one was sent. */
  predicate Anchored(s: Space) { NoAckElicitingInFlight(s.sent) || s.lastAckEliciting.Some? }

  predicate AllAnchored(c: Controller) {
    Anchored(c.spaces.initial) && Anchored(c.spaces.handshake) && Anchored(c.spaces.data)
  }

  /** What the PTO computation reads of the send times: that of the data space only once the handshake is done. */
  predicate PtoSafe(c: Controller, env: Env, at: nat) {
    Anchored(c.spaces.initial) && Anchored(c.spaces.handshake) && (env.facts(at + 1).handshakeDone ==> Anchored(c.spaces.data))
  }

  /** The PTO deadline of one space; its precondition is the `unwrap` in the implementation. */
  function PtoOf(s: Space, e: Epoch, duration: nat): Option<(nat, Epoch)>
    requires Anchored(s)
  {
    if NoAckElicitingInFlight(s.sent) then None else Some((s.lastAckEliciting.value + duration, e))
  }

  /** Reads the facts once or twice. */
  function GetPto(c: Controller, env: Env, at: nat): Option<(nat, Epoch)>
    requires PtoSafe(c, env, at)
  {
    var duration := env.basePto(c.ptoCount);
    if Idle(c) then
      Some((env.now + duration, if env.facts(at).gotHandshakeKey then Handshake else Initial))
    else
      var early := Earlier(PtoOf(c.spaces.initial, Initial, duration), PtoOf(c.spaces.handshake, Handshake, duration));
      if NoAckElicitingInFlight(Sent(c, Data)) || !env.facts(at + 1).handshakeDone then early
      else Earlier(early, PtoOf(c.spaces.data, Data, duration + c.maxAckDelay * Pow2(c.ptoCount)))
  }

  /** Whether the timer falls to the PTO, reading the facts up to two times. */
  predicate NeedsPto(c: Controller, env: Env, at: nat) {
    GetLossTime(c).None? && !c.blocked && !(Idle(c) && PeerValidated(env, at))
  }

  /** Reads the facts up to four times. */
  function SetTimer(c: Controller, env: Env, at: nat): Controller
    requires NeedsPto(c, env, at) ==> PtoSafe(c, env, at + 2)
  {
    var timer :=
      if GetLossTime(c).Some? then Some(GetLossTime(c).value.0)
      else if c.blocked then None
      else if Idle(c) && PeerValidated(env, at) then None
      else match GetPto(c, env, at + 2) case None => None case Some((t, _)) => Some(t);
    c.(timer := timer)
  }

  // ---------------------------------------------------------------- operations

  function SetBlocked(c: Controller, blocked: bool, env: Env): Controller
    requires AllAnchored(c)
  {
    if c.blocked == blocked then c else SetTimer(c.(blocked := blocked), env, 0)
  }

  /** Store the record and tell congestion control; the timer follows. */
  function Record(c: Controller, e: Epoch, p: SentPacket): Controller {
    var s := c.spaces.Get(e);
    var anchored := if p.countForCc && p.ackEliciting then s.(lastAckEliciting := Some(p.timeSent)) else s;
    c.(spaces := c.spaces.Set(e, if p.ackEliciting || p.countForCc then anchored.(sent := s.sent + [p]) else anchored),
       probes := if p.countForCc && p.ackEliciting then c.probes.Set(e, SaturatingSub(c.probes.Get(e), 1)) else c.probes,
       account := if p.countForCc then OnSentCc(c.account, TagOf(p, e)) else c.account)
  }

  function OnPacketSent(c: Controller, e: Epoch, pn: nat, ackEliciting: bool, inFlight: bool, bytes: nat, env: Env): Controller
    requires AllAnchored(c)
  {
    if c.discarded.Get(e) then c
    else
      var recorded := Record(c, e, SentPacket(pn, env.now, ackEliciting, inFlight, bytes, Inflight));
      if inFlight then SetTimer(recorded, env, 0) else recorded
  }

  function MaxAcked(largest: Option<nat>, pn: nat): Option<nat> {
    match largest
    case None => Some(pn)
    case Some(n) => Some(Max(n, pn))
  }

  /** The numbers a detection pass reports as lost, oldest first. */
  function LostNumbers(s: Space, env: Env): seq<nat> {
    match s.largestAcked
    case None => []
    case Some(largest) => Detect(s.sent, Pass(largest, env.now, env.lossDelay)).lost
  }

  predicate AcksAny(sent: seq<SentPacket>, ranges: AckRanges) { exists i :: 0 <= i < |sent| && NewlyAcked(sent[i], ranges) }

  /** What an acknowledgement hands to retransmission. */
  function LostOnAck(c: Controller, e: Epoch, largest: nat, ranges: AckRanges, env: Env): seq<nat> {
    if c.discarded.Get(e) || !AcksAny(Sent(c, e), ranges) then []
    else LostNumbers(TakeAck(c, e, largest, ranges).spaces.Get(e), env)
  }

  /** What a timeout hands to retransmission. */
  function LostOnTimeout(c: Controller, env: Env): seq<nat> {
    match GetLossTime(c)
    case None => []
    case Some((_, e)) => LostNumbers(c.spaces.Get(e), env)
  }

  /** Mark, report and trim; nothing else happens yet. */
  function TakeAck(c: Controller, e: Epoch, largest: nat, ranges: AckRanges): Controller {
    var s := c.spaces.Get(e);
    var mask := AckMask(s.sent, ranges);
    c.(spaces := c.spaces.Set(e, s.(largestAcked := MaxAcked(s.largestAcked, largest), sent := TrimFront(Settle(s.sent, mask, Acked)))),
       account := OnAckedCc(c.account, TagsBackward(s.sent, mask, e)))
  }

  function DetectIn(c: Controller, e: Epoch, env: Env): Controller {
    var s := c.spaces.Get(e);
    match s.largestAcked
    case None => c.(spaces := c.spaces.Set(e, s.(lossTime := None)))
    case Some(largest) =>
      var pass := Pass(largest, env.now, env.lossDelay);
      var mask := LostMask(s.sent, pass);
      c.(spaces := c.spaces.Set(e, s.(lossTime := NextLossTime(s.sent, mask, pass), sent := Settle(s.sent, mask, Retransmitted))),
         account := OnLostCc(c.account, Tags(s.sent, mask, e)))
  }

  function OnAckRcvd(c: Controller, e: Epoch, largest: nat, ranges: AckRanges, env: Env): Controller
    requires AllAnchored(c)
  {
    if c.discarded.Get(e) then c
    else
      TakeAckAnchored(c, e, largest, ranges);
      var taken := TakeAck(c, e, largest, ranges);
      if !AcksAny(Sent(c, e), ranges) then taken
      else
        DetectAnchored(taken, e, env);
        var detected := DetectIn(taken, e, env);
        SetTimer(if PeerValidated(env, 0) then detected.(ptoCount := 0) else detected, env, 2)
  }

  /** Forget a space; whatever was in flight is taken off the account. */
  function Discard(c: Controller, e: Epoch): Controller
    requires Weigh(InFlightTags(Sent(c, e), e), Bytes) <= c.account.bytesInFlight
  {
    c.(spaces := c.spaces.Set(e, EMPTY), account := OnRemovedCc(c.account, InFlightTags(Sent(c, e), e)))
  }

  function Forget(c: Controller, e: Epoch): Controller
    requires Weigh(InFlightTags(Sent(c, e), e), Bytes) <= c.account.bytesInFlight
  {
    Discard(c, e).(discarded := c.discarded.Set(e, true), probes := c.probes.Set(e, 0), timer := None, ptoCount := 0)
  }

  function DiscardEpoch(c: Controller, e: Epoch, env: Env, at: nat): Controller
    requires AllAnchored(c) && e != Data
    requires Weigh(InFlightTags(Sent(c, e), e), Bytes) <= c.account.bytesInFlight
  {
    if c.discarded.Get(e) then c
    else SetTimer(Forget(c, e), env, at)
  }

  lemma SettleAnchored(s: Space, mask: seq<bool>, state: PacketState)
    requires Anchored(s) && |mask| == |s.sent| && state != Inflight
    ensures Anchored(s.(sent := Settle(s.sent, mask, state)))
    ensures Anchored(s.(sent := TrimFront(Settle(s.sent, mask, state))))
  {
    TrimFrontTrims(Settle(s.sent, mask, state));
  }

  lemma TakeAckAnchored(c: Controller, e: Epoch, largest: nat, ranges: AckRanges)
    requires AllAnchored(c)
    ensures AllAnchored(TakeAck(c, e, largest, ranges))
  {
    SettleAnchored(c.spaces.Get(e), AckMask(Sent(c, e), ranges), Acked);
  }

  lemma DetectAnchored(c: Controller, e: Epoch, env: Env)
    requires AllAnchored(c)
    ensures AllAnchored(DetectIn(c, e, env))
  {
    var s := c.spaces.Get(e);
    if s.largestAcked.Some? {
      SettleAnchored(s, LostMask(s.sent, Pass(s.largestAcked.value, env.now, env.lossDelay)), Retransmitted);
    }
  }

  // ---------------------------------------------------------------- the periodic driver

  /** Drop the handshake spaces whose work is done. Reads the facts at positions 0 to 9. */
  function RetireHandshakeSpaces(c: Controller, env: Env): (next: Controller)
    requires Sound(c)
    ensures Sound(next)
  {
    var first :=
      if !c.discarded.initial && env.facts(0).InitialDone() then
        DiscardEpochSound(c, Initial, env, 1); DiscardEpoch(c, Initial, env, 1)
      else c;
    if !first.discarded.handshake && env.facts(5).handshakeDone then
      DiscardEpochSound(first, Handshake, env, 6); DiscardEpoch(first, Handshake, env, 6)
    else first
  }

  /** Whether a timeout would find nothing to recover; the implementation asserts that the peer is not validated then. */
  predicate AntiDeadlock(c: Controller) { GetLossTime(c).None? && Idle(c) }

  /** The precondition on `peerValidated` is the debug assertion of the implementation. */
  function OnTimeout(c: Controller, env: Env, peerValidated: bool, at: nat): (next: Controller)
    requires Sound(c) && (AntiDeadlock(c) ==> !peerValidated)
    ensures Sound(next)
  {
    match GetLossTime(c)
    case Some((_, e)) =>
      DetectSound(c, e, env);
      var next := SetTimer(DetectIn(c, e, env), env, at);
      SameLedger(DetectIn(c, e, env), next);
      next
    case None =>
      var next := SetTimer(ProbeFor(c, env, at).(ptoCount := c.ptoCount + 1), env, at + 2);
      SameLedger(c, next);
      next
  }

  function ProbeFor(c: Controller, env: Env, at: nat): (next: Controller)
    requires AllAnchored(c)
    ensures next.spaces == c.spaces && next.account == c.account
  {
    if Idle(c) then Probe(c, if env.facts(at).gotHandshakeKey then Handshake else Initial)
    else match GetPto(c, env, at) case None => c case Some((_, e)) => Probe(c, e)
  }

  function Probe(c: Controller, e: Epoch): Controller { c.(probes := c.probes.Set(e, c.probes.Get(e) + 1)) }

  /** The state in which `tick` looks at the timer. Reads the facts at positions 10 to 15. */
  function Armed(c: Controller, env: Env): (next: Controller)
    requires Sound(c)
    ensures Sound(next)
  {
    var retired := RetireHandshakeSpaces(c, env);
    if retired.timer.None? || retired.blocked || (PeerValidated(env, 10) && AntiDeadlock(retired)) then
      var next := SetTimer(retired, env, 12);
      SameLedger(retired, next);
      next
    else retired
  }

  /** The space the next PTO will probe. Reads the facts at positions 0 to 13. */
  function PtoEpoch(c: Controller, env: Env): (r: (Controller, Option<Epoch>))
    requires Sound(c)
    ensures Sound(r.0)
  {
    var retired := RetireHandshakeSpaces(c, env);
    (retired,
     if Idle(retired) && PeerValidated(env, 10) then None
     else match GetPto(retired, env, 12) case None => None case Some((_, e)) => Some(e))
  }

  /**
   The selected space is the one a timeout probes; and while there is no loss deadline and no
   amplification limit, one is selected if and only if the timer is armed.
   */
  lemma PtoEpochIsProbed(c: Controller, env: Env)
    requires Sound(c)
    ensures var (retired, selected) := PtoEpoch(c, env);
            && (selected.Some? ==> ProbeFor(retired, env, 12) == Probe(retired, selected.value))
            && (GetLossTime(retired).None? && !retired.blocked ==>
                  (selected.Some? <==> SetTimer(retired, env, 10).timer.Some?))
  {
  }

  /** A timeout that leaves the backoff beyond this count reports the path as failed. */
  const MAX_PTO_COUNT: nat := 6

  predicate Expired(c: Controller, env: Env) { c.timer.Some? && c.timer.value <= env.now }

  function Tick(c: Controller, env: Env): (next: Controller)
    requires Sound(c) && Monotone(env)
    ensures Sound(next)
  {
    var armed := Armed(c, env);
    if Expired(armed, env) then
      AntiDeadlockAssertion(c, env);
      OnTimeout(armed, env, PeerValidated(env, 10), 16)
    else armed
  }

  /**
   An expired timer never finds an idle path whose peer is already validated, even if other paths
   advance the handshake between any two reads of the same tick.
   */
  lemma AntiDeadlockAssertion(c: Controller, env: Env)
    requires Sound(c) && Monotone(env) && Expired(Armed(c, env), env)
    ensures AntiDeadlock(Armed(c, env)) ==> !PeerValidated(env, 10)
  {
    assert env.facts(10).Reaches(env.facts(12)) && env.facts(11).Reaches(env.facts(13));
  }

  /** Abandon the path: all three spaces are forgotten, none is marked discarded. */
  function OnPathLost(c: Controller): (next: Controller)
    requires Sound(c)
    ensures Sound(next)
  {
    DiscardSound(c, Initial);
    var c1 := Discard(c, Initial);
    DiscardSound(c1, Handshake);
    var c2 := Discard(c1, Handshake);
    DiscardSound(c2, Data);
    var next := Discard(c2, Data).(timer := None);
    SameLedger(Discard(c2, Data), next);
    next
  }

  // ---------------------------------------------------------------- conservation

  /** The weight of what one space has in flight. */
  function FlightWeight(sent: seq<SentPacket>, e: Epoch, weight: Tag -> nat): nat {
    if sent == [] then 0
    else
      var n := |sent| - 1;
      FlightWeight(sent[..n], e, weight) + if InFlight(sent[n]) then weight(TagOf(sent[n], e)) else 0
  }

  function TotalFlight(c: Controller, weight: Tag -> nat): nat {
    FlightWeight(Sent(c, Initial), Initial, weight) + FlightWeight(Sent(c, Handshake), Handshake, weight)
    + FlightWeight(Sent(c, Data), Data, weight)
  }

  /** By whatever measure, what was sent is still in flight or left as acked, lost or removed. */
  ghost predicate Balanced(c: Controller, weight: Tag -> nat) {
    Weigh(c.account.sent, weight)
    == TotalFlight(c, weight) + Weigh(c.account.acked, weight) + Weigh(c.account.lost, weight) + Weigh(c.account.removed, weight)
  }

  ghost predicate Conserved(c: Controller) {
    && (forall weight: Tag -> nat :: Balanced(c, weight))
    && c.account.bytesInFlight == TotalFlight(c, Bytes)
  }

  ghost predicate Sound(c: Controller) { AllAnchored(c) && Conserved(c) }

  lemma {:induction false} WeighConcat(a: seq<Tag>, b: seq<Tag>, weight: Tag -> nat)
    ensures Weigh(a + b, weight) == Weigh(a, weight) + Weigh(b, weight)
    decreases |b|
  {
    if b == [] {
      assert a + b == a;
    } else {
      assert (a + b)[..|a + b| - 1] == a + b[..|b| - 1];
      WeighConcat(a, b[..|b| - 1], weight);
    }
  }

  lemma WeighOne(t: Tag, weight: Tag -> nat)
    ensures Weigh([t], weight) == weight(t)
  {
    assert [t][..0] == [];
  }

  /** Records that leave the in-flight state are exactly the ones tagged. */
  lemma {:induction false} SettleConserves(sent: seq<SentPacket>, mask: seq<bool>, e: Epoch, state: PacketState, weight: Tag -> nat)
    requires |mask| == |sent| && state != Inflight
    ensures FlightWeight(Settle(sent, mask, state), e, weight) + Weigh(Tags(sent, mask, e), weight) == FlightWeight(sent, e, weight)
    ensures Weigh(TagsBackward(sent, mask, e), weight) == Weigh(Tags(sent, mask, e), weight)
    decreases |sent|
  {
    if sent != [] {
      var n := |sent| - 1;
      SettleConserves(sent[..n], mask[..n], e, state, weight);
      assert Settle(sent, mask, state)[..n] == Settle(sent[..n], mask[..n], state);
      var t := TagOf(sent[n], e);
      WeighOne(t, weight);
      if mask[n] && InFlight(sent[n]) {
        WeighConcat(Tags(sent[..n], mask[..n], e), [t], weight);
        WeighConcat([t], TagsBackward(sent[..n], mask[..n], e), weight);
      } else {
        assert Tags(sent, mask, e) == Tags(sent[..n], mask[..n], e);
        assert TagsBackward(sent, mask, e) == TagsBackward(sent[..n], mask[..n], e);
      }
    }
  }

  lemma {:induction false} FlightWeightSplit(a: seq<SentPacket>, b: seq<SentPacket>, e: Epoch, weight: Tag -> nat)
    ensures FlightWeight(a + b, e, weight) == FlightWeight(a, e, weight) + FlightWeight(b, e, weight)
    decreases |b|
  {
    if b == [] {
      assert a + b == a;
    } else {
      assert (a + b)[..|a + b| - 1] == a + b[..|b| - 1];
      FlightWeightSplit(a, b[..|b| - 1], e, weight);
    }
  }

  lemma {:induction false} SettledWeighNothing(sent: seq<SentPacket>, e: Epoch, weight: Tag -> nat)
    requires forall i :: 0 <= i < |sent| ==> sent[i].state != Inflight
    ensures FlightWeight(sent, e, weight) == 0
    decreases |sent|
  {
    if sent != [] { SettledWeighNothing(sent[..|sent| - 1], e, weight); }
  }

  lemma TrimConserves(sent: seq<SentPacket>, e: Epoch, weight: Tag -> nat)
    ensures FlightWeight(TrimFront(sent), e, weight) == FlightWeight(sent, e, weight)
  {
    TrimFrontTrims(sent);
    var k := |sent| - |TrimFront(sent)|;
    assert sent == sent[..k] + TrimFront(sent);
    FlightWeightSplit(sent[..k], TrimFront(sent), e, weight);
    SettledWeighNothing(sent[..k], e, weight);
  }

  lemma {:induction false} InFlightTagsWeigh(sent: seq<SentPacket>, e: Epoch, weight: Tag -> nat)
    ensures Weigh(InFlightTags(sent, e), weight) == FlightWeight(sent, e, weight)
    decreases |sent|
  {
    if sent != [] {
      var n := |sent| - 1;
      InFlightTagsWeigh(sent[..n], e, weight);
      assert All(|sent|)[..n] == All(n);
      WeighOne(TagOf(sent[n], e), weight);
      if InFlight(sent[n]) {
        WeighConcat(InFlightTags(sent[..n], e), [TagOf(sent[n], e)], weight);
      } else {
        assert InFlightTags(sent, e) == InFlightTags(sent[..n], e);
      }
    }
  }

  lemma {:induction false} SubtractAllExact(n: nat, tags: seq<Tag>)
    requires Weigh(tags, Bytes) <= n
    ensures SubtractAll(n, tags) == n - Weigh(tags, Bytes)
    decreases |tags|
  {
    if tags != [] { SubtractAllExact(n, tags[..|tags| - 1]); }
  }

  lemma ReplaceSpace(c: Controller, e: Epoch, s: Space, weight: Tag -> nat)
    ensures TotalFlight(c.(spaces := c.spaces.Set(e, s)), weight) + FlightWeight(Sent(c, e), e, weight)
         == TotalFlight(c, weight) + FlightWeight(s.sent, e, weight)
  {
  }

  lemma FlightWithinTotal(c: Controller, e: Epoch)
    requires Conserved(c)
    ensures FlightWeight(Sent(c, e), e, Bytes) <= c.account.bytesInFlight
  {
  }

  /** The weight a send adds. */
  function Added(p: SentPacket, e: Epoch, weight: Tag -> nat): nat {
    if p.countForCc then weight(TagOf(p, e)) else 0
  }

  lemma RecordFlight(c: Controller, e: Epoch, p: SentPacket, weight: Tag -> nat)
    requires p.state == Inflight
    ensures TotalFlight(Record(c, e, p), weight) == TotalFlight(c, weight) + Added(p, e, weight)
  {
    var s := Record(c, e, p).spaces.Get(e);
    assert p.ackEliciting || p.countForCc ==> s.sent[..|s.sent| - 1] == Sent(c, e);
    ReplaceSpace(c, e, s, weight);
  }

  lemma RecordAccount(c: Controller, e: Epoch, p: SentPacket, weight: Tag -> nat)
    ensures Weigh(Record(c, e, p).account.sent, weight) == Weigh(c.account.sent, weight) + Added(p, e, weight)
  {
    WeighConcat(c.account.sent, [TagOf(p, e)], weight);
    WeighOne(TagOf(p, e), weight);
  }

  lemma RecordConserves(c: Controller, e: Epoch, p: SentPacket)
    requires Conserved(c) && p.state == Inflight
    ensures Conserved(Record(c, e, p))
  {
    forall weight: Tag -> nat ensures Balanced(Record(c, e, p), weight) {
      assert Balanced(c, weight);
      RecordFlight(c, e, p, weight);
      RecordAccount(c, e, p, weight);
    }
    RecordFlight(c, e, p, Bytes);
  }

  lemma TakeAckConserves(c: Controller, e: Epoch, largest: nat, ranges: AckRanges)
    requires Conserved(c)
    ensures Conserved(TakeAck(c, e, largest, ranges))
  {
    var next := TakeAck(c, e, largest, ranges);
    var sent, mask := Sent(c, e), AckMask(Sent(c, e), ranges);
    var tags := TagsBackward(sent, mask, e);
    forall weight: Tag -> nat ensures TotalFlight(next, weight) + Weigh(tags, weight) == TotalFlight(c, weight) {
      SettleConserves(sent, mask, e, Acked, weight);
      TrimConserves(Settle(sent, mask, Acked), e, weight);
      ReplaceSpace(c, e, next.spaces.Get(e), weight);
    }
    forall weight: Tag -> nat ensures Balanced(next, weight) {
      assert Balanced(c, weight);
      WeighConcat(c.account.acked, tags, weight);
    }
    SubtractAllExact(c.account.bytesInFlight, tags);
  }

  lemma DetectConserves(c: Controller, e: Epoch, env: Env)
    requires Conserved(c)
    ensures Conserved(DetectIn(c, e, env))
  {
    var next, s := DetectIn(c, e, env), c.spaces.Get(e);
    if s.largestAcked.None? {
      forall weight: Tag -> nat ensures TotalFlight(next, weight) == TotalFlight(c, weight) {
        ReplaceSpace(c, e, next.spaces.Get(e), weight);
      }
      forall weight: Tag -> nat ensures Balanced(next, weight) { assert Balanced(c, weight); }
    } else {
      var mask := LostMask(s.sent, Pass(s.largestAcked.value, env.now, env.lossDelay));
      var tags := Tags(s.sent, mask, e);
      forall weight: Tag -> nat ensures TotalFlight(next, weight) + Weigh(tags, weight) == TotalFlight(c, weight) {
        SettleConserves(s.sent, mask, e, Retransmitted, weight);
        ReplaceSpace(c, e, next.spaces.Get(e), weight);
      }
      forall weight: Tag -> nat ensures Balanced(next, weight) {
        assert Balanced(c, weight);
        WeighConcat(c.account.lost, tags, weight);
      }
      SubtractAllExact(c.account.bytesInFlight, tags);
    }
  }

  lemma DetectSound(c: Controller, e: Epoch, env: Env)
    requires Sound(c)
    ensures Sound(DetectIn(c, e, env))
  {
    DetectAnchored(c, e, env);
    DetectConserves(c, e, env);
  }

  /** What a space has in flight is covered by the counter, so discarding it cannot underflow. */
  lemma DiscardSound(c: Controller, e: Epoch)
    requires Sound(c)
    ensures Weigh(InFlightTags(Sent(c, e), e), Bytes) <= c.account.bytesInFlight
    ensures Sound(Discard(c, e))
  {
    var tags := InFlightTags(Sent(c, e), e);
    InFlightTagsWeigh(Sent(c, e), e, Bytes);
    FlightWithinTotal(c, e);
    var next := Discard(c, e);
    forall weight: Tag -> nat ensures TotalFlight(next, weight) + Weigh(tags, weight) == TotalFlight(c, weight) {
      InFlightTagsWeigh(Sent(c, e), e, weight);
      ReplaceSpace(c, e, EMPTY, weight);
    }
    forall weight: Tag -> nat ensures Balanced(next, weight) {
      assert Balanced(c, weight);
      WeighConcat(c.account.removed, tags, weight);
    }
  }

  /** Conservation speaks of the spaces and the account only. */
  lemma SameLedger(c: Controller, d: Controller)
    requires Sound(c) && c.spaces == d.spaces && c.account == d.account
    ensures Sound(d)
  {
    forall weight: Tag -> nat ensures Balanced(d, weight) { assert Balanced(c, weight); }
    assert TotalFlight(d, Bytes) == TotalFlight(c, Bytes);
  }

  lemma DiscardEpochSound(c: Controller, e: Epoch, env: Env, at: nat)
    requires Sound(c) && e != Data
    ensures Weigh(InFlightTags(Sent(c, e), e), Bytes) <= c.account.bytesInFlight
    ensures Sound(DiscardEpoch(c, e, env, at))
  {
    DiscardSound(c, e);
    if !c.discarded.Get(e) { SameLedger(Discard(c, e), DiscardEpoch(c, e, env, at)); }
  }
}
