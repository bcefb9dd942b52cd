/**
 Closing and draining of a connection (section 10.2 of RFC 9000): one phase that only moves forward,
 components that must hear of the end exactly once, and rate-limited CLOSE replies.
 */
module TerminatorModel {
  import opened Basics

  datatype Error = AppError(code: nat, reason: string) | QuicError(kind: nat, text: string)

  /** The error a component sees when the connection is terminated without ever closing. */
  const TERMINATED: Error := QuicError(0, "connection terminated")

  /** What is sent in place of an application error before 1-RTT. */
  const CONCEALED: Error := QuicError(12, "")

  datatype CloseReason = App(error: Error) | Peer(error: Error) | Internal(error: Error)

  datatype Phase =
    | NoError(components: seq<nat>)
    | Closing(error: Error, syncCcf: bool, sentCcf: bool, rcvdPackets: nat, lastSent: nat, interval: nat)
    | Draining(error: Error, sentCcf: bool)
    | Terminated(error: Error)
  {
    function Rank(): nat {
      match this
      case NoError(_) => 0
      case Closing(_, _, _, _, _, _) => 1
      case Draining(_, _) => 2
      case Terminated(_) => 3
    }
  }

  /** What happened during Closing: when it began, the last packet seen, and what re-armed the reply. */
  datatype ClosingLog = ClosingLog(start: nat, until: nat, interval: nat, packets: nat, byCount: nat, byTime: nat, writes: nat)

  /**
   The terminator with the history around it. `pending` are callbacks promised under the lock but made
   after it is released; `first` is the reason that ended NoError; `peer` a CLOSE received in Closing.
   */
  datatype World = World(
    clock: nat,
    phase: Phase,
    registered: seq<nat>,
    pending: seq<(nat, Error)>,
    closed: seq<(nat, Error)>,
    deadlines: nat,
    first: Option<Error>,
    peer: Option<Error>,
    log: Option<ClosingLog>,
    drainingWrites: nat)

  function Init(): World { World(0, NoError([]), [], [], [], 0, None, None, None, 0) }

  function Calls(components: seq<nat>, error: Error): seq<(nat, Error)> {
    seq(|components|, i requires 0 <= i < |components| => (components[i], error))
  }

  // ---------------------------------------------------------------- locked operations

  /** Before the end a component is stored; afterwards it is told the current error, outside the lock. */
  function Register(w: World, c: nat): World {
    var w1 := w.(registered := w.registered + [c]);
    match w.phase
    case NoError(components) => w1.(phase := NoError(components + [c]))
    case _ => w1.(pending := w.pending + [(c, w.phase.error)])
  }

  /** Components are told under the lock; the caller then starts the one deadline. */
  function Close(w: World, reason: CloseReason, pto: nat): World {
    match w.phase
    case NoError(components) =>
      var w1 := w.(closed := w.closed + Calls(components, reason.error), deadlines := w.deadlines + 1, first := Some(reason.error));
      if reason.Peer? then w1.(phase := Draining(reason.error, false))
      else
        w1.(phase := Closing(reason.error, true, false, 0, w.clock, pto),
            log := Some(ClosingLog(w.clock, w.clock, pto, 0, 0, 0, 0)))
    case _ => w
  }

  /** The second locked half of receiving a CLOSE; the first half is `Close` with the peer as reason. */
  function PeerClose(w: World, error: Error): World {
    match w.phase
    case Closing(_, _, sentCcf, _, _, _) => w.(phase := Draining(error, sentCcf), peer := Some(error))
    case _ => w
  }

  const REPLY_PACKETS: nat := 5

  function SaturatingIncrement(n: nat): nat { if n < 0xff then n + 1 else n }

  function OnRcvdPacket(w: World): World {
    match w.phase
    case Closing(error, syncCcf, sentCcf, rcvd, lastSent, interval) =>
      var count := SaturatingIncrement(rcvd);
      var timeDue := SaturatingSub(w.clock, lastSent) >= interval;
      var log := if w.log.Some? then Some(w.log.value.(packets := w.log.value.packets + 1, until := w.clock)) else None;
      if !syncCcf && (count >= REPLY_PACKETS || timeDue) then
        w.(phase := Closing(error, true, sentCcf, 0, w.clock, interval),
           log := if log.None? then None
                  else if count >= REPLY_PACKETS then Some(log.value.(byCount := log.value.byCount + 1))
                  else Some(log.value.(byTime := log.value.byTime + 1)))
      else
        w.(phase := Closing(error, syncCcf, sentCcf, count, lastSent, interval), log := log)
    case _ => w
  }

  datatype Dump = Wait | Wrote(frame: Error) | NoRoom | Silent | Ended(error: Error)

  /** The CLOSE content for a packet; early packets conceal application errors. */
  function FrameFor(error: Error, early: bool): Error { if early && error.AppError? then CONCEALED else error }

  /** `room` is whether the packet can take the frame. */
  function PollDump(w: World, early: bool, room: bool): (World, Dump) {
    match w.phase
    case NoError(_) => (w, Wait)
    case Closing(error, syncCcf, _, rcvd, lastSent, interval) =>
      if !syncCcf then (w, Wait)
      else if !room then (w, NoRoom)
      else
        (w.(phase := Closing(error, false, true, rcvd, lastSent, interval),
            log := if w.log.Some? then Some(w.log.value.(writes := w.log.value.writes + 1)) else None),
         Wrote(FrameFor(error, early)))
    case Draining(error, sentCcf) =>
      if sentCcf then (w, Silent)
      else if !room then (w, NoRoom)
      else (w.(phase := Draining(error, true), drainingWrites := w.drainingWrites + 1), Wrote(FrameFor(error, early)))
    case Terminated(error) => (w, Ended(error))
  }

  /** End at once with `error` unless an error is already known; components are told outside the lock. */
  function Finish(w: World, error: Error): World {
    match w.phase
    case NoError(components) =>
      w.(phase := Terminated(error), pending := w.pending + Calls(components, error), first := Some(error))
    case Closing(e, _, _, _, _, _) => w.(phase := Terminated(e))
    case Draining(e, _) => w.(phase := Terminated(e))
    case Terminated(_) => w
  }

  function Terminate(w: World): World { Finish(w, TERMINATED) }

  function Abort(w: World, error: Error): World { Finish(w, error) }

  // ---------------------------------------------------------------- runs

  datatype Step =
    | Elapse(time: nat)
    | RegisterStep(component: nat)
    | CloseStep(reason: CloseReason, pto: nat)
    | PeerCloseStep(error: Error)
    | PacketStep
    | DumpStep(early: bool, room: bool)
    | TerminateStep
    | AbortStep(error: Error)
    | Callback(i: nat)

  /** Any thread may take any step; a promised callback is made at any later time. */
  function Next(w: World, step: Step): World {
    match step
    case Elapse(time) => w.(clock := w.clock + time)
    case RegisterStep(c) => Register(w, c)
    case CloseStep(reason, pto) => Close(w, reason, pto)
    case PeerCloseStep(error) => PeerClose(w, error)
    case PacketStep => OnRcvdPacket(w)
    case DumpStep(early, room) => PollDump(w, early, room).0
    case TerminateStep => Terminate(w)
    case AbortStep(error) => Abort(w, error)
    case Callback(i) => if i < |w.pending| then Call(w, i) else w
  }

  function Call(w: World, i: nat): World
    requires i < |w.pending|
  {
    w.(pending := w.pending[..i] + w.pending[i + 1..], closed := w.closed + [w.pending[i]])
  }

  function Exec(steps: seq<Step>): World {
    if steps == [] then Init() else Next(Exec(steps[..|steps| - 1]), steps[|steps| - 1])
  }

  // ---------------------------------------------------------------- the invariant

  function CountCalls(s: seq<(nat, Error)>, c: nat): nat {
    if s == [] then 0 else CountCalls(s[..|s| - 1], c) + if s[|s| - 1].0 == c then 1 else 0
  }

  function Stored(w: World): seq<nat> { if w.phase.NoError? then w.phase.components else [] }

  /** Each registration is stored, promised or made: exactly one of the three. */
  predicate Balanced(w: World, c: nat) {
    Count(w.registered, c) == Count(Stored(w), c) + CountCalls(w.pending, c) + CountCalls(w.closed, c)
  }

  /** The reason in force: the first one, unless a peer's CLOSE replaced it during Closing. */
  predicate Reasons(w: World) {
    && (w.phase.NoError? <==> w.first.None?)
    && (w.phase.NoError? ==> w.pending == [] && w.closed == [] && w.peer.None? && w.log.None? && w.deadlines == 0 && w.drainingWrites == 0)
    && (!w.phase.NoError? ==> w.phase.error == if w.peer.Some? then w.peer.value else w.first.value)
    && (w.peer.Some? ==> w.phase.Rank() >= 2 && w.log.Some?)
    && w.deadlines <= 1
  }

  /** The replies written or armed during Closing are accounted for by packets and by time. */
  predicate Replies(w: World) {
    && (w.phase.Closing? ==> w.log.Some?)
    && (w.log.Some? ==>
          var l := w.log.value;
          && REPLY_PACKETS * l.byCount <= l.packets
          && l.start <= l.until <= w.clock
          && l.interval * l.byTime <= l.until - l.start
          && l.writes <= 1 + l.byCount + l.byTime)
    && (w.phase.Closing? ==>
          var l := w.log.value;
          && l.interval == w.phase.interval
          && REPLY_PACKETS * l.byCount + w.phase.rcvdPackets <= l.packets
          && l.start <= w.phase.lastSent <= l.until
          && l.interval * l.byTime <= w.phase.lastSent - l.start
          && l.writes + (if w.phase.syncCcf then 1 else 0) == 1 + l.byCount + l.byTime
          && (w.phase.sentCcf <==> l.writes > 0))
  }

  /** Draining writes at most one CLOSE, and only if Closing wrote none. */
  predicate LastWord(w: World) {
    && w.drainingWrites <= 1
    && (w.phase.Closing? ==> w.drainingWrites == 0)
    && (w.phase.Draining? ==> (w.phase.sentCcf <==> w.drainingWrites > 0 || (w.log.Some? && w.log.value.writes > 0)))
    && (w.drainingWrites > 0 ==> w.log.None? || w.log.value.writes == 0)
  }

  predicate KnownReason(w: World, error: Error) { w.first == Some(error) || w.peer == Some(error) }

  /** Whoever is told, is told the first reason or the peer's. */
  predicate ToldTruly(w: World) {
    && (forall i :: 0 <= i < |w.pending| ==> KnownReason(w, w.pending[i].1))
    && (forall i :: 0 <= i < |w.closed| ==> KnownReason(w, w.closed[i].1))
  }

  ghost predicate Inv(w: World) {
    (forall c: nat :: Balanced(w, c)) && Reasons(w) && Replies(w) && LastWord(w) && ToldTruly(w)
  }

  lemma {:induction false} CountAppend(a: seq<nat>, c: nat, x: nat)
    ensures Count(a + [c], x) == Count(a, x) + if c == x then 1 else 0
  {
    assert (a + [c])[..|a|] == a;
  }

  lemma {:induction false} CallsConcat(a: seq<(nat, Error)>, b: seq<(nat, Error)>, x: nat)
    ensures CountCalls(a + b, x) == CountCalls(a, x) + CountCalls(b, x)
    decreases |b|
  {
    if b == [] {
      assert a + b == a;
    } else {
      assert (a + b)[..|a + b| - 1] == a + b[..|b| - 1];
      CallsConcat(a, b[..|b| - 1], x);
    }
  }

  lemma {:induction false} CallsCount(components: seq<nat>, error: Error, x: nat)
    ensures CountCalls(Calls(components, error), x) == Count(components, x)
    decreases |components|
  {
    if components != [] {
      var n := |components| - 1;
      assert Calls(components, error)[..n] == Calls(components[..n], error);
      CallsCount(components[..n], error, x);
    }
  }

  lemma CallOne(call: (nat, Error), x: nat)
    ensures CountCalls([call], x) == if call.0 == x then 1 else 0
  {
    assert [call][..0] == [];
  }

  lemma RegisterBalanced(w: World, x: nat, c: nat)
    requires Balanced(w, c)
    ensures Balanced(Register(w, x), c)
  {
    CountAppend(w.registered, x, c);
    if w.phase.NoError? {
      CountAppend(w.phase.components, x, c);
    } else {
      CallsConcat(w.pending, [(x, w.phase.error)], c);
      CallOne((x, w.phase.error), c);
    }
  }

  lemma CloseBalanced(w: World, reason: CloseReason, pto: nat, c: nat)
    requires Balanced(w, c)
    ensures Balanced(Close(w, reason, pto), c)
  {
    if w.phase.NoError? {
      CallsConcat(w.closed, Calls(w.phase.components, reason.error), c);
      CallsCount(w.phase.components, reason.error, c);
    }
  }

  lemma NextBalanced(w: World, step: Step, c: nat)
    requires Balanced(w, c)
    ensures Balanced(Next(w, step), c)
  {
    match step
    case RegisterStep(x) => RegisterBalanced(w, x, c);
    case CloseStep(reason, pto) => CloseBalanced(w, reason, pto, c);
    case TerminateStep => FinishBalanced(w, TERMINATED, c);
    case AbortStep(error) => FinishBalanced(w, error, c);
    case Callback(i) => if i < |w.pending| { CallbackBalanced(w, i, c); }
    case _ =>
  }

  lemma FinishBalanced(w: World, error: Error, c: nat)
    requires Balanced(w, c)
    ensures Balanced(Finish(w, error), c)
  {
    if w.phase.NoError? {
      CallsConcat(w.pending, Calls(w.phase.components, error), c);
      CallsCount(w.phase.components, error, c);
    }
  }

  lemma CallbackBalanced(w: World, i: nat, c: nat)
    requires Balanced(w, c) && i < |w.pending|
    ensures Balanced(Call(w, i), c)
  {
    var call := w.pending[i];
    CallsConcat(w.closed, [call], c);
    CallOne(call, c);
    TakenOut(w.pending, i, c);
  }

  lemma TakenOut(calls: seq<(nat, Error)>, i: nat, c: nat)
    requires i < |calls|
    ensures CountCalls(calls, c) == CountCalls(calls[..i] + calls[i + 1..], c) + if calls[i].0 == c then 1 else 0
  {
    var a, b := calls[..i], calls[i + 1..];
    assert calls == (a + [calls[i]]) + b;
    CallsConcat(a + [calls[i]], b, c);
    CallsConcat(a, [calls[i]], c);
    CallOne(calls[i], c);
    CallsConcat(a, b, c);
  }

  lemma NextReasons(w: World, step: Step)
    requires Reasons(w) && Replies(w)
    ensures Reasons(Next(w, step))
  {
  }

  lemma CallToldTruly(w: World, i: nat)
    requires ToldTruly(w) && i < |w.pending|
    ensures ToldTruly(Call(w, i))
  {
  }

  lemma FinishToldTruly(w: World, error: Error)
    requires Reasons(w) && ToldTruly(w)
    ensures ToldTruly(Finish(w, error))
  {
  }

  lemma NextToldTruly(w: World, step: Step)
    requires Reasons(w) && ToldTruly(w)
    ensures ToldTruly(Next(w, step))
  {
    match step
    case Callback(i) => if i < |w.pending| { CallToldTruly(w, i); }
    case AbortStep(error) => FinishToldTruly(w, error);
    case TerminateStep => FinishToldTruly(w, TERMINATED);
    case _ =>
  }

  lemma NextLastWord(w: World, step: Step)
    requires Reasons(w) && Replies(w) && LastWord(w)
    ensures LastWord(Next(w, step))
  {
  }

  lemma PacketReplies(w: World)
    requires Replies(w) && w.phase.Closing?
    ensures Replies(OnRcvdPacket(w))
  {
    var l := w.log.value;
    assert l.interval * (l.byTime + 1) == l.interval * l.byTime + l.interval;
  }

  lemma NextReplies(w: World, step: Step)
    requires Reasons(w) && Replies(w)
    ensures Replies(Next(w, step))
  {
    if step.PacketStep? && w.phase.Closing? { PacketReplies(w); }
  }

  lemma {:induction false} ExecInv(steps: seq<Step>)
    ensures Inv(Exec(steps))
    decreases |steps|
  {
    if steps != [] {
      var n := |steps| - 1;
      var w := Exec(steps[..n]);
      ExecInv(steps[..n]);
      forall c: nat ensures Balanced(Next(w, steps[n]), c) {
        assert Balanced(w, c);
        NextBalanced(w, steps[n], c);
      }
      NextReasons(w, steps[n]);
      NextReplies(w, steps[n]);
      NextLastWord(w, steps[n]);
      NextToldTruly(w, steps[n]);
    }
  }

  // ---------------------------------------------------------------- main results

  /** Phases only move forward. */
  lemma PhaseMovesForward(w: World, step: Step)
    ensures w.phase.Rank() <= Next(w, step).phase.Rank()
  {
  }

  /**
   Over every interleaving: before the end no component was told; after it, every registration, early
   or late, has been told once or its one call is still to be made, each with the first reason or the
   peer's. At most one deadline was started.
   */
  lemma ClosedExactlyOnce(steps: seq<Step>, c: nat)
    ensures var w := Exec(steps);
            && (w.phase.NoError? ==> w.closed == [] && w.pending == [])
            && (!w.phase.NoError? ==> CountCalls(w.closed, c) + CountCalls(w.pending, c) == Count(w.registered, c))
            && ToldTruly(w) && w.deadlines <= 1
  {
    ExecInv(steps);
    assert Balanced(Exec(steps), c);
  }

  /** The terminal error is the first reason, unless a peer's CLOSE arrived during Closing. */
  lemma TerminalError(steps: seq<Step>)
    ensures var w := Exec(steps);
            w.phase.Terminated? ==> w.first.Some? && w.phase.error == if w.peer.Some? then w.peer.value else w.first.value
  {
    ExecInv(steps);
  }

  /** CLOSE frames written during Closing: one, plus one for five packets, plus one for each interval. */
  lemma CloseReplyBound(steps: seq<Step>)
    ensures var w := Exec(steps);
            w.log.Some? && w.log.value.interval > 0 ==>
              var l := w.log.value;
              l.writes <= 1 + l.packets / REPLY_PACKETS + (l.until - l.start) / l.interval
    ensures var w := Exec(steps);
            w.drainingWrites <= 1 && (w.drainingWrites == 1 && w.log.Some? ==> w.log.value.writes == 0)
  {
    ExecInv(steps);
    var w := Exec(steps);
    if w.log.Some? && w.log.value.interval > 0 {
      var l := w.log.value;
      AtMostQuotient(REPLY_PACKETS, l.byCount, l.packets);
      AtMostQuotient(l.interval, l.byTime, l.until - l.start);
    }
  }

  lemma AtMostQuotient(d: nat, q: nat, n: nat)
    requires d > 0 && d * q <= n
    ensures q <= n / d
  {
    var k := n / d;
    assert n == d * k + n % d;
    assert d * (k + 1) == d * k + d;
    if k + 1 <= q { Scale(d, k + 1, q); }
  }

  lemma Scale(d: nat, a: nat, b: nat)
    requires a <= b
    ensures d * a <= d * b
  {
    assert d * b == d * a + d * (b - a);
  }

  /**
   Over every run, what a CLOSE frame says is the first reason or the peer's; an application's reason is
   concealed in Initial and Handshake packets, and never elsewhere.
   */
  lemma WrittenReason(steps: seq<Step>, early: bool, room: bool)
    ensures var w := Exec(steps);
            var (_, dump) := PollDump(w, early, room);
            dump.Wrote? ==>
              && !w.phase.NoError? && KnownReason(w, w.phase.error)
              && dump.frame == if early && w.phase.error.AppError? then CONCEALED else w.phase.error
  {
    ExecInv(steps);
  }
}
