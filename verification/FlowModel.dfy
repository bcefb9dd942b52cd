/**
 Connection flow control (section 4.1 of RFC 9000): a sender whose credit is held by any number of
 guards at once, a receiver that widens its limit, and the two facing each other over a network that
 delays, reorders, repeats and loses MAX_DATA.
 */
module FlowModel {
  import opened Basics

  // ---------------------------------------------------------------- the sender

  /** `credits` are the unspent amounts of the guards handed out, `blocked` the DATA_BLOCKED limits emitted. */
  datatype Sender = Sender(sent: nat, max: nat, limited: bool, blocked: seq<nat>, credits: seq<nat>, posted: nat)

  function NewSender(initial: nat): Sender { Sender(0, initial, false, [], [], 0) }

  function IncreaseLimit(s: Sender, max: nat): Sender { if max > s.max then s.(max := max, limited := false) else s }

  /** Claim credit at once; running dry is reported once per limit. */
  function Credit(s: Sender, quota: nat): Sender
    requires s.sent <= s.max
  {
    var amount := Min(s.max - s.sent, quota);
    var s1 := s.(sent := s.sent + amount, credits := s.credits + [amount]);
    if s1.sent == s1.max && !s.limited then s1.(limited := true, blocked := s.blocked + [s.max]) else s1
  }

  /** Data covered by guard `i` is sent. */
  function Post(s: Sender, i: nat, amount: nat): Sender
    requires i < |s.credits| && amount <= s.credits[i]
  {
    s.(credits := s.credits[i := s.credits[i] - amount], posted := s.posted + amount)
  }

  /** Guard `i` is dropped and gives its rest back. */
  function Release(s: Sender, i: nat): Sender
    requires i < |s.credits| && s.credits[i] <= s.sent
  {
    s.(credits := s.credits[i := 0], sent := s.sent - s.credits[i])
  }

  function Sum(xs: seq<nat>): nat { if xs == [] then 0 else Sum(xs[..|xs| - 1]) + xs[|xs| - 1] }

  predicate Increasing(xs: seq<nat>) { forall i, j :: 0 <= i < j < |xs| ==> xs[i] < xs[j] }

  /** Nothing is claimed beyond the limit, and what is claimed is posted or held by a guard. */
  predicate SenderInv(s: Sender) {
    && s.sent == s.posted + Sum(s.credits)
    && s.sent <= s.max
    && Increasing(s.blocked)
    && (forall i :: 0 <= i < |s.blocked| ==> if s.limited then s.blocked[i] <= s.max else s.blocked[i] < s.max)
  }

  lemma {:induction false} SumUpdate(xs: seq<nat>, i: nat, x: nat)
    requires i < |xs|
    ensures Sum(xs[i := x]) + xs[i] == Sum(xs) + x
    decreases |xs|
  {
    var n := |xs| - 1;
    if i < n {
      SumUpdate(xs[..n], i, x);
      assert xs[i := x][..n] == xs[..n][i := x];
    } else {
      assert xs[i := x][..n] == xs[..n];
    }
  }

  lemma {:induction false} SumAtLeast(xs: seq<nat>, i: nat)
    requires i < |xs|
    ensures xs[i] <= Sum(xs)
    decreases |xs|
  {
    if i < |xs| - 1 { SumAtLeast(xs[..|xs| - 1], i); }
  }

  /** The limit becomes the larger of the two, and only a larger one ends the blocked state. */
  lemma LimitRises(s: Sender, max: nat)
    ensures var next := IncreaseLimit(s, max);
            && next.max == Max(s.max, max)
            && next.limited == (s.limited && max <= s.max)
            && next.(max := s.max, limited := s.limited) == s
  {
  }

  /** A claim gets all it asked for, or everything there was; the other guards keep theirs. */
  lemma ClaimsAllItCan(s: Sender, quota: nat)
    requires s.sent <= s.max
    ensures var next, n := Credit(s, quota), |s.credits|;
            && |next.credits| == n + 1 && next.credits[..n] == s.credits && next.max == s.max && next.posted == s.posted
            && next.sent == s.sent + next.credits[n] <= next.max
            && next.credits[n] <= quota && (next.credits[n] == quota || next.sent == next.max)
  {
  }

  lemma CreditKeepsInv(s: Sender, quota: nat)
    requires SenderInv(s)
    ensures SenderInv(Credit(s, quota))
  {
    var amount := Min(s.max - s.sent, quota);
    assert (s.credits + [amount])[..|s.credits|] == s.credits;
  }

  lemma PostKeepsInv(s: Sender, i: nat, amount: nat)
    requires SenderInv(s) && i < |s.credits| && amount <= s.credits[i]
    ensures SenderInv(Post(s, i, amount))
  {
    SumUpdate(s.credits, i, s.credits[i] - amount);
  }

  lemma ReleaseKeepsInv(s: Sender, i: nat)
    requires SenderInv(s) && i < |s.credits|
    ensures s.credits[i] <= s.sent && SenderInv(Release(s, i))
  {
    SumAtLeast(s.credits, i);
    SumUpdate(s.credits, i, 0);
  }

  /** The limit of the new connection replaces a remembered one; rejected 0-RTT starts over from zero. */
  function Revise(s: Sender, rejected: bool, max: nat): Sender {
    IncreaseLimit(if rejected then s.(max := 0, limited := false) else s, max)
  }

  /** Revising keeps the claimed data within the limit unless 0-RTT was rejected and more than the new limit is claimed. */
  lemma ReviseSafeIff(s: Sender, rejected: bool, max: nat)
    requires SenderInv(s)
    ensures Revise(s, rejected, max).sent <= Revise(s, rejected, max).max <==> !rejected || s.sent <= max
  {
  }

  /** One byte sent in rejected 0-RTT is enough. */
  lemma RejectedEarlyDataOverdraws()
    ensures var s := Sender(1, 1, true, [1], [0], 1);
            && Credit(NewSender(1), 1) == s.(credits := [1], posted := 0)
            && SenderInv(s) && Revise(s, true, 0).sent > Revise(s, true, 0).max
  {
    assert [0][..0] == [];
  }

  // ---------------------------------------------------------------- the receiver

  /** `frames` are the MAX_DATA limits emitted. */
  datatype Receiver = Receiver(rcvd: nat, max: nat, step: nat, frames: seq<nat>)

  function NewReceiver(initial: nat): Receiver { Receiver(0, initial, initial / 2, []) }

  /** New data counts even if it is then refused as a flow control violation. */
  function OnNewRcvd(r: Receiver, amount: nat): Result<Receiver, Receiver> {
    var r1 := r.(rcvd := r.rcvd + amount);
    if r1.rcvd > r1.max then Err(r1)
    else if r1.rcvd + r1.step >= r1.max then Ok(r1.(max := r1.max + r1.step, frames := r1.frames + [r1.max + r1.step]))
    else Ok(r1)
  }

  /**
   Data beyond the limit is an error and nothing else is; it counts in any case. The limit is raised by
   one step, and announced, exactly when the data comes within one step of it.
   */
  lemma ReceiptIs(r: Receiver, amount: nat)
    ensures OnNewRcvd(r, amount).Err? <==> r.rcvd + amount > r.max
    ensures OnNewRcvd(r, amount).Err? ==> OnNewRcvd(r, amount).error == r.(rcvd := r.rcvd + amount)
    ensures OnNewRcvd(r, amount).Ok? ==>
              var next := OnNewRcvd(r, amount).value;
              && next.rcvd == r.rcvd + amount && next.step == r.step
              && (if r.max - next.rcvd <= r.step then next.max == r.max + r.step && next.frames == r.frames + [next.max]
                  else next.max == r.max && next.frames == r.frames)
  {
  }

  /** The window never exceeds the initial one, so neither does the limit by more than what arrived. */
  predicate ReceiverInv(r: Receiver, initial: nat) {
    && r.step == initial / 2
    && r.rcvd <= r.max <= r.rcvd + initial
    && (r.rcvd == 0 || r.max - r.rcvd >= r.step)
    && r.max == (if r.frames == [] then initial else r.frames[|r.frames| - 1])
    && (forall k :: 0 <= k < |r.frames| ==> r.frames[k] <= r.max)
  }

  /** After every accepted receipt the window lies between the step and the initial limit. */
  lemma WindowStaysOpen(r: Receiver, initial: nat, amount: nat)
    requires ReceiverInv(r, initial) && OnNewRcvd(r, amount).Ok?
    ensures var next := OnNewRcvd(r, amount).value;
            ReceiverInv(next, initial) && next.step <= next.max - next.rcvd <= initial
  {
    assert initial / 2 * 2 <= initial;
  }

  // ---------------------------------------------------------------- both together

  datatype System = System(initial: nat, s: Sender, r: Receiver)

  datatype Step =
    | TakeCredit(quota: nat)
    | PostData(guard: nat, amount: nat)
    | DropCredit(guard: nat)
    | DeliverData(amount: nat)
    | DeliverMax(k: nat)

  function Start(initial: nat): System { System(initial, NewSender(initial), NewReceiver(initial)) }

  /** What the parties and the network can do: data arrives once, MAX_DATA in any order and any number of times. */
  predicate Enabled(sys: System, step: Step) {
    match step
    case TakeCredit(_) => sys.s.sent <= sys.s.max
    case PostData(i, amount) => i < |sys.s.credits| && amount <= sys.s.credits[i]
    case DropCredit(i) => i < |sys.s.credits| && sys.s.credits[i] <= sys.s.sent
    case DeliverData(amount) => sys.r.rcvd + amount <= sys.s.posted
    case DeliverMax(k) => k < |sys.r.frames|
  }

  predicate Violation(sys: System, step: Step) { step.DeliverData? && OnNewRcvd(sys.r, step.amount).Err? }

  function Next(sys: System, step: Step): System
    requires Enabled(sys, step)
  {
    match step
    case TakeCredit(quota) => sys.(s := Credit(sys.s, quota))
    case PostData(i, amount) => sys.(s := Post(sys.s, i, amount))
    case DropCredit(i) => sys.(s := Release(sys.s, i))
    case DeliverData(amount) =>
      var r := OnNewRcvd(sys.r, amount);
      sys.(r := if r.Ok? then r.value else r.error)
    case DeliverMax(k) => sys.(s := IncreaseLimit(sys.s, sys.r.frames[k]))
  }

  predicate Inv(sys: System) {
    SenderInv(sys.s) && ReceiverInv(sys.r, sys.initial) && sys.s.max <= sys.r.max && sys.r.rcvd <= sys.s.posted
  }

  lemma NextKeepsInv(sys: System, step: Step)
    requires Inv(sys) && Enabled(sys, step)
    ensures !Violation(sys, step) && Inv(Next(sys, step)) && Next(sys, step).initial == sys.initial
  {
    match step
    case TakeCredit(quota) => CreditKeepsInv(sys.s, quota);
    case PostData(i, amount) => PostKeepsInv(sys.s, i, amount);
    case DropCredit(i) => ReleaseKeepsInv(sys.s, i);
    case DeliverData(amount) => WindowStaysOpen(sys.r, sys.initial, amount);
    case DeliverMax(k) =>
  }

  ghost predicate IsRun(run: seq<System>, steps: seq<Step>, initial: nat) {
    && |run| == |steps| + 1 && run[0] == Start(initial)
    && forall i :: 0 <= i < |steps| ==> Enabled(run[i], steps[i]) && run[i + 1] == Next(run[i], steps[i])
  }

  lemma {:induction false} RunKeepsInv(run: seq<System>, steps: seq<Step>, initial: nat, n: nat)
    requires IsRun(run, steps, initial) && n <= |steps|
    ensures Inv(run[n]) && run[n].initial == initial
    decreases n
  {
    if n > 0 {
      RunKeepsInv(run, steps, initial, n - 1);
      assert run[n - 1 + 1] == Next(run[n - 1], steps[n - 1]);
      NextKeepsInv(run[n - 1], steps[n - 1]);
    }
  }

  /** No run ever makes the receiver report a flow control error, and no guard can be dropped short. */
  lemma NeverViolated(run: seq<System>, steps: seq<Step>, initial: nat, n: nat, step: Step)
    requires IsRun(run, steps, initial) && n <= |steps| && Enabled(run[n], step)
    ensures !Violation(run[n], step)
    ensures forall i :: 0 <= i < |run[n].s.credits| ==> Enabled(run[n], DropCredit(i))
  {
    RunKeepsInv(run, steps, initial, n);
    NextKeepsInv(run[n], step);
    forall i | 0 <= i < |run[n].s.credits| ensures run[n].s.credits[i] <= run[n].s.sent {
      SumAtLeast(run[n].s.credits, i);
    }
  }

  /** Credit is conserved under any number of live guards, and DATA_BLOCKED limits strictly increase. */
  lemma CreditConserved(run: seq<System>, steps: seq<Step>, initial: nat, n: nat)
    requires IsRun(run, steps, initial) && n <= |steps|
    ensures var s := run[n].s;
            s.sent == s.posted + Sum(s.credits) && s.sent <= s.max <= run[n].r.max && Increasing(s.blocked)
  {
    RunKeepsInv(run, steps, initial, n);
  }

  /** The blocked state means that the current limit has been reported. */
  lemma {:induction false} BlockedIsReported(run: seq<System>, steps: seq<Step>, initial: nat, n: nat)
    requires IsRun(run, steps, initial) && n <= |steps|
    ensures run[n].s.limited ==> run[n].s.max in run[n].s.blocked
    decreases n
  {
    if n > 0 {
      BlockedIsReported(run, steps, initial, n - 1);
      assert run[n - 1 + 1] == Next(run[n - 1], steps[n - 1]);
    }
  }

  /** A claim that uses up the limit has reported it, then or before. */
  lemma RunningDryIsReported(run: seq<System>, steps: seq<Step>, initial: nat, n: nat)
    requires IsRun(run, steps, initial) && n < |steps| && steps[n].TakeCredit?
    ensures run[n + 1].s.sent == run[n + 1].s.max ==> run[n + 1].s.limited && run[n + 1].s.max in run[n + 1].s.blocked
  {
    BlockedIsReported(run, steps, initial, n + 1);
    assert run[n + 1] == Next(run[n], steps[n]);
  }

  /** Limits stay encodable as long as the data and one window fit a variable-length integer. */
  lemma LimitsEncodable(run: seq<System>, steps: seq<Step>, initial: nat, n: nat)
    requires IsRun(run, steps, initial) && n <= |steps| && run[n].r.rcvd + initial <= VARINT_MAX
    ensures run[n].r.max <= VARINT_MAX && forall k :: 0 <= k < |run[n].s.blocked| ==> run[n].s.blocked[k] <= VARINT_MAX
  {
    RunKeepsInv(run, steps, initial, n);
  }

  // ---------------------------------------------------------------- progress

  /** The network delivered the `k`-th MAX_DATA at least once; it cannot before the frame was emitted. */
  ghost predicate Delivered(steps: seq<Step>, k: nat) { exists m :: 0 <= m < |steps| && steps[m] == DeliverMax(k) }

  /** Everything posted has arrived, no guard holds credit, and the newest MAX_DATA has been delivered. */
  ghost predicate Quiescent(end: System, steps: seq<Step>) {
    && end.r.rcvd == end.s.posted && Sum(end.s.credits) == 0
    && (end.r.frames != [] ==> Delivered(steps, |end.r.frames| - 1))
  }

  /** Limits only grow at the sender, and what the receiver emitted stays emitted. */
  lemma {:induction false} LimitsGrow(run: seq<System>, steps: seq<Step>, initial: nat, m: nat, n: nat)
    requires IsRun(run, steps, initial) && m <= n <= |steps|
    ensures run[m].s.max <= run[n].s.max && run[m].r.frames <= run[n].r.frames
    decreases n
  {
    if m < n {
      LimitsGrow(run, steps, initial, m, n - 1);
      assert run[n - 1 + 1] == Next(run[n - 1], steps[n - 1]);
    }
  }

  /** A delivered MAX_DATA is in force from then on. */
  lemma DeliveredIsInForce(run: seq<System>, steps: seq<Step>, initial: nat, k: nat)
    requires IsRun(run, steps, initial) && Delivered(steps, k)
    ensures var end := run[|steps|];
            k < |end.r.frames| && end.r.frames[k] <= end.s.max
  {
    var m :| 0 <= m < |steps| && steps[m] == DeliverMax(k);
    assert Enabled(run[m], steps[m]) && run[m + 1] == Next(run[m], steps[m]);
    LimitsGrow(run, steps, initial, m, |steps|);
    LimitsGrow(run, steps, initial, m + 1, |steps|);
  }

  lemma CreditReturns(run: seq<System>, steps: seq<Step>, initial: nat)
    requires IsRun(run, steps, initial) && Quiescent(run[|steps|], steps) && initial >= 2
    ensures run[|steps|].s.sent < run[|steps|].s.max
  {
    var end := run[|steps|];
    RunKeepsInv(run, steps, initial, |steps|);
    SenderLimitAtLeastInitial(run, steps, initial, |steps|);
    if end.r.frames != [] { DeliveredIsInForce(run, steps, initial, |end.r.frames| - 1); }
  }

  // Every run can be brought to quiescence: guards dropped, data delivered, the newest limit delivered.

  lemma Push(run: seq<System>, steps: seq<Step>, initial: nat, step: Step)
    requires IsRun(run, steps, initial) && Enabled(run[|steps|], step)
    ensures IsRun(run + [Next(run[|steps|], step)], steps + [step], initial)
  {
    var longer, all := run + [Next(run[|steps|], step)], steps + [step];
    forall i | 0 <= i < |all| ensures Enabled(longer[i], all[i]) && longer[i + 1] == Next(longer[i], all[i]) {
      if i < |steps| { assert all[i] == steps[i] && longer[i] == run[i] && longer[i + 1] == run[i + 1]; }
    }
  }

  lemma {:induction false} SumOfNothing(xs: seq<nat>)
    requires forall i :: 0 <= i < |xs| ==> xs[i] == 0
    ensures Sum(xs) == 0
    decreases |xs|
  {
    if xs != [] { SumOfNothing(xs[..|xs| - 1]); }
  }

  lemma {:induction false} DropGuards(run: seq<System>, steps: seq<Step>, initial: nat, i: nat)
    returns (longer: seq<System>, all: seq<Step>)
    requires IsRun(run, steps, initial) && i <= |run[|steps|].s.credits|
    requires forall j :: 0 <= j < i ==> run[|steps|].s.credits[j] == 0
    ensures IsRun(longer, all, initial) && steps <= all
    ensures Sum(longer[|all|].s.credits) == 0
    decreases |run[|steps|].s.credits| - i
  {
    var end := run[|steps|];
    if i == |end.s.credits| {
      SumOfNothing(end.s.credits);
      return run, steps;
    }
    RunKeepsInv(run, steps, initial, |steps|);
    SumAtLeast(end.s.credits, i);
    Push(run, steps, initial, DropCredit(i));
    longer, all := DropGuards(run + [Next(end, DropCredit(i))], steps + [DropCredit(i)], initial, i + 1);
  }

  lemma DeliverRest(run: seq<System>, steps: seq<Step>, initial: nat) returns (longer: seq<System>, all: seq<Step>)
    requires IsRun(run, steps, initial) && Sum(run[|steps|].s.credits) == 0
    ensures IsRun(longer, all, initial) && steps <= all && Quiescent(longer[|all|], all)
  {
    RunKeepsInv(run, steps, initial, |steps|);
    var step := DeliverData(run[|steps|].s.posted - run[|steps|].r.rcvd);
    Push(run, steps, initial, step);
    longer, all := run + [Next(run[|steps|], step)], steps + [step];
    RunKeepsInv(longer, all, initial, |all|);
    var end := longer[|all|];
    assert end.r.rcvd == end.s.posted by {
      NextKeepsInv(run[|steps|], step);
      ReceiptIs(run[|steps|].r, step.amount);
    }
    if end.r.frames != [] {
      var last := DeliverMax(|end.r.frames| - 1);
      Push(longer, all, initial, last);
      longer, all := longer + [Next(end, last)], all + [last];
      assert all[|all| - 1] == last;
    }
  }

  /** So with an initial limit of at least two, credit can always be had again, whatever happened before. */
  lemma CreditCanReturn(run: seq<System>, steps: seq<Step>, initial: nat) returns (longer: seq<System>, all: seq<Step>)
    requires IsRun(run, steps, initial) && initial >= 2
    ensures IsRun(longer, all, initial) && steps <= all && Quiescent(longer[|all|], all)
    ensures longer[|all|].s.sent < longer[|all|].s.max
  {
    longer, all := DropGuards(run, steps, initial, 0);
    longer, all := DeliverRest(longer, all, initial);
    CreditReturns(longer, all, initial);
  }

  lemma {:induction false} SenderLimitAtLeastInitial(run: seq<System>, steps: seq<Step>, initial: nat, n: nat)
    requires IsRun(run, steps, initial) && n <= |steps|
    ensures run[n].s.max >= initial
    decreases n
  {
    if n > 0 {
      SenderLimitAtLeastInitial(run, steps, initial, n - 1);
      assert run[n - 1 + 1] == Next(run[n - 1], steps[n - 1]);
    }
  }

  /** The run in which the whole initial window is claimed, sent and received, and the answer delivered. */
  function FillRun(initial: nat): seq<Step> { [TakeCredit(initial), PostData(0, initial), DeliverData(initial), DeliverMax(0)] }

  function FillStates(initial: nat): seq<System> {
    var c := Sender(initial, initial, true, [initial], [initial], 0);
    var p := Sender(initial, initial, true, [initial], [0], initial);
    var r := Receiver(initial, initial + initial / 2, initial / 2, [initial + initial / 2]);
    [Start(initial), System(initial, c, NewReceiver(initial)), System(initial, p, NewReceiver(initial)), System(initial, p, r),
     System(initial, IncreaseLimit(p, initial + initial / 2), r)]
  }

  lemma FillIsRun(initial: nat)
    ensures IsRun(FillStates(initial), FillRun(initial), initial)
  {
    assert [initial - initial] == [0];
  }

  /** With an initial limit below two, the limit never grows. */
  lemma {:induction false} SmallLimitNeverGrows(run: seq<System>, steps: seq<Step>, initial: nat, n: nat)
    requires IsRun(run, steps, initial) && n <= |steps| && initial < 2
    ensures run[n].r.max == initial && run[n].s.max == initial
    decreases n
  {
    RunKeepsInv(run, steps, initial, n);
    SenderLimitAtLeastInitial(run, steps, initial, n);
    if n > 0 {
      SmallLimitNeverGrows(run, steps, initial, n - 1);
      RunKeepsInv(run, steps, initial, n - 1);
      assert run[n - 1 + 1] == Next(run[n - 1], steps[n - 1]);
    }
  }

  lemma {:induction false} PostedNeverShrinks(run: seq<System>, steps: seq<Step>, initial: nat, m: nat, n: nat)
    requires IsRun(run, steps, initial) && m <= n <= |steps|
    ensures run[m].s.posted <= run[n].s.posted
    decreases n
  {
    if m < n {
      PostedNeverShrinks(run, steps, initial, m, n - 1);
      assert run[n - 1 + 1] == Next(run[n - 1], steps[n - 1]);
    }
  }

  /** So once that much has been sent, there is never credit again, however the run goes on. */
  lemma SmallLimitNeverRecovers(run: seq<System>, steps: seq<Step>, initial: nat, m: nat, n: nat)
    requires IsRun(run, steps, initial) && m <= n <= |steps| && initial < 2
    requires run[m].s.posted == initial
    ensures run[n].s.sent == run[n].s.max == initial
  {
    SmallLimitNeverGrows(run, steps, initial, n);
    PostedNeverShrinks(run, steps, initial, m, n);
    RunKeepsInv(run, steps, initial, n);
  }

  /** Such a run exists: the whole limit is claimed, sent and received, and no credit is left at quiescence. */
  lemma SmallLimitStalls(initial: nat)
    requires initial < 2
    ensures var sys := FillStates(initial)[4];
            && IsRun(FillStates(initial), FillRun(initial), initial)
            && Quiescent(sys, FillRun(initial)) && sys.s.sent == sys.s.max && sys.s.posted == initial
  {
    FillIsRun(initial);
    assert Sum([0]) == Sum([0][..0]) + 0;
    assert FillRun(initial)[3] == DeliverMax(0);
  }

  /** Exactly the initial limits of at least two guarantee credit at quiescence, over all runs. */
  ghost predicate AlwaysRecovers(initial: nat) {
    forall run: seq<System>, steps: seq<Step> :: IsRun(run, steps, initial) && Quiescent(run[|steps|], steps) ==> run[|steps|].s.sent < run[|steps|].s.max
  }

  lemma RecoversIff(initial: nat)
    ensures AlwaysRecovers(initial) <==> initial >= 2
  {
    if initial >= 2 {
      forall run: seq<System>, steps: seq<Step> | IsRun(run, steps, initial) && Quiescent(run[|steps|], steps) ensures run[|steps|].s.sent < run[|steps|].s.max {
        CreditReturns(run, steps, initial);
      }
    } else {
      SmallLimitStalls(initial);
      var run, steps := FillStates(initial), FillRun(initial);
      assert IsRun(run, steps, initial) && Quiescent(run[|steps|], steps) && !(run[|steps|].s.sent < run[|steps|].s.max);
    }
  }
}
