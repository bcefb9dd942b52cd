/** When the closing and draining phases begin, and when a CLOSE frame has to go out. */
module CloseReplies {
  import opened Basics
  import opened TerminatorModel

  // ---------------------------------------------------------------- phases

  /** The first close decides: a peer's drains, any other closes with a reply due at once and one deadline started. */
  lemma CloseActs(w: World, reason: CloseReason, pto: nat)
    ensures var next := Close(w, reason, pto);
            if w.phase.NoError? then
              && next.deadlines == w.deadlines + 1
              && next.closed == w.closed + Calls(w.phase.components, reason.error)
              && (if reason.Peer? then next.phase == Draining(reason.error, false)
                  else
                    && next.phase.Closing? && next.phase.error == reason.error && next.phase.syncCcf && !next.phase.sentCcf
                    && next.phase.rcvdPackets == 0 && next.phase.lastSent == w.clock && next.phase.interval == pto)
            else next == w
  {
  }

  /** A CLOSE of the peer turns closing into draining, remembering whether one was sent. */
  lemma PeerCloseActs(w: World, error: Error)
    ensures var next := PeerClose(w, error);
            if w.phase.Closing? then next.phase == Draining(error, w.phase.sentCcf) else next == w
  {
  }

  /** Terminating and aborting always end it; the error known by then stays, otherwise the given one is told to all. */
  lemma FinishActs(w: World, error: Error)
    ensures var next := Finish(w, error);
            && next.phase == Terminated(if w.phase.NoError? then error else w.phase.error)
            && next.pending == w.pending + Calls(if w.phase.NoError? then w.phase.components else [], error)
            && next.closed == w.closed && next.deadlines == w.deadlines
  {
    assert w.pending + [] == w.pending;
  }

  /** Before the end a component is kept for later, afterwards it is told what is known. */
  lemma RegisterActs(w: World, c: nat)
    ensures var next := Register(w, c);
            if w.phase.NoError? then next.phase == NoError(w.phase.components + [c]) && next.pending == w.pending
            else next.phase == w.phase && next.pending == w.pending + [(c, w.phase.error)]
  {
  }

  /** Over every run there is exactly one deadline if the connection was ever closed, and none otherwise. */
  lemma {:induction false} OneDeadline(steps: seq<Step>)
    ensures Exec(steps).phase.NoError? ==> Exec(steps).deadlines == 0
    ensures Exec(steps).phase.Closing? || Exec(steps).phase.Draining? ==> Exec(steps).deadlines == 1
    decreases |steps|
  {
    if steps != [] {
      OneDeadline(steps[..|steps| - 1]);
      ExecInv(steps[..|steps| - 1]);
    }
  }

  // ---------------------------------------------------------------- replies

  predicate ReplyDue(w: World) { w.phase.Closing? && w.phase.syncCcf }

  /** A packet makes a reply due if and only if it is the fifth since the last, or an interval has passed since then. */
  lemma PacketMakesDueIff(w: World)
    requires w.phase.Closing? && !w.phase.syncCcf
    ensures OnRcvdPacket(w).phase.Closing?
    ensures ReplyDue(OnRcvdPacket(w)) <==>
            w.phase.rcvdPackets + 1 >= 5 || w.phase.interval == 0 || w.phase.lastSent + w.phase.interval <= w.clock
    ensures !ReplyDue(OnRcvdPacket(w)) ==> OnRcvdPacket(w).phase == w.phase.(rcvdPackets := w.phase.rcvdPackets + 1)
    ensures ReplyDue(OnRcvdPacket(w)) ==> OnRcvdPacket(w).phase == w.phase.(syncCcf := true, rcvdPackets := 0, lastSent := w.clock)
  {
  }

  /** A reply that is due stays due until it is written; packets that arrive meanwhile are counted, up to 255. */
  lemma DueStaysDue(w: World)
    requires ReplyDue(w) && w.phase.rcvdPackets <= 255
    ensures OnRcvdPacket(w).phase == w.phase.(rcvdPackets := Min(w.phase.rcvdPackets + 1, 255))
  {
  }

  /** A due reply is written as soon as it fits, and then no longer due; in draining one goes out if none did before. */
  lemma DumpActs(w: World, early: bool, room: bool)
    ensures var (next, dump) := PollDump(w, early, room);
            && (dump.Wrote? <==> room && (ReplyDue(w) || (w.phase.Draining? && !w.phase.sentCcf)))
            && (dump.Wrote? && w.phase.Draining? ==> next.phase == Draining(w.phase.error, true))
            && (dump.Wrote? && w.phase.Closing? ==>
                  next.phase == Closing(w.phase.error, false, true, w.phase.rcvdPackets, w.phase.lastSent, w.phase.interval))
            && (!dump.Wrote? ==> next == w)
            && (dump.Ended? <==> w.phase.Terminated?) && (dump.Ended? ==> dump.error == w.phase.error)
  {
  }

  // ---------------------------------------------------------------- the fifth packet, over every interleaving

  /** Steps that neither write nor leave the phase. */
  predicate Waits(step: Step) { step.PacketStep? || step.Elapse? || step.RegisterStep? || step.CloseStep? || step.Callback? }

  function From(w: World, steps: seq<Step>): World {
    if steps == [] then w else Next(From(w, steps[..|steps| - 1]), steps[|steps| - 1])
  }

  function Packets(steps: seq<Step>): nat {
    if steps == [] then 0 else Packets(steps[..|steps| - 1]) + if steps[|steps| - 1].PacketStep? then 1 else 0
  }

  lemma NextWaits(w: World, step: Step)
    requires w.phase.Closing? && Waits(step)
    ensures Next(w, step).phase.Closing? && (ReplyDue(w) ==> ReplyDue(Next(w, step)))
    ensures !step.PacketStep? ==> Next(w, step).phase == w.phase
    ensures step.PacketStep? ==> ReplyDue(Next(w, step)) || Next(w, step).phase.rcvdPackets == w.phase.rcvdPackets + 1 < 5
  {
  }

  lemma {:induction false} CountingUp(w: World, steps: seq<Step>)
    requires w.phase.Closing? && forall step <- steps :: Waits(step)
    ensures From(w, steps).phase.Closing?
    ensures ReplyDue(From(w, steps))
            || (From(w, steps).phase.rcvdPackets == w.phase.rcvdPackets + Packets(steps) && (Packets(steps) > 0 ==> From(w, steps).phase.rcvdPackets < 5))
    decreases |steps|
  {
    if steps != [] {
      CountingUp(w, steps[..|steps| - 1]);
      NextWaits(From(w, steps[..|steps| - 1]), steps[|steps| - 1]);
    }
  }

  /**
   From any closing state, whatever else happens: once five packets have arrived without a frame being
   written, a reply is due.
   */
  lemma FivePacketsMakeDue(w: World, steps: seq<Step>)
    requires w.phase.Closing? && Packets(steps) >= 5 && forall step <- steps :: Waits(step)
    ensures ReplyDue(From(w, steps))
  {
    CountingUp(w, steps);
  }
}
