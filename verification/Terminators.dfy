/** The terminator object: its phase is replaced in place, callbacks are made inside or outside the lock. */
module Terminators {
  import opened Basics
  import M = TerminatorModel

  /** Where components hear of the end. */
  class Callbacks {
    var made: seq<(nat, M.Error)>

    constructor ()
      ensures made == []
    {
      made := [];
    }

    method CloseWithError(component: nat, error: M.Error)
      modifies this
      ensures made == old(made) + [(component, error)]
    {
      made := made + [(component, error)];
    }

    method CloseAll(components: seq<nat>, error: M.Error)
      modifies this
      ensures made == old(made) + M.Calls(components, error)
    {
      for i := 0 to |components|
        invariant made == old(made) + M.Calls(components[..i], error)
      {
        CloseWithError(components[i], error);
        assert M.Calls(components[..i + 1], error) == M.Calls(components[..i], error) + [(components[i], error)];
      }
      assert components[..|components|] == components;
    }
  }

  class Terminator {
    const callbacks: Callbacks
    var phase: M.Phase
    var deadlines: nat
    ghost var world: M.World

    /** The history as the model tells it; calls not yet made belong to threads that left the lock. */
    ghost predicate Valid()
      reads this, callbacks
    {
      phase == world.phase && deadlines == world.deadlines && callbacks.made == world.closed
    }

    constructor (callbacks: Callbacks)
      requires callbacks.made == []
      ensures Valid() && world == M.Init() && this.callbacks == callbacks
    {
      this.callbacks := callbacks;
      phase, deadlines, world := M.NoError([]), 0, M.Init();
    }

    /** Returns the call the registering thread still has to make, if the end has already begun. */
    method Register(component: nat) returns (late: Option<M.Error>)
      requires Valid()
      modifies this
      ensures Valid() && world == M.Register(old(world), component)
      ensures late == if old(phase).NoError? then None else Some(old(phase).error)
    {
      world := M.Register(world, component);
      if phase.NoError? {
        phase := M.NoError(phase.components + [component]);
        return None;
      }
      late := Some(phase.error);
    }

    /** The thread makes the `i`-th outstanding call. */
    method MakeCall(component: nat, error: M.Error, ghost i: nat)
      requires Valid() && i < |world.pending| && world.pending[i] == (component, error)
      modifies this`world, callbacks
      ensures Valid() && world == M.Call(old(world), i) && callbacks.made == old(callbacks.made) + [(component, error)]
    {
      callbacks.CloseWithError(component, error);
      world := M.Call(world, i);
    }

    /** Returns whether this request started closing. */
    method Close(reason: M.CloseReason, pto: nat, now: nat) returns (started: bool)
      requires Valid() && now == world.clock
      modifies this, callbacks
      ensures Valid() && world == M.Close(old(world), reason, pto) && started == old(phase).NoError?
    {
      if !phase.NoError? { return false; }
      world := M.Close(world, reason, pto);
      callbacks.CloseAll(phase.components, reason.error);
      if reason.Peer? {
        phase := M.Draining(reason.error, false);
      } else {
        phase := M.Closing(reason.error, true, false, 0, now, pto);
      }
      deadlines := deadlines + 1;
      started := true;
    }

    method OnRcvdPacket(now: nat)
      requires Valid() && now == world.clock
      modifies this
      ensures Valid() && world == M.OnRcvdPacket(old(world))
    {
      world := M.OnRcvdPacket(world);
      if phase.Closing? {
        var count := if phase.rcvdPackets < 0xff then phase.rcvdPackets + 1 else phase.rcvdPackets;
        phase := phase.(rcvdPackets := count);
        var timeDue := (if phase.lastSent <= now then now - phase.lastSent else 0) >= phase.interval;
        if !phase.syncCcf && (count >= M.REPLY_PACKETS || timeDue) {
          phase := phase.(syncCcf := true, rcvdPackets := 0, lastSent := now);
        }
      }
    }

    /** Two locked steps; another thread may run between them. */
    method RecvConnCloseFrame(error: M.Error, pto: nat, now: nat)
      requires Valid() && now == world.clock
      modifies this, callbacks
      ensures Valid() && world == M.PeerClose(M.Close(old(world), M.Peer(error), pto), error)
    {
      var _ := Close(M.Peer(error), pto, now);
      EnterDraining(error);
    }

    method EnterDraining(error: M.Error)
      requires Valid()
      modifies this
      ensures Valid() && world == M.PeerClose(old(world), error)
    {
      world := M.PeerClose(world, error);
      if phase.Closing? { phase := M.Draining(error, phase.sentCcf); }
    }

    method PollDump(early: bool, room: bool) returns (dump: M.Dump)
      requires Valid()
      modifies this
      ensures Valid() && (world, dump) == M.PollDump(old(world), early, room)
    {
      world := M.PollDump(world, early, room).0;
      match phase {
        case NoError(_) => dump := M.Wait;
        case Closing(error, syncCcf, _, _, _, _) =>
          if !syncCcf { return M.Wait; }
          if !room { return M.NoRoom; }
          phase := M.Closing(error, false, true, phase.rcvdPackets, phase.lastSent, phase.interval);
          dump := M.Wrote(M.FrameFor(error, early));
        case Draining(error, sentCcf) =>
          if sentCcf { return M.Silent; }
          if !room { return M.NoRoom; }
          phase := M.Draining(error, true);
          dump := M.Wrote(M.FrameFor(error, early));
        case Terminated(error) => dump := M.Ended(error);
      }
    }

    /** Returns the components this thread has to tell, and what. */
    method Finish(error: M.Error) returns (told: seq<nat>, final: M.Error)
      requires Valid()
      modifies this
      ensures Valid() && world == M.Finish(old(world), error)
      ensures world.pending == old(world).pending + M.Calls(told, final) && final == phase.error && phase.Terminated?
      ensures told == if old(phase).NoError? then old(phase).components else []
      ensures final == if old(phase).NoError? then error else old(phase).error
    {
      world := M.Finish(world, error);
      told, final := [], error;
      match phase {
        case NoError(components) =>
          told := components;
          phase := M.Terminated(error);
        case Closing(e, _, _, _, _, _) =>
          final := e;
          phase := M.Terminated(e);
        case Draining(e, _) =>
          final := e;
          phase := M.Terminated(e);
        case Terminated(e) => final := e;
      }
    }

    /** The calls of this thread follow; those other threads still owe stay outstanding. */
    method Abort(error: M.Error)
      requires Valid()
      modifies this, callbacks
      ensures Valid() && phase.Terminated?
      ensures callbacks.made == old(callbacks.made) + if old(phase).NoError? then M.Calls(old(phase).components, error) else []
      ensures world == M.Abort(old(world), error).(pending := old(world).pending, closed := callbacks.made)
    {
      ghost var owed := world.pending;
      var told, final := Finish(error);
      for i := 0 to |told|
        invariant Valid() && phase == M.Terminated(final)
        invariant world == M.Abort(old(world), error).(pending := owed + M.Calls(told[i..], final), closed := callbacks.made)
        invariant callbacks.made == old(callbacks.made) + M.Calls(told[..i], final)
      {
        assert world.pending[|owed|] == (told[i], final);
        MakeCall(told[i], final, |owed|);
        assert world.pending == owed + M.Calls(told[i + 1..], final);
        assert M.Calls(told[..i + 1], final) == M.Calls(told[..i], final) + [(told[i], final)];
      }
      assert told[..|told|] == told && world.pending == owed;
    }

    method Terminate()
      requires Valid()
      modifies this, callbacks
      ensures Valid() && phase.Terminated?
      ensures callbacks.made
           == old(callbacks.made) + if old(phase).NoError? then M.Calls(old(phase).components, M.TERMINATED) else []
      ensures world == M.Terminate(old(world)).(pending := old(world).pending, closed := callbacks.made)
    {
      Abort(M.TERMINATED);
    }
  }
}
