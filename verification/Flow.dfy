/** The flow controllers as objects: the sender's counters are shared by all live credit guards. */
module Flow {
  import opened Basics
  import M = FlowModel

  class SendController {
    var sentData: nat
    var maxData: nat
    var flowLimited: bool
    var blocked: seq<nat>
    ghost var state: M.Sender

    ghost predicate Valid()
      reads this
    {
      && M.SenderInv(state)
      && sentData == state.sent && maxData == state.max && flowLimited == state.limited && blocked == state.blocked
    }

    constructor (initialMaxData: nat)
      ensures Valid() && state == M.NewSender(initialMaxData)
    {
      sentData, maxData, flowLimited, blocked, state := 0, initialMaxData, false, [], M.NewSender(initialMaxData);
    }

    method IncreaseLimit(max: nat)
      requires Valid()
      modifies this
      ensures Valid() && state == M.IncreaseLimit(old(state), max)
    {
      if max > maxData {
        maxData, flowLimited := max, false;
      }
      state := M.IncreaseLimit(state, max);
    }

    /** The subtraction is the one that must not underflow. */
    function Available(): (n: nat)
      requires Valid()
      reads this
      ensures sentData + n == maxData
    {
      maxData - sentData
    }

    method TakeCredit(quota: nat) returns (credit: CreditGuard)
      requires Valid()
      modifies this
      ensures Valid() && state == M.Credit(old(state), quota)
      ensures credit.Valid() && credit.controller == this && credit.id == |old(state).credits| && fresh(credit)
      ensures credit.available == Min(old(maxData) - old(sentData), quota)
    {
      var amount := Min(Available(), quota);
      Commit(amount, quota);
      credit := new CreditGuard(this, amount, |old(state).credits|);
    }

    method Commit(flow: nat, ghost quota: nat)
      requires Valid() && flow == Min(Available(), quota)
      modifies this
      ensures Valid() && state == M.Credit(old(state), quota)
    {
      M.CreditKeepsInv(state, quota);
      state := M.Credit(state, quota);
      sentData := sentData + flow;
      if sentData == maxData && !flowLimited {
        flowLimited := true;
        blocked := blocked + [maxData];
      }
    }

    method ReturnBack(flow: nat, ghost id: nat)
      requires Valid() && id < |state.credits| && state.credits[id] == flow
      modifies this
      ensures Valid() && old(state).credits[id] <= old(state).sent && state == M.Release(old(state), id)
    {
      M.ReleaseKeepsInv(state, id);
      state := M.Release(state, id);
      sentData := sentData - flow;
    }
  }

  class CreditGuard {
    const controller: SendController
    ghost const id: nat
    var available: nat

    ghost predicate Valid()
      reads this, controller
    {
      controller.Valid() && id < |controller.state.credits| && controller.state.credits[id] == available
    }

    constructor (controller: SendController, available: nat, ghost id: nat)
      ensures this.controller == controller && this.available == available && this.id == id
    {
      this.controller := controller;
      this.available := available;
      this.id := id;
    }

    method PostSent(amount: nat)
      requires Valid() && amount <= available
      modifies this, controller`state
      ensures Valid() && controller.state == M.Post(old(controller.state), id, amount)
    {
      M.PostKeepsInv(controller.state, id, amount);
      controller.state := M.Post(controller.state, id, amount);
      available := available - amount;
    }

    /** Unspent credit goes back. */
    method Drop()
      requires Valid()
      modifies this, controller
      ensures Valid() && available == 0
      ensures old(controller.state).credits[id] <= old(controller.state).sent
      ensures controller.state == M.Release(old(controller.state), id)
    {
      if available == 0 {
        M.ReleaseKeepsInv(controller.state, id);
        assert controller.state.credits == controller.state.credits[id := 0];
        return;
      }
      controller.ReturnBack(available, id);
      available := 0;
    }
  }

  class RecvController {
    var rcvdData: nat
    var maxData: nat
    const step: nat
    var frames: seq<nat>

    ghost function View(): M.Receiver
      reads this
    {
      M.Receiver(rcvdData, maxData, step, frames)
    }

    constructor (initialMaxData: nat)
      ensures View() == M.NewReceiver(initialMaxData)
    {
      rcvdData, maxData, step, frames := 0, initialMaxData, initialMaxData / 2, [];
    }

    method OnNewRcvd(amount: nat) returns (r: Result<nat, nat>)
      modifies this
      ensures match M.OnNewRcvd(old(View()), amount)
              case Ok(next) => r == Ok(amount) && View() == next
              case Err(next) => r == Err(rcvdData - maxData) && View() == next
    {
      rcvdData := rcvdData + amount;
      if rcvdData > maxData { return Err(rcvdData - maxData); }
      if rcvdData + step >= maxData {
        maxData := maxData + step;
        frames := frames + [maxData];
      }
      r := Ok(amount);
    }
  }
}
