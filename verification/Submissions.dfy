/** Accounting a submitted datagram: up to one packet per epoch, the path's overhead charged to one of them. */
module Submissions {
  import opened Basics
  import opened CongestionModel
  import opened CongestionRuns
  import opened RecoveryModel
  import P = PacketContents
  import Congestion

  /** A sealed packet with the frames written into it. */
  datatype Sealed = Sealed(pn: nat, length: nat, frames: seq<P.Frame>)

  type Datagram = PerEpoch<Option<Sealed>>

  predicate InFlightAt(d: Datagram, e: Epoch) { d.Get(e).Some? && P.CountsInFlight(d.Get(e).value.frames) }

  /** The packet that bears the overhead: the first in flight, else the first. */
  function Charged(d: Datagram): Option<Epoch> {
    if InFlightAt(d, Initial) then Some(Initial)
    else if InFlightAt(d, Handshake) then Some(Handshake)
    else if InFlightAt(d, Data) then Some(Data)
    else if d.initial.Some? then Some(Initial)
    else if d.handshake.Some? then Some(Handshake)
    else if d.data.Some? then Some(Data)
    else None
  }

  function Order(e: Epoch): nat { match e case Initial => 0 case Handshake => 1 case Data => 2 }

  /** Some packet is charged unless there is none: in flight if any is, and then the first such. */
  lemma ChargedIs(d: Datagram, e: Epoch)
    ensures Charged(d).None? ==> d.Get(e).None?
    ensures Charged(d).Some? ==>
              var c := Charged(d).value;
              && d.Get(c).Some? && (InFlightAt(d, e) ==> InFlightAt(d, c))
              && (InFlightAt(d, c) && InFlightAt(d, e) ==> Order(c) <= Order(e))
              && (!InFlightAt(d, c) && d.Get(e).Some? ==> Order(c) <= Order(e))
  {
  }

  function BytesAt(d: Datagram, e: Epoch, overhead: nat): nat {
    match d.Get(e)
    case None => 0
    case Some(p) => p.length + if Charged(d) == Some(e) then overhead else 0
  }

  function SubmitAt(c: Controller, d: Datagram, e: Epoch, overhead: nat, env: Env): (next: Controller)
    requires Sound(c)
    ensures Sound(next)
  {
    match d.Get(e)
    case None => c
    case Some(p) =>
      SubmitSound(c, e, p.pn, p.frames, BytesAt(d, e, overhead), env);
      Submit(c, e, p.pn, p.frames, BytesAt(d, e, overhead), env)
  }

  function OnSent(c: Controller, d: Datagram, overhead: nat, envs: PerEpoch<Env>): (next: Controller)
    requires Sound(c)
    ensures Sound(next)
  {
    var c1 := SubmitAt(c, d, Initial, overhead, envs.initial);
    var c2 := SubmitAt(c1, d, Handshake, overhead, envs.handshake);
    SubmitAt(c2, d, Data, overhead, envs.data)
  }

  /** Whether an epoch's packet is added to what is in flight; nothing is once the epoch is discarded. */
  predicate Counted(c: Controller, d: Datagram, e: Epoch) { InFlightAt(d, e) && !c.discarded.Get(e) }

  function Flown(c: Controller, d: Datagram, e: Epoch): nat { if Counted(c, d, e) then d.Get(e).value.length else 0 }

  lemma SubmitAtAdds(c: Controller, d: Datagram, e: Epoch, overhead: nat, env: Env)
    requires Sound(c)
    ensures SubmitAt(c, d, e, overhead, env).discarded == c.discarded
    ensures SubmitAt(c, d, e, overhead, env).account.bytesInFlight
         == c.account.bytesInFlight + Flown(c, d, e) + if Counted(c, d, e) && Charged(d) == Some(e) then overhead else 0
  {
  }

  /**
   A datagram adds the lengths of its packets that count as in flight and whose epoch is not discarded,
   and the overhead once, exactly when the charged packet is one of them.
   */
  lemma OverheadCountsOnce(c: Controller, d: Datagram, overhead: nat, envs: PerEpoch<Env>)
    requires Sound(c)
    ensures OnSent(c, d, overhead, envs).account.bytesInFlight
         == c.account.bytesInFlight + Flown(c, d, Initial) + Flown(c, d, Handshake) + Flown(c, d, Data)
            + if Charged(d).Some? && Counted(c, d, Charged(d).value) then overhead else 0
  {
    SubmitAtAdds(c, d, Initial, overhead, envs.initial);
    var c1 := SubmitAt(c, d, Initial, overhead, envs.initial);
    SubmitAtAdds(c1, d, Handshake, overhead, envs.handshake);
    var c2 := SubmitAt(c1, d, Handshake, overhead, envs.handshake);
    SubmitAtAdds(c2, d, Data, overhead, envs.data);
  }

  // ---------------------------------------------------------------- what is recorded of a packet

  predicate AnyElicits(frames: seq<P.Frame>) { exists i :: 0 <= i < |frames| && P.Elicits(frames[i]) }

  predicate AnyControlled(frames: seq<P.Frame>) { exists i :: 0 <= i < |frames| && P.Controlled(frames[i]) }

  lemma {:induction false} ElicitingIffAny(frames: seq<P.Frame>)
    ensures P.IsAckEliciting(P.ContentOf(frames)) <==> AnyElicits(frames)
    decreases |frames|
  {
    if frames != [] {
      var n := |frames| - 1;
      ElicitingIffAny(frames[..n]);
      assert AnyElicits(frames) <==> AnyElicits(frames[..n]) || P.Elicits(frames[n]) by {
        assert forall i :: 0 <= i < n ==> frames[..n][i] == frames[i];
      }
    }
  }

  /** A packet is recorded if any of its frames matters, as ack-eliciting and as counted if some frame is. */
  lemma SubmittedRecord(c: Controller, e: Epoch, pn: nat, frames: seq<P.Frame>, bytes: nat, env: Env)
    requires Sound(c) && !c.discarded.Get(e)
    ensures Sent(Submit(c, e, pn, frames, bytes, env), e)
         == Sent(c, e) + if AnyElicits(frames) || AnyControlled(frames)
                         then [SentPacket(pn, env.now, AnyElicits(frames), AnyControlled(frames), bytes, Inflight)] else []
  {
    ElicitingIffAny(frames);
    assert P.CountsInFlight(frames) <==> AnyControlled(frames);
  }

  // ---------------------------------------------------------------- the submission itself

  /** The recorded metadata of a sealed packet, handed over by value. */
  datatype Packet = Packet(pn: nat, length: nat, content: P.Content, inFlight: bool)

  /** What was recorded is what the frames amount to: the part of `P.Metadata.Valid` that is handed over. */
  predicate Describes(o: Option<Packet>, sealed: Option<Sealed>) {
    match (o, sealed)
    case (None, None) => true
    case (Some(p), Some(s)) =>
      p.pn == s.pn && p.length == s.length && P.Classifies(p.content, p.inFlight, s.frames)
    case _ => false
  }

  predicate DescribesAll(packets: PerEpoch<Option<Packet>>, d: Datagram) {
    Describes(packets.initial, d.initial) && Describes(packets.handshake, d.handshake) && Describes(packets.data, d.data)
  }

  function EpochAt(i: nat): Epoch { if i == 0 then Initial else if i == 1 then Handshake else Data }

  /** The two searches for the packet to charge. */
  method FindCharged(packets: PerEpoch<Option<Packet>>, ghost d: Datagram) returns (charged: Option<Epoch>)
    requires DescribesAll(packets, d)
    ensures charged == Charged(d)
  {
    for i := 0 to 3
      invariant i > 0 ==> !InFlightAt(d, Initial)
      invariant i > 1 ==> !InFlightAt(d, Handshake)
      invariant i > 2 ==> !InFlightAt(d, Data)
    {
      var p := packets.Get(EpochAt(i));
      if p.Some? && p.value.inFlight { return Some(EpochAt(i)); }
    }
    for i := 0 to 3
      invariant i > 0 ==> packets.initial.None?
      invariant i > 1 ==> packets.handshake.None?
      invariant i > 2 ==> packets.data.None?
    {
      if packets.Get(EpochAt(i)).Some? { return Some(EpochAt(i)); }
    }
    charged := None;
  }

  lemma SubmitsAsRecorded(c: Controller, p: Packet, d: Datagram, e: Epoch, overhead: nat, env: Env)
    requires Sound(c) && Describes(Some(p), d.Get(e))
    ensures SubmitAt(c, d, e, overhead, env)
         == OnPacketSent(c, e, p.pn, P.IsAckEliciting(p.content), p.inFlight, BytesAt(d, e, overhead), env)
  {
  }

  /** Report one epoch's packet, if there is one. */
  method Report(cc: Congestion.CongestionController, o: Option<Packet>, ghost d: Datagram, e: Epoch, charged: Option<Epoch>,
                overhead: nat, env: Env)
    requires cc.Valid() && Sound(cc.View()) && Describes(o, d.Get(e)) && charged == Charged(d)
    modifies cc.Repr
    ensures cc.View() == SubmitAt(old(cc.View()), d, e, overhead, env)
  {
    if o.None? { return; }
    var p := o.value;
    var bytes := p.length + if charged == Some(e) then overhead else 0;
    SubmitsAsRecorded(cc.View(), p, d, e, overhead, env);
    cc.OnPacketSent(p.pn, e, P.IsAckEliciting(p.content), p.inFlight, bytes, env);
  }

  method OnDatagramSent(cc: Congestion.CongestionController, packets: PerEpoch<Option<Packet>>, ghost d: Datagram,
                        overhead: nat, envs: PerEpoch<Env>)
    requires cc.Valid() && Sound(cc.View()) && DescribesAll(packets, d)
    modifies cc.Repr
    ensures Sound(cc.View()) && cc.View() == OnSent(old(cc.View()), d, overhead, envs)
  {
    var charged := FindCharged(packets, d);
    ghost var c := cc.View();
    Report(cc, packets.initial, d, Initial, charged, overhead, envs.initial);
    ghost var c1 := SubmitAt(c, d, Initial, overhead, envs.initial);
    Report(cc, packets.handshake, d, Handshake, charged, overhead, envs.handshake);
    ghost var c2 := SubmitAt(c1, d, Handshake, overhead, envs.handshake);
    Report(cc, packets.data, d, Data, charged, overhead, envs.data);
    assert cc.View() == SubmitAt(c2, d, Data, overhead, envs.data);
  }
}
