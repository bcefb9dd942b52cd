/** What packet assembly remembers of the frames it writes, and what a submission then reports of them. */
module PacketContents {
  import opened Basics

  /** A written frame. Of its fields, assembly reads the largest number an ACK acknowledges, and nothing else. */
  datatype Frame =
    | Padding
    | Ping
    | Ack(largest: nat)
    | ResetStream
    | StopSending
    | Crypto
    | NewToken
    | Stream
    | MaxData
    | MaxStreamData
    | MaxStreams
    | DataBlocked
    | StreamDataBlocked
    | StreamsBlocked
    | NewConnectionId
    | RetireConnectionId
    | PathChallenge
    | PathResponse
    | ConnectionClose
    | HandshakeDone
    | Datagram
    | AddAddress
    | RemoveAddress
    | PunchMeNow
    | PunchHello
    | PunchDone

  datatype Spec = NonAckEliciting | CongestionControlFree | ProbeNewPath | FlowControlled

  function Specs(f: Frame): set<Spec> {
    match f
    case Padding => {Spec.NonAckEliciting, ProbeNewPath}
    case Ack(_) => {Spec.NonAckEliciting, CongestionControlFree}
    case Stream => {FlowControlled}
    case NewConnectionId => {ProbeNewPath}
    case PathChallenge => {ProbeNewPath}
    case PathResponse => {ProbeNewPath}
    case ConnectionClose => {Spec.NonAckEliciting, CongestionControlFree}
    case PunchHello => {Spec.NonAckEliciting}
    case PunchDone => {Spec.NonAckEliciting}
    case _ => {}
  }

  /** Whether the peer must acknowledge a packet for carrying this frame. */
  predicate Elicits(f: Frame) { Spec.NonAckEliciting !in Specs(f) }

  /** Whether a packet counts against congestion control for carrying this frame. */
  predicate Controlled(f: Frame) { CongestionControlFree !in Specs(f) }

  datatype Content = NonAckEliciting | JustPing | EffectivePayload

  predicate IsAckEliciting(c: Content) { c != Content.NonAckEliciting }

  /** The frames that elicit an acknowledgement, in order. */
  function Eliciting(frames: seq<Frame>): seq<Frame> {
    if frames == [] then []
    else
      var n := |frames| - 1;
      Eliciting(frames[..n]) + if Elicits(frames[n]) then [frames[n]] else []
  }

  /** The content class by what the packet holds: nothing eliciting, one PING and nothing else eliciting, or more. */
  function ContentOf(frames: seq<Frame>): Content {
    if Eliciting(frames) == [] then Content.NonAckEliciting
    else if Eliciting(frames) == [Ping] then JustPing
    else EffectivePayload
  }

  /** One frame's step of the content class. */
  function Plus(c: Content, f: Frame): Content {
    if f == Ping && c == Content.NonAckEliciting then JustPing else if Elicits(f) then EffectivePayload else c
  }

  lemma ContentGrows(frames: seq<Frame>, f: Frame)
    ensures ContentOf(frames + [f]) == Plus(ContentOf(frames), f)
  {
    assert (frames + [f])[..|frames|] == frames;
    var before, after := Eliciting(frames), Eliciting(frames + [f]);
    assert after == before + if Elicits(f) then [f] else [];
    assert before == [] ==> after == if Elicits(f) then [f] else [];
    assert before != [] && Elicits(f) ==> |after| > 1;
  }

  predicate CountsInFlight(frames: seq<Frame>) { exists i :: 0 <= i < |frames| && Controlled(frames[i]) }

  /** The two answers that congestion control is given. */
  predicate Classifies(content: Content, inFlight: bool, frames: seq<Frame>) {
    content == ContentOf(frames) && (inFlight <==> CountsInFlight(frames))
  }

  /** The greatest number acknowledged by any ACK frame. */
  predicate IsLargestAck(ack: Option<nat>, frames: seq<Frame>) {
    && (ack.Some? ==> Ack(ack.value) in frames)
    && forall i :: 0 <= i < |frames| && frames[i].Ack? ==> ack.Some? && frames[i].largest <= ack.value
  }

  function MaxAck(ack: Option<nat>, largest: nat): nat { if ack.Some? then Max(ack.value, largest) else largest }

  lemma FlightGrows(frames: seq<Frame>, f: Frame)
    ensures CountsInFlight(frames + [f]) <==> CountsInFlight(frames) || Controlled(f)
  {
    var after := frames + [f];
    assert after[|frames|] == f;
    assert forall i :: 0 <= i < |frames| ==> after[i] == frames[i];
  }

  lemma LargestAckGrows(ack: Option<nat>, frames: seq<Frame>, f: Frame)
    requires IsLargestAck(ack, frames)
    ensures IsLargestAck(if f.Ack? then Some(MaxAck(ack, f.largest)) else ack, frames + [f])
  {
    assert f in frames + [f];
  }

  class Metadata {
    var nframes: nat
    var content: Content
    var inFlight: bool
    var ack: Option<nat>
    ghost var frames: seq<Frame>

    /** The fields are what the frames written so far amount to. */
    ghost predicate Valid()
      reads this
    {
      && nframes == |frames|
      && Classifies(content, inFlight, frames)
      && IsLargestAck(ack, frames)
    }

    constructor ()
      ensures Valid() && frames == []
    {
      nframes, content, inFlight, ack, frames := 0, Content.NonAckEliciting, false, None, [];
    }

    method Record(f: Frame)
      requires Valid()
      modifies this
      ensures Valid() && frames == old(frames) + [f]
    {
      nframes := nframes + 1;
      if f == Ping && content == Content.NonAckEliciting {
        content := JustPing;
      } else if Elicits(f) {
        content := EffectivePayload;
      }
      inFlight := inFlight || Controlled(f);
      if f.Ack? {
        ack := Some(MaxAck(ack, f.largest));
      }
      frames := frames + [f];
      ContentGrows(old(frames), f);
      FlightGrows(old(frames), f);
      LargestAckGrows(old(ack), old(frames), f);
    }
  }

  /**
   No frame is free of congestion control yet asks for an acknowledgement, so a packet that is
   ack-eliciting also counts as in flight.
   */
  lemma {:induction false} ElicitingIsInFlight(frames: seq<Frame>)
    ensures IsAckEliciting(ContentOf(frames)) ==> CountsInFlight(frames)
    decreases |frames|
  {
    if frames != [] {
      var n := |frames| - 1;
      ElicitingIsInFlight(frames[..n]);
      assert Elicits(frames[n]) ==> Controlled(frames[n]);
      assert CountsInFlight(frames[..n]) ==> CountsInFlight(frames) by {
        assert forall i :: 0 <= i < n ==> frames[..n][i] == frames[i];
      }
    }
  }

  /** The frames that need no acknowledgement, and of those the ones that congestion control ignores. */
  lemma Exempt(f: Frame)
    ensures Elicits(f) <==> !(f.Padding? || f.Ack? || f.ConnectionClose? || f.PunchHello? || f.PunchDone?)
    ensures Controlled(f) <==> !(f.Ack? || f.ConnectionClose?)
  {
  }
}
