/** The two frames of the connection-ID protocol (sections 19.15 and 19.16 of RFC 9000). */
module CidFrames {
  import opened Basics

  datatype NewCidFrame = NewCidFrame(sequence: nat, retirePriorTo: nat, cid: ConnectionId, token: ResetToken) {

    /** What the frame parser guarantees of a frame it hands over. */
    predicate Parsed() { retirePriorTo <= sequence <= VARINT_MAX }
  }
}
