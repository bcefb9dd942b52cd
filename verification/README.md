# dquic: verified models of its protocol cores

dquic is a multipath QUIC implementation. This project models its lock-protected state machines in
Dafny 4.11 and proves what they promise over every run. Each locked method of the implementation is one
atomic step; several of the machines face each other across a network, and there the network loses,
repeats and reorders frames at will.

| component | pure model and theorems | objects updated in place |
|---|---|---|
| connection IDs received from the peer | `RemoteCidModel`, `RemoteCidRuns`, `CidBoundary`, `CidPaths` | `RemoteCids` |
| connection IDs issued to the peer, and the routing table | `LocalCidModel`, `Routing` | `LocalCids` |
| both ends of the connection-ID protocol, alone and on the shared routing table | `CidProtocol`, `CidIssuing`, `CidLimits`, `CidProgress`, `CidRouting` | |
| packet contents, loss recovery and congestion accounting | `RecoveryModel`, `LossVerdicts`, `CongestionModel`, `CongestionRuns`, `Deadlines` | `PacketContents`, `PacketSpaces`, `Congestion`, `Submissions` |
| local endpoint directory and its subscribers | `Endpoints`, `AddressBookModel`, `AddressBookRuns`, `Subscriptions`, `DirectoryFacts` | `AddressBooks` |
| advertised addresses | `PunchModel` | `PunchAddresses` |
| closing and draining | `TerminatorModel`, `CloseReplies` | `Terminators` |
| connection flow control | `FlowModel` | `Flow` |
| variable-length integers, ACK, CRYPTO and session records | `VarInts`, `AckCodec`, `CryptoCodec`, `SessionCodec`, `WireVectors` | `Sessions` |

The pure models hold a state as a datatype, the operations as total functions, and the invariants with
their proofs. What each operation achieves is said apart from how it is computed: of the sent records, of the
deadlines, of where an endpoint is found, of which sequences a path holds. The classes hold the implementation's fields and loops; every method is proved to take the
model's step. `Basics`, `IndexDeques`, `CidFrames` and `Sorting` are shared.

Main results:

- **Connection IDs.** However frames are lost, repeated and reordered, neither end ever refuses a frame of
  the other (`CidProtocol.NoFrameIsRefused`); every CID a path holds is still active at its issuer and
  routed to it whatever other connections do (`HeldCidIsActiveAtIssuer`, `CidRouting.HeldCidReachesIssuer`); each sequence number is held by one
  path or retired once, never both, even against an arbitrary peer (`RemoteCidRuns.RetireLedger`); a
  borrowed CID is not retired before its batch ends (`BorrowedCidIsPinned`); the retirement boundary is always the
  largest one asked for, and no path stays below it while there is a CID above (`CidBoundary.BoundaryIsReached`,
  `PathsFollowBoundary`, `BelowBoundaryIsRetired`); a frame is refused exactly if it would exceed the limit
  (`OutcomeIs`, `LimitHolds`); and once the network is quiet
  no live path goes without a CID as long as the issuer has one for each (`CidProgress.EveryLivePathHasCid`).
- **Routing.** A CID leads to a connection exactly while that connection's manager owns it, over any
  interleaving of connections (`Routing.RoutingAgreement`).
- **Recovery.** A packet is declared lost exactly if it is old enough or overtaken, the next loss time is the least
  deadline left and never fires in vain (`LossVerdicts.LostIff`, `LossTimeIsLeast`, `LossTimeFires`); the timer is the
  earliest deadline and its expiry acts on the space that has it (`Deadlines.TimerIsEarliest`, `LossTimeoutActs`,
  `PtoTimeoutActs`). Loss verdicts on the trimmed queue equal those on the full history
  (`RecoveryModel.TrimmingLosesNoVerdict`); bytes in flight are exact and each packet leaves flight once,
  over every run (`CongestionRuns.InFlightLedger`); the timer code neither panics nor asserts falsely
  while other paths advance the handshake between any two reads (`CongestionModel.AntiDeadlockAssertion`).
  The runs send packets with arbitrary frames: that every ack-eliciting packet counts as in flight, which
  the PTO depends on, is proved of packet assembly (`PacketContents.ElicitingIsInFlight`).
- **Addresses.** Every subscription lasts until it hangs up, and folding it gives exactly the directory's view
  (`Subscriptions.EverySubscriptionMirrors`); a connection that applies it
  advertises exactly that, once each (`AddressBookRuns.AdvertisementsMirrorDirectory`).
- **Closing.** Every component hears of the end exactly once; CLOSE replies are bounded by packets and time,
  and five packets make one due (`TerminatorModel.ClosedExactlyOnce`, `CloseReplyBound`, `CloseReplies.FivePacketsMakeDue`).
- **Flow control.** No run violates the receiver's limit, and credit returns at quiescence if and only if the
  initial limit is at least two; quiescence can always be reached (`FlowModel.NeverViolated`, `RecoversIff`,
  `CreditCanReturn`).
- **Codecs.** ACK frames, CRYPTO frames and session records round trip, exactly where stated.

Properties that do not hold of the code as written, each with a witness and the exact condition:

- A CRYPTO frame survives the wire if and only if twice its offset is at most 2^62 - 1, because the parser adds
  the offset to itself where RFC 9000 bounds the sum of offset and length (`CryptoCodec.RoundTripIff`,
  `LegalFrameRefused`). The header check also lets illegal headers through (`IllegalHeaderAccepted`), but the
  data they announce is missing from any input below 2^61 bytes (`AcceptedIsLegal`).
- The ranges of a parsed ACK frame stay at or above zero if and only if its fields add up to at most its largest
  number; neither the parser nor loss recovery checks that (`AckCodec.WellFormedIff`, `FirstRangeBelowZero`).
- The CID manager, used directly, fills the peer's limit if and only if the limit is two or nothing was retired
  before the limit was known, and what is missing then stays missing over every later run
  (`CidLimits.LimitIsFilledIff`, `EarlyRetirementLeavesShort`). A connection installs the limit before it reads
  any RETIRE, and so it always fills it (`LimitIsFilled`).
- A client connect that fails between claiming its first CID and creating its manager leaves that route behind
  (`Routing.FailedConnectLeaks`): once all connections of a run are gone, the table is empty if and only if no
  connect failed that way, and otherwise holds one route for each that did (`Routing.LeakedRoutes`).
- Where advertisements and withdrawals arrive in any order, possibly repeated, the peer agrees with what is
  advertised if and only if no advertisement arrives after the last withdrawal of its number
  (`PunchModel.PeerAgreesIff`, `RepeatRevives`).
- With an initial limit below two, connection credit never returns once that much has been sent
  (`FlowModel.SmallLimitStalls`, `SmallLimitNeverRecovers`).
- Revising the limit after rejected 0-RTT keeps the claimed data within it if and only if it is not below what was
  claimed (`FlowModel.ReviseSafeIff`, `RejectedEarlyDataOverdraws`); no code of the repository revises it yet.

## Model

| member | source | states |
|---|---|---|
| `RemoteCidModel.Arrange` | qbase/src/cid/remote_cid.rs:136-164 | index alignment of the three queues survives handing out CIDs |
| `RemoteCidModel.RetirePriorTo` | qbase/src/cid/remote_cid.rs:169-207 | index alignment survives moving the retirement boundary, jumps included |
| `RemoteCidModel.StoreKeepsInv` | qbase/src/cid/remote_cid.rs:125-127 | storing a received CID keeps the full invariant except that a CID may lie idle |
| `RemoteCidModel.ReleaseConserves` | qbase/src/cid/remote_cid.rs:338-348 | what a cell held is still held or was emitted as RETIRE, occurrence for occurrence |
| `RemoteCidModel.AssignConserves` | qbase/src/cid/remote_cid.rs:308-316 | the same for an assignment, counting the new sequence |
| `RemoteCidModel.ShiftKeepsInv` | qbase/src/cid/remote_cid.rs:188-196 | requeueing assigned cells loses no cell and no sequence |
| `RemoteCidModel.JumpKeepsInv` | qbase/src/cid/remote_cid.rs:180-186 | sequences jumped over are retired exactly once |
| `RemoteCidModel.RetirePriorToKeepsInv` | qbase/src/cid/remote_cid.rs:169-207 | the whole boundary move keeps alignment, queue and ledger |
| `RemoteCidModel.AllocateKeepsInv` | qbase/src/cid/remote_cid.rs:210-215 | queueing a new cell keeps alignment, queue and ledger |
| `RemoteCidModel.GiveKeepsInv` | qbase/src/cid/remote_cid.rs:151-160 | one assignment keeps alignment, queue and ledger |
| `RemoteCidModel.ArrangeKeepsInv` | qbase/src/cid/remote_cid.rs:136-164 | afterwards no received CID lies idle while a live path waits |
| `RemoteCidRuns.Next` | qbase/src/cid/remote_cid.rs:77-356 | every step of manager and cells keeps the invariant, whatever the peer sends |
| `RemoteCidRuns.Exec` | qbase/src/cid/remote_cid.rs:53-356 | every run keeps the invariant |
| `RemoteCidRuns.TakeInKeepsInv` | qbase/src/cid/remote_cid.rs:96-132 | an accepted NEW_CONNECTION_ID keeps the invariant |
| `RemoteCidRuns.OnReceiveFromKeepsInv` | qbase/src/cid/remote_cid.rs:77-87 | learning the peer's first source CID keeps the invariant |
| `RemoteCidRuns.RetireLedger` | qbase/src/cid/remote_cid.rs:136-215 | below the cursor each sequence is held by exactly one cell or was retired exactly once; at or above it neither |
| `RemoteCidRuns.NextPins` | qbase/src/cid/remote_cid.rs:318-356 | no single step takes a sequence from a borrowed cell except its own refresh |
| `RemoteCidRuns.BorrowedCidIsPinned` | qbase/src/cid/remote_cid.rs:318-356 | between a borrow and the next refresh nothing the cell holds is retired |
| `RemoteCidRuns.LivePathsAreServed` | qbase/src/cid/remote_cid.rs:151-158 | a live path's newest CID sits at its index, or the path waits and there is no CID to give |
| `CidBoundary.BoundaryIsReached` | qbase/src/cid/remote_cid.rs:169-178 | over every run the boundary is the largest one an accepted frame asked for |
| `CidBoundary.PathsFollowBoundary` | qbase/src/cid/remote_cid.rs:187-196 | over every run a live path uses a sequence at or above it, or waits while there is none to give |
| `CidBoundary.BelowBoundaryIsRetired` | qbase/src/cid/remote_cid.rs:180-205 | over every run what lies below it is retired, except in a batch or as the only CID of a waiting path |
| `CidBoundary.TakenInIsStored` | qbase/src/cid/remote_cid.rs:125-128 | an accepted CID is stored as it came and the others above the boundary stay |
| `CidBoundary.OutcomeIs` | qbase/src/cid/remote_cid.rs:100-132 | discarded below the boundary; refused exactly if taking it in would leave more outstanding than the limit; else accepted with its token |
| `CidBoundary.LimitHolds` | qbase/src/cid/remote_cid.rs:106-123 | against any peer and over every run no more CIDs are outstanding than the limit allows |
| `CidPaths.LoanIsNewest` | qbase/src/cid/remote_cid.rs:318-331 | a path is lent its newest CID, waits without one, and has ended once closed |
| `CidPaths.LentUntilRefresh` | qbase/src/cid/remote_cid.rs:318-336 | what was lent stays with the path, unretired, over every run up to its refresh |
| `CidPaths.RefreshLetsGo` | qbase/src/cid/remote_cid.rs:333-348 | afterwards an open path keeps its newest CID only, a closed one none; the rest is emitted, oldest first |
| `CidPaths.CloseLetsGo` | qbase/src/cid/remote_cid.rs:350-356 | outside a batch everything is emitted, oldest first; within one nothing |
| `CidPaths.FirstComeFirstServed` | qbase/src/cid/remote_cid.rs:136-164 | paths are served in the order in which they queued |
| `CidPaths.RequeuedInOrder` | qbase/src/cid/remote_cid.rs:187-196 | those the boundary passed queue behind those that wait already, in order |
| `CidPaths.OpenPathActs` | qbase/src/cid/remote_cid.rs:210-215 | a new path is live, marked as asked, and last in the queue |
| `CidPaths.PeerScidActs` | qbase/src/cid/remote_cid.rs:77-87 | the first source CID is stored as sequence zero, once |
| `RemoteCids.CidCell.constructor` | qbase/src/cid/remote_cid.rs:374-382 | a new cell holds nothing |
| `RemoteCids.CidCell.ReleaseRetiredCids` | qbase/src/cid/remote_cid.rs:338-348 | oldest first, down to one CID or none, each emitted |
| `RemoteCids.CidCell.Assign` | qbase/src/cid/remote_cid.rs:308-316 | the new CID becomes current; the older ones are given up and emitted unless the cell is borrowed |
| `RemoteCids.CidCell.PollBorrow` | qbase/src/cid/remote_cid.rs:318-331 | lends the newest CID of a live cell and marks it in use; a live cell without one waits, a retired cell has ended |
| `RemoteCids.CidCell.Refresh` | qbase/src/cid/remote_cid.rs:333-336 | the batch ends; everything but the current CID is given up and emitted |
| `RemoteCids.CidCell.Retire` | qbase/src/cid/remote_cid.rs:350-356 | the path ends; all CIDs are given up and emitted, or once the batch ends if borrowed |
| `RemoteCids.RemoteCids.Client` | qbase/src/cid/remote_cid.rs:237-239 | starts without any issued CID |
| `RemoteCids.RemoteCids.Server` | qbase/src/cid/remote_cid.rs:242-244 | starts with the client's source CID as sequence zero |
| `RemoteCids.RemoteCids.ArrangeIdleCid` | qbase/src/cid/remote_cid.rs:136-164 | the loop computes the model's arrangement |
| `RemoteCids.RemoteCids.Give` | qbase/src/cid/remote_cid.rs:151-159 | the first waiting cell gets the CID at the cursor; both queues and the cursor advance together |
| `RemoteCids.RemoteCids.RetirePriorTo` | qbase/src/cid/remote_cid.rs:169-207 | the boundary never moves back; assigned cells requeue with what they hold, unassigned sequences are emitted |
| `RemoteCids.RemoteCids.Shift` | qbase/src/cid/remote_cid.rs:188-196 | live cells below the bound queue up in order |
| `RemoteCids.RemoteCids.PopAssigned` | qbase/src/cid/remote_cid.rs:191-196 | the pop loop moves exactly the live cells |
| `RemoteCids.RemoteCids.Jump` | qbase/src/cid/remote_cid.rs:180-186 | skipped sequences are emitted once each, in order |
| `RemoteCids.RemoteCids.SetLimit` | qbase/src/cid/remote_cid.rs:247-249 | changes nothing but the limit |
| `RemoteCids.RemoteCids.Upgrade` | qbase/src/cid/remote_cid.rs:257-263 | later paths allocate; needs the peer's source CID |
| `RemoteCids.RemoteCids.OnReceiveFrom` | qbase/src/cid/remote_cid.rs:77-87 | installs sequence zero on the first response only |
| `RemoteCids.RemoteCids.CountActive` | qbase/src/cid/remote_cid.rs:106-113 | the count is the size of the set of received, unretired sequences above the boundary |
| `RemoteCids.RemoteCids.RecvNewCidFrame` | qbase/src/cid/remote_cid.rs:96-132 | discarded, refused with the count, or accepted with its token, exactly as in the model |
| `RemoteCids.RemoteCids.AllocateCell` | qbase/src/cid/remote_cid.rs:210-215 | the new cell waits last and is served at once if a CID is free |
| `RemoteCids.RemoteCids.BorrowOn` | qbase/src/cid/remote_cid.rs:395-397 | a path's borrow with its three outcomes, seen from the manager |
| `RemoteCids.RemoteCids.RefreshOn` | qbase/src/cid/remote_cid.rs:402-404 | a path's refresh, seen from the manager |
| `RemoteCids.RemoteCids.RetireOn` | qbase/src/cid/remote_cid.rs:408-410 | a path's end, seen from the manager |
| `LocalCidModel.NewKeepsInv` | qbase/src/cid/local_cid.rs:43-52 | a new manager has exactly sequences zero and one active |
| `LocalCidModel.IssueAdds` | qbase/src/cid/local_cid.rs:81-90 | issuing adds exactly the next sequence |
| `LocalCidModel.WithdrawRemoves` | qbase/src/cid/local_cid.rs:108-111 | taking a CID out and sliding the window removes exactly that sequence and renames nothing |
| `LocalCidModel.RetireReplaces` | qbase/src/cid/local_cid.rs:108-116 | retirement leaves the number of active CIDs unchanged |
| `LocalCidModel.SetLimitKeepsInv` | qbase/src/cid/local_cid.rs:63-78 | filling the limit never exceeds it |
| `LocalCidModel.SetLimitFillsIff` | qbase/src/cid/local_cid.rs:63-78 | it is filled exactly when the limit is two or nothing was retired before |
| `LocalCidModel.RecvRetireKeepsInv` | qbase/src/cid/local_cid.rs:94-119 | numbering, names and budget survive a retirement |
| `CidIssuing.RetireSends` | qbase/src/cid/local_cid.rs:108-116 | the answer to a RETIRE carries the replacement with its token and asks for all below the least active CID |
| `CidIssuing.IssueAllSends` | qbase/src/cid/local_cid.rs:73-90 | filling the limit sends one frame per CID, numbered in order |
| `CidIssuing.LatestFrameAsks` | qbase/src/cid/local_cid.rs:81-90 | over every run the latest frame asks to retire exactly what lies below the least active CID |
| `CidIssuing.RefusedIff` | qbase/src/cid/local_cid.rs:94-106 | a RETIRE is refused exactly if its sequence was never issued, and a repeated one changes nothing |
| `CidIssuing.LimitRefusedIff` | qbase/src/cid/local_cid.rs:64-72 | a limit is refused exactly if it is below two |
| `LocalCids.Router.TryInsert` | qtransport/src/router.rs:71-80 | claims a free route or reports the holder, changing nothing else |
| `LocalCids.Registry.GenUniqueCid` | qtransport/src/router.rs:159-173 | the search ends with a CID that had no route, now routed here |
| `LocalCids.Registry.RetireCid` | qtransport/src/router.rs:180-182 | removes the route only if it leads here |
| `LocalCids.LocalCids.constructor` | qbase/src/cid/local_cid.rs:43-52 | takes the model's step and claims the new route |
| `LocalCids.LocalCids.IssueNewCid` | qbase/src/cid/local_cid.rs:81-90 | takes the model's step with a fresh route |
| `LocalCids.LocalCids.SetLimit` | qbase/src/cid/local_cid.rs:63-78 | the issuing loop fills the limit as the model says, or refuses a limit below two |
| `LocalCids.LocalCids.RecvRetireCidFrame` | qbase/src/cid/local_cid.rs:94-119 | unknown sequences are refused; a retired CID is replaced first and unrouted after |
| `LocalCids.LocalCids.Clear` | qbase/src/cid/local_cid.rs:121-128 | all remaining routes go, the server's original one included |
| `Routing.RoutingAgreement` | qtransport/src/router.rs:159-182 | a CID leads to a managed connection exactly when active there, or its uncleared original destination CID |
| `Routing.OthersRoutesStay` | qtransport/src/router.rs:176-182 | no step of one connection changes another's routes |
| `Routing.SetLimitAgrees` | qbase/src/cid/local_cid.rs:73-75 | agreement survives filling the limit |
| `Routing.RetireAgrees` | qbase/src/cid/local_cid.rs:108-116 | agreement survives replacing a retired CID |
| `Routing.ClearAgrees` | qbase/src/cid/local_cid.rs:121-128 | agreement survives clearing |
| `Routing.NextKeepsInv` | qtransport/src/router.rs:71-80 | agreement and unambiguity survive every step of every connection |
| `Routing.AbandonedRouteStays` | qconnection/src/endpoint.rs:153-161 | a connect that fails in between leaves its route for good |
| `Routing.FailedConnectLeaks` | qconnection/src/endpoint.rs:153-161 | from an empty table, one connect that fails leaves exactly its route |
| `Routing.LeakedRoutes` | qconnection/src/endpoint.rs:153-161 | over every run whose connections are all gone, the routes left are the CIDs of failed connects, one each; none exactly when none failed |
| `CidProtocol.Next` | qbase/src/cid/remote_cid.rs:96-132 | every step of the two ends and the network keeps the joint invariant |
| `CidProtocol.CountedIsActive` | qbase/src/cid/remote_cid.rs:106-113 | what the receiver counts is active at the issuer |
| `CidProtocol.NewCidFits` | qbase/src/cid/remote_cid.rs:106-123 | no frame ever sent exceeds the receiver's limit |
| `CidProtocol.RetireIsKnown` | qbase/src/cid/local_cid.rs:96-106 | no RETIRE ever sent names an unknown sequence |
| `CidProtocol.LearnScidKeepsInv` | qbase/src/cid/remote_cid.rs:84-85 | sequence zero can always be installed when first learnt |
| `CidProtocol.NoFrameIsRefused` | qbase/src/cid/remote_cid.rs:96-132 | for every run with a common limit of at least two, nothing in flight would be refused by either end |
| `CidProtocol.HeldCidIsActiveAtIssuer` | qbase/src/cid/local_cid.rs:108-116 | a CID in a path's hands is active at the issuer under the same sequence |
| `CidLimits.ActiveCountIsFixed` | qbase/src/cid/local_cid.rs:94-119 | once the limit is known the number of active CIDs never changes again |
| `CidLimits.LimitIsFilledIff` | qbase/src/cid/local_cid.rs:63-78 | over every later run the limit is filled exactly when it is two or nothing was retired before it was known |
| `CidLimits.LimitIsFilled` | qconnection/src/lifecycle/client.rs:81-103 | over every run in which the limit is known before any RETIRE arrives, it is filled from then on |
| `CidLimits.EarlyRetirementLeavesShort` | qbase/src/cid/local_cid.rs:73-75 | a run in which a RETIRE reaches the manager before its limit ends one short, whatever follows |
| `CidRouting.Next` | qbase/src/cid/local_cid.rs:81-116 | the protocol and the routing table agree on the issuer's CIDs after every joint step |
| `CidRouting.TogetherKeepsInv` | qbase/src/cid/local_cid.rs:81-116 | issuing and claiming, retiring and unrouting leave both with the same CIDs |
| `CidRouting.ClientBegins` | qconnection/src/endpoint.rs:150-161 | a client connect leads to a state in which a joint run begins |
| `CidRouting.HeldCidReachesIssuer` | qtransport/src/router.rs:95-97 | over every joint run with any other connections, the table leads a CID in a path's hands to the issuing connection |
| `CidProgress.WaitingMeansExhausted` | qbase/src/cid/remote_cid.rs:151-162 | at quiescence a path waits only if every issued CID is handed out |
| `CidProgress.EveryLivePathHasCid` | qbase/src/cid/remote_cid.rs:210-215 | at quiescence, with no more live paths than active CIDs, every live path has one |
| `RecoveryModel.PersistentIffThreeAdjacent` | qcongestion/src/packets.rs:245-257 | the fold fails exactly when three adjacent positions were lost in the pass |
| `RecoveryModel.AckKeepsTrims` | qcongestion/src/packets.rs:177-198 | acknowledging and trimming stay in step with the untrimmed history, late acknowledgements included |
| `RecoveryModel.VerdictOnTrimmed` | qcongestion/src/packets.rs:222-235 | a record is lost in the queue exactly when it is lost in the history |
| `RecoveryModel.DetectOnTrimmed` | qcongestion/src/packets.rs:207-257 | one pass reports the same packets, deadline and persistence on both |
| `RecoveryModel.RunKeepsTrims` | qcongestion/src/packets.rs:167-265 | over every run the queue is the history without settled front records |
| `RecoveryModel.TrimmingLosesNoVerdict` | qcongestion/src/packets.rs:196-198 | so front trimming changes no verdict after any run |
| `LossVerdicts.LostIff` | qcongestion/src/packets.rs:222-235 | a number is reported lost exactly if a record in flight at or below the largest acknowledged carries it and is old enough or overtaken by three |
| `LossVerdicts.LostExactly` | qcongestion/src/packets.rs:223-243 | the report lists those records, each once, in the order sent |
| `LossVerdicts.PersistentIff` | qcongestion/src/packets.rs:245-257 | persistent loss is reported exactly for three neighbouring such records |
| `LossVerdicts.PassMarks` | qcongestion/src/packets.rs:229-232 | exactly those are marked for retransmission |
| `LossVerdicts.SurvivorsAreYoung` | qcongestion/src/packets.rs:229-234 | what is still in doubt afterwards is younger than the loss delay |
| `LossVerdicts.LossTimeIsLeast` | qcongestion/src/packets.rs:236-242 | the next loss time is the least deadline of those, and lies in the future |
| `LossVerdicts.LossTimeFires` | qcongestion/src/packets.rs:213-235 | a pass at that time loses at least one packet |
| `LossVerdicts.AckMarks` | qcongestion/src/packets.rs:177-185 | an acknowledgement marks exactly the records whose number lies in a range, those already given up included |
| `LossVerdicts.AckTrims` | qcongestion/src/packets.rs:196-198 | the queue then starts with a record in flight |
| `LossVerdicts.HandedOverIff` | qcongestion/src/packets.rs:267-280 | a discarded space hands over exactly the packets in flight |
| `PacketSpaces.NewReno.OnPacketSentCc` | qcongestion/src/algorithm/new_reno.rs:53-55 | adds the bytes |
| `PacketSpaces.NewReno.OnPacketAcked` | qcongestion/src/algorithm/new_reno.rs:84-91 | subtracts them only while the packet is in flight |
| `PacketSpaces.NewReno.OnPacketsLost` | qcongestion/src/algorithm/new_reno.rs:174-181 | subtracts what was counted |
| `PacketSpaces.NewReno.RemoveFromBytesInFlight` | qcongestion/src/algorithm/new_reno.rs:199-205 | subtracts exactly the in-flight records, without underflow |
| `PacketSpaces.PacketSpace.constructor` | qcongestion/src/packets.rs:153-161 | starts empty |
| `PacketSpaces.PacketSpace.UpdateLargestAcked` | qcongestion/src/packets.rs:163-165 | keeps the maximum |
| `PacketSpaces.PacketSpace.NoneInFlight` | qcongestion/src/packets.rs:203-205 | true exactly when no ack-eliciting record is in flight |
| `PacketSpaces.PacketSpace.MarkAcked` | qcongestion/src/packets.rs:177-194 | marks and reports exactly the newly covered records; the summary names their largest and whether one was ack-eliciting |
| `PacketSpaces.PacketSpace.TrimSettled` | qcongestion/src/packets.rs:196-198 | drops exactly the settled front |
| `PacketSpaces.PacketSpace.OnAckRcvd` | qcongestion/src/packets.rs:167-201 | both of these in turn |
| `PacketSpaces.PacketSpace.LastAcked` | qcongestion/src/packets.rs:222 | one past the last acknowledged position |
| `PacketSpaces.PacketSpace.MarkLost` | qcongestion/src/packets.rs:223-243 | marks exactly the records the model declares lost and keeps the earliest deadline of the others |
| `PacketSpaces.PacketSpace.IsPersistent` | qcongestion/src/packets.rs:245-257 | the early-exit fold agrees with the full fold |
| `PacketSpaces.PacketSpace.DetectLostPackets` | qcongestion/src/packets.rs:207-265 | the verdict and the report to congestion control are the model's |
| `PacketSpaces.PacketSpace.Discard` | qcongestion/src/packets.rs:267-280 | empties the space, returns the in-flight numbers and takes their bytes off exactly |
| `CongestionModel.SettleConserves` | qcongestion/src/packets.rs:177-194 | records that leave flight are exactly the reported ones, by any measure |
| `CongestionModel.TrimConserves` | qcongestion/src/packets.rs:196-198 | trimming takes nothing out of flight |
| `CongestionModel.RecordConserves` | qcongestion/src/congestion.rs:145-164 | a send keeps the ledger balanced |
| `CongestionModel.TakeAckConserves` | qcongestion/src/packets.rs:167-201 | an acknowledgement keeps it balanced, with no subtraction saturating |
| `CongestionModel.DetectConserves` | qcongestion/src/packets.rs:207-265 | a detection pass keeps it balanced, with no subtraction saturating |
| `CongestionModel.DiscardSound` | qcongestion/src/packets.rs:267-280 | discarding keeps it balanced and cannot underflow |
| `CongestionModel.DiscardEpochSound` | qcongestion/src/congestion.rs:498-508 | the same for a retired epoch |
| `CongestionModel.RetireHandshakeSpaces` | qcongestion/src/congestion.rs:510-517 | keeps the ledger and the PTO safe |
| `CongestionModel.OnTimeout` | qcongestion/src/congestion.rs:331-370 | the same for a timeout; the debug assertion is its precondition |
| `CongestionModel.Armed` | qcongestion/src/congestion.rs:521-532 | the same up to the point where the timer is looked at |
| `CongestionModel.Tick` | qcongestion/src/congestion.rs:520-540 | the same for the whole driver, whatever other paths do between two reads of the facts |
| `CongestionModel.AntiDeadlockAssertion` | qcongestion/src/congestion.rs:525-538 | an expired timer never meets an idle path whose peer is already validated |
| `CongestionModel.PtoEpoch` | qcongestion/src/congestion.rs:77-83 | selecting the next PTO's space keeps the ledger and the PTO safe |
| `CongestionModel.PtoEpochIsProbed` | qcongestion/src/congestion.rs:77-83 | the space selected is the one a timeout probes, and there is one exactly when the timer would be armed for a PTO |
| `CongestionModel.OnPathLost` | qcongestion/src/congestion.rs:550-563 | losing the path keeps the ledger |
| `CongestionModel.TakeAckAnchored` | qcongestion/src/congestion.rs:441 | an acknowledgement never leaves the PTO without its send time |
| `CongestionModel.DetectAnchored` | qcongestion/src/congestion.rs:441 | nor does a detection pass |
| `Deadlines.LossTimeIsEarliest` | qcongestion/src/congestion.rs:380-387 | the loss time acted on is the earliest, of the earlier epoch on ties |
| `Deadlines.PtoIsEarliest` | qcongestion/src/congestion.rs:416-447 | the PTO is the earliest of the spaces that wait for an acknowledgement, the data space once the handshake is done and with the backed-off peer delay |
| `Deadlines.TimerIsEarliest` | qcongestion/src/congestion.rs:284-301 | the timer is the earliest loss time, else off while blocked or idle and validated, else the PTO |
| `Deadlines.IdleTimer` | qcongestion/src/congestion.rs:284-301 | an idle server never arms it, an idle client until its address is validated |
| `Deadlines.DetectActs` | qcongestion/src/congestion.rs:244-245 | a pass touches its own space only |
| `Deadlines.RecordActs` | qcongestion/src/congestion.rs:151-164 | a packet is recorded last, sets the send time and pays for a probe if ack-eliciting |
| `Deadlines.SendActs` | qcongestion/src/congestion.rs:145-169 | a counted packet sets the timer anew; in a discarded epoch nothing happens |
| `Deadlines.TakeAckActs` | qcongestion/src/congestion.rs:225-227 | the largest acknowledged number never falls; the queue follows the ranges |
| `Deadlines.AckActs` | qcongestion/src/congestion.rs:221-259 | something newly acknowledged brings a pass, ends the backoff once validated, and sets the timer anew |
| `Deadlines.DiscardActs` | qcongestion/src/congestion.rs:498-508 | nothing is left of the epoch, backoff and probes end, and it happens once |
| `Deadlines.RetireActs` | qcongestion/src/congestion.rs:510-517 | each handshake space goes exactly when its work is done |
| `Deadlines.BlockedActs` | qcongestion/src/congestion.rs:69-74 | the flag is taken over, and a change sets the timer anew |
| `Deadlines.PathLostActs` | qcongestion/src/congestion.rs:550-563 | all spaces and the timer are forgotten and nothing is in flight |
| `Deadlines.LossTimeoutActs` | qcongestion/src/congestion.rs:331-345 | a timeout looks for losses in the space with the earliest loss time |
| `Deadlines.ProbeActs` | qcongestion/src/congestion.rs:347-365 | the probe goes to the space with the earliest PTO, or to the handshake if idle |
| `Deadlines.PtoTimeoutActs` | qcongestion/src/congestion.rs:347-370 | without a loss time a timeout raises the backoff by one and asks for one probe |
| `Deadlines.TickActs` | qcongestion/src/congestion.rs:520-540 | a due timer is acted on and one that is not due is left alone |
| `PacketContents.Metadata.constructor` | qbase/src/packet/assemble.rs:36-38 | an unwritten packet elicits nothing, is not in flight and carries no ACK |
| `PacketContents.Metadata.Record` | qbase/src/packet/assemble.rs:40-48 | over every list of frames: their number, the content class they amount to, whether one is under congestion control, and the largest number acknowledged |
| `PacketContents.ContentGrows` | qbase/src/packet.rs:108-116 | adding frame by frame tells a lone PING from anything more, in any order |
| `PacketContents.ElicitingIsInFlight` | qbase/src/frame.rs:276-293 | every ack-eliciting packet counts as in flight |
| `PacketContents.Exempt` | qbase/src/frame.rs:276-293 | which frames need no acknowledgement, and which congestion control ignores |
| `CongestionRuns.SendPtoSafeIff` | qcongestion/src/congestion.rs:428-441 | what a reported packet may be without breaking the PTO: not ack-eliciting, uncounted and the first of its space, the data space being looked at only once the handshake is done |
| `CongestionRuns.SubmitSound` | qtransport/src/path.rs:104 | a packet with whatever frames keeps ledger and PTO safe |
| `CongestionRuns.AckSound` | qcongestion/src/congestion.rs:221-259 | so does an acknowledgement |
| `CongestionRuns.Next` | qcongestion/src/congestion.rs:69-563 | so does every operation |
| `CongestionRuns.Exec` | qcongestion/src/congestion.rs:69-563 | so does every run |
| `CongestionRuns.InFlightLedger` | qcongestion/src/congestion.rs:145-169 | over every run bytes in flight are exact and each packet is in flight, acked in flight, lost or removed, exactly one of them |
| `CongestionRuns.LateSend` | qcongestion/src/congestion.rs:146-149 | a send after its epoch was discarded changes nothing; after path loss it is counted afresh |
| `Congestion.CongestionController.constructor` | qcongestion/src/congestion.rs:90-125 | starts empty |
| `Congestion.CongestionController.NoneInFlight` | qcongestion/src/congestion.rs:449-451 | over all three spaces |
| `Congestion.CongestionController.GetLossTime` | qcongestion/src/congestion.rs:380-387 | the earliest loss time, earlier epochs first |
| `Congestion.CongestionController.Consider` | qcongestion/src/congestion.rs:429-445 | one space's PTO, skipped when nothing ack-eliciting is in flight |
| `Congestion.CongestionController.GetPto` | qcongestion/src/congestion.rs:416-447 | takes the model's value; it needs a send time only where the unwrap is reached |
| `Congestion.CongestionController.SetLossDetectionTimer` | qcongestion/src/congestion.rs:284-301 | earliest loss time, else nothing while blocked or idle with a validated peer, else the PTO, refining the model's timer |
| `Congestion.CongestionController.SetAmplificationBlocked` | qcongestion/src/congestion.rs:69-74 | rearms only on a change and leaves the backoff alone |
| `Congestion.CongestionController.SetAckDelays` | qcongestion/src/congestion.rs:625-630 | changes only the PTO bound |
| `Congestion.CongestionController.OnPacketSent` | qcongestion/src/congestion.rs:145-169 | refines the send of the model, for which ledger and PTO safety are proved; nothing for a discarded epoch |
| `Congestion.CongestionController.TakeAck` | qcongestion/src/congestion.rs:225-227 | takes the model's step and summarizes what was newly acknowledged |
| `Congestion.CongestionController.OnAckRcvd` | qcongestion/src/congestion.rs:221-259 | refines the acknowledgement of the model, for which they are proved; stops early when nothing is newly acknowledged; returns the numbers of the detection pass |
| `Congestion.CongestionController.DetectIn` | qcongestion/src/congestion.rs:244-245 | refines the detection of the model, returns the numbers of its verdict and keeps the PTO safe |
| `Congestion.CongestionController.DiscardEpoch` | qcongestion/src/congestion.rs:498-508 | forgets the space at most once, resets backoff and probes, rearms, and keeps the ledger |
| `Congestion.CongestionController.RetireHandshakeSpaces` | qcongestion/src/congestion.rs:510-517 | discards the handshake spaces whose work is done, refining the model |
| `Congestion.CongestionController.PtoEpoch` | qcongestion/src/congestion.rs:77-83 | takes the model's step and selects the model's space |
| `Congestion.CongestionController.SendProbe` | qcongestion/src/congestion.rs:347-365 | one probe, in the space the model picks |
| `Congestion.CongestionController.OnLossDetectionTimeout` | qcongestion/src/congestion.rs:331-370 | takes the model's step and returns the backoff count and the numbers found lost |
| `Congestion.CongestionController.Tick` | qcongestion/src/congestion.rs:520-540 | takes the model's step; reports the path exactly when a timeout leaves the count above six, and the numbers it found lost |
| `Congestion.CongestionController.OnPathLost` | qcongestion/src/congestion.rs:550-563 | takes the model's step and hands the data in flight to retransmission |
| `Submissions.OverheadCountsOnce` | qtransport/src/path.rs:90-106 | a datagram puts the lengths of its counted packets of undiscarded epochs in flight, and the path's overhead once, exactly when the charged packet is one of them |
| `Submissions.ChargedIs` | qtransport/src/path.rs:92-93 | the charged packet is in flight if any is, and the first such |
| `Submissions.SubmittedRecord` | qtransport/src/path.rs:104 | a packet is recorded as ack-eliciting and as counted exactly if one of its frames is |
| `Submissions.OnSent` | qtransport/src/path.rs:97-106 | ledger and PTO stay sound whatever the datagram holds |
| `Submissions.FindCharged` | qtransport/src/path.rs:92-93 | the first packet in flight, else the first |
| `Submissions.Report` | qtransport/src/path.rs:98-104 | a packet is accounted by what was recorded of its frames, refining the model |
| `Submissions.OnDatagramSent` | qtransport/src/path.rs:90-106 | the whole datagram is, and ledger and PTO stay sound |
| `Endpoints.KeysInjective` | qbase/src/net/addr.rs:28-32 | the derived order tells any two endpoints apart |
| `Sorting.AscendingUnique` | qprotocol/src/addr_book.rs:358-369 | a set has one ascending enumeration |
| `Sorting.Sort` | qprotocol/src/addr_book.rs:358-369 | computes it |
| `AddressBookModel.ReceiveAllFolds` | qprotocol/src/addr_book.rs:391-415 | a subscriber's fold follows the announced changes in its scopes |
| `AddressBookModel.BroadcastAllFrom` | qprotocol/src/addr_book.rs:393-405 | whoever is still subscribed received every change |
| `AddressBookModel.InsertKeepsInv` | qprotocol/src/addr_book.rs:285-299 | every open subscriber stays up to date |
| `AddressBookModel.RemoveKeepsInv` | qprotocol/src/addr_book.rs:131-138 | every open subscriber stays up to date |
| `AddressBookModel.ReplaceKeepsInv` | qprotocol/src/addr_book.rs:114-128 | every open subscriber stays up to date |
| `AddressBookModel.RemoveBoundKeepsInv` | qprotocol/src/addr_book.rs:142-169 | every open subscriber stays up to date and the binding is reported gone last |
| `AddressBookModel.ExpectedAfterSetNat` | qprotocol/src/addr_book.rs:384-389 | reclassifying a binding changes what is advertised of exactly its external endpoints in scope |
| `AddressBookModel.SetNatKeepsInv` | qprotocol/src/addr_book.rs:174-188 | every open subscriber stays up to date |
| `AddressBookModel.SubscribePunchKeepsInv` | qprotocol/src/addr_book.rs:238-258 | the replay brings a new subscriber up to date; others are untouched |
| `AddressBookRuns.NextKeepsInv` | qprotocol/src/addr_book.rs:114-299 | every operation, refused ones included, keeps all subscribers up to date |
| `AddressBookRuns.EventsMirrorDirectory` | qprotocol/src/addr_book.rs:391-415 | over every run a fold gives exactly the in-scope endpoints with known NAT type, and BoundRemoved finds none of its binding left |
| `AddressBookRuns.RemovalIsAnnounced` | qprotocol/src/addr_book.rs:162-167 | a subscriber that could see the binding is told last |
| `Subscriptions.BroadcastTo` | qprotocol/src/addr_book.rs:393-405 | every open subscriber receives the change, in its place |
| `Subscriptions.RankGrows` | qprotocol/src/addr_book.rs:393-405 | the places of open subscribers keep their order |
| `Subscriptions.OpenKeeps` | qprotocol/src/addr_book.rs:238-258 | a new subscription drops only closed subscribers |
| `Subscriptions.SubscriptionLasts` | qprotocol/src/addr_book.rs:393-405 | over every run a subscriber stays until it hangs up, its events only extended |
| `Subscriptions.EverySubscriptionMirrors` | qprotocol/src/addr_book.rs:238-258 | over every run each subscription made and not hung up is there and mirrors the directory |
| `DirectoryFacts.InsertActs` | qprotocol/src/addr_book.rs:285-299 | the endpoint is found at its binding on the side of its scope, or the error says why not |
| `DirectoryFacts.ReplaceActs` | qprotocol/src/addr_book.rs:114-128 | the replacement takes over binding and side, or the error says why not |
| `DirectoryFacts.RemoveActs` | qprotocol/src/addr_book.rs:131-138 | only that endpoint is gone |
| `DirectoryFacts.RemoveBoundActs` | qprotocol/src/addr_book.rs:142-169 | nothing is left of the binding and nothing else goes |
| `DirectoryFacts.SetNatActs` | qprotocol/src/addr_book.rs:174-188 | only the classification of the binding changes |
| `DirectoryFacts.SubscribingLeavesDirectory` | qprotocol/src/addr_book.rs:238-258 | neither subscribing nor hanging up touches the directory |
| `DirectoryFacts.AdvertisedAs` | qprotocol/src/addr_book.rs:384-389 | full cone inside, as classified outside, nothing out of scope |
| `DirectoryFacts.UnbindReportedIff` | qprotocol/src/addr_book.rs:162-167 | a binding is reported gone exactly to those that could have seen something of it |
| `DirectoryFacts.MappedScope` | qbase/src/net/addr.rs:134-152 | an IPv4 address written as IPv6 keeps its scope but is never external |
| `DirectoryFacts.Ipv4Samples` | qbase/src/net/addr.rs:134-152 | the scope of one address of each IPv4 class |
| `DirectoryFacts.Ipv6Samples` | qbase/src/net/addr.rs:134-152 | the scope of one address of each IPv6 class |
| `AddressBookRuns.AdvertisementsMirrorDirectory` | qtraversal/src/punch.rs:33-49 | applying the events advertises each such endpoint exactly once, and an in-order peer holds the same frames |
| `AddressBooks.SnapshotUnique` | qprotocol/src/addr_book.rs:358-369 | a watch value is determined by its table |
| `AddressBooks.AddressBook.constructor` | qprotocol/src/addr_book.rs:84-97 | starts empty |
| `AddressBooks.AddressBook.Announce` | qprotocol/src/addr_book.rs:393-405 | closed subscribers are dropped, the others receive the change in order |
| `AddressBooks.AddressBook.PublishOuter` | qprotocol/src/addr_book.rs:378-380 | the DDNS value becomes the sorted outer table |
| `AddressBooks.AddressBook.PublishInner` | qprotocol/src/addr_book.rs:373-377 | the binding's mDNS value becomes its sorted inner endpoints, others stay |
| `AddressBooks.AddressBook.Insert` | qprotocol/src/addr_book.rs:285-299 | takes the model's step or reports the model's error, and keeps all watch values current |
| `AddressBooks.AddressBook.Replace` | qprotocol/src/addr_book.rs:114-128 | likewise |
| `AddressBooks.AddressBook.Remove` | qprotocol/src/addr_book.rs:131-138 | likewise, returning the binding |
| `AddressBooks.AddressBook.RemoveBound` | qprotocol/src/addr_book.rs:142-169 | likewise, returning the withdrawn endpoints in order |
| `AddressBooks.AddressBook.SetNat` | qprotocol/src/addr_book.rs:174-188 | likewise, reporting whether the value changed |
| `AddressBooks.AddressBook.SubscribePunch` | qprotocol/src/addr_book.rs:238-258 | likewise, replaying in order of binding and endpoint |
| `AddressBooks.AddressBook.SubscribeMdns` | qprotocol/src/addr_book.rs:202-209 | returns the current snapshot and keeps it current from then on |
| `PunchModel.AddKeepsInv` | qtraversal/src/addr.rs:26-32 | a new advertisement takes a fresh sequence number |
| `PunchModel.RemoveKeepsInv` | qtraversal/src/addr.rs:34-40 | withdrawing takes exactly the endpoint's advertisement |
| `PunchModel.ApplyKeeps` | qtraversal/src/punch.rs:33-46 | each event moves the advertisements as it moves the fold |
| `PunchModel.LocalMirrorsEvents` | qtraversal/src/punch.rs:33-49 | exactly one advertisement per known endpoint, carrying binding and NAT type; each number used once and withdrawn at most once |
| `PunchModel.CounterCountsAdded` | qtraversal/src/addr.rs:27-28 | numbers count the Added events, so they fit 32 bits exactly as long as those do |
| `PunchModel.PeerHoldsLocal` | qtraversal/src/addr.rs:42-52 | an in-order peer holds exactly the advertised frames |
| `PunchModel.PeerAgreesIff` | qtraversal/src/addr.rs:42-52 | delivered at least once, in any order, the peer agrees on a number exactly when no advertisement of it arrived after its last withdrawal |
| `PunchModel.RepeatRevives` | qtraversal/src/addr.rs:42-52 | one repeated advertisement after its withdrawal revives the address |
| `PunchAddresses.PunchAddresses.AddLocal` | qtraversal/src/addr.rs:26-32 | advertises under the next number and sends the frame |
| `PunchAddresses.PunchAddresses.RemoveLocalEndpoint` | qtraversal/src/addr.rs:34-40 | withdraws exactly the advertisements of the endpoint, however many, and sends their removals |
| `PunchAddresses.PunchAddresses.Withdraw` | qtraversal/src/punch.rs:33-46 | on the states that events lead to, that is at most one, as in the model |
| `PunchAddresses.PunchAddresses.Apply` | qtraversal/src/punch.rs:33-46 | after it the advertisements are those of all events seen so far |
| `PunchAddresses.PunchAddresses.Drain` | qtraversal/src/punch.rs:47-49 | works a queue of events off in order |
| `PunchAddresses.PunchAddresses.AddRemote` | qtraversal/src/addr.rs:42-48 | keeps the first frame of a number and says whether it was new |
| `PunchAddresses.PunchAddresses.RemoveRemote` | qtraversal/src/addr.rs:50-52 | forgets a number and returns its frame |
| `TerminatorModel.NextBalanced` | qtransport/src/terminate.rs:226-311 | every step keeps each registration stored, promised or told, exactly one of them |
| `TerminatorModel.PacketReplies` | qtransport/src/terminate.rs:160-171 | counting a packet keeps the account of what armed the replies |
| `TerminatorModel.ExecInv` | qtransport/src/terminate.rs:72-197 | every interleaving keeps all of the invariant |
| `TerminatorModel.PhaseMovesForward` | qtransport/src/terminate.rs:43-65 | no step moves a phase back |
| `TerminatorModel.ClosedExactlyOnce` | qtransport/src/terminate.rs:226-311 | nobody is told before the end, everyone exactly once after it with the first or the peer's reason, and at most one deadline starts |
| `TerminatorModel.TerminalError` | qtransport/src/terminate.rs:173-197 | the final error is the first reason unless a peer CLOSE arrived during Closing |
| `TerminatorModel.CloseReplyBound` | qtransport/src/terminate.rs:106-180 | at most 1 + P/5 + T/interval CLOSE frames in Closing; Draining adds one at most and only if none was written |
| `TerminatorModel.WrittenReason` | qtransport/src/terminate.rs:106-158 | over every run a CLOSE frame gives the first reason or the peer's, concealed exactly if it is the application's and the packet is early |
| `CloseReplies.CloseActs` | qtransport/src/terminate.rs:72-104 | the first close decides between closing and draining, tells all components and starts one deadline |
| `CloseReplies.PeerCloseActs` | qtransport/src/terminate.rs:173-180 | the peer turns closing into draining |
| `CloseReplies.FinishActs` | qtransport/src/terminate.rs:267-311 | terminating and aborting always end it, with the error known by then |
| `CloseReplies.RegisterActs` | qtransport/src/terminate.rs:226-238 | kept before the end, told after it |
| `CloseReplies.OneDeadline` | qtransport/src/terminate.rs:72-104 | over every run one deadline once closing or draining, none before |
| `CloseReplies.PacketMakesDueIff` | qtransport/src/terminate.rs:160-171 | a packet makes a reply due exactly as the fifth or after an interval |
| `CloseReplies.DueStaysDue` | qtransport/src/terminate.rs:160-171 | a due reply stays due until it is written |
| `CloseReplies.DumpActs` | qtransport/src/terminate.rs:106-158 | a due reply is written as soon as it fits; draining writes once if nothing was sent |
| `CloseReplies.FivePacketsMakeDue` | qtransport/src/terminate.rs:160-171 | from any closing state, five packets make a reply due whatever else happens |
| `Terminators.Callbacks.CloseAll` | qtransport/src/terminate.rs:81-83 | each component once, in order |
| `Terminators.Terminator.Register` | qtransport/src/terminate.rs:226-238 | stored before the end; afterwards the caller is given the error to pass on |
| `Terminators.Terminator.Close` | qtransport/src/terminate.rs:72-104 | takes the model's step and starts closing at most once |
| `Terminators.Terminator.OnRcvdPacket` | qtransport/src/terminate.rs:160-171 | rearms the reply after five packets or one interval, refining the step whose bound is proved |
| `Terminators.Terminator.EnterDraining` | qtransport/src/terminate.rs:173-180 | only Closing turns into Draining, with the peer's error and what was already sent |
| `Terminators.Terminator.RecvConnCloseFrame` | qtransport/src/terminate.rs:262-265 | the two locked halves in turn |
| `Terminators.Terminator.PollDump` | qtransport/src/terminate.rs:106-158 | takes the model's step and writes the model's frame |
| `Terminators.Terminator.Finish` | qtransport/src/terminate.rs:267-285 | takes the model's step and names whom to tell what |
| `Terminators.Terminator.Abort` | qtransport/src/terminate.rs:289-311 | ends at once, keeps an earlier error, tells each stored component once, and leaves the calls other threads owe to them |
| `Terminators.Terminator.Terminate` | qtransport/src/terminate.rs:267-285 | the same with the fixed error |
| `FlowModel.CreditKeepsInv` | qbase/src/flow.rs:128-136 | claiming credit keeps it conserved and DATA_BLOCKED limits increasing |
| `FlowModel.PostKeepsInv` | qbase/src/flow.rs:188-190 | sending keeps it conserved |
| `FlowModel.ReleaseKeepsInv` | qbase/src/flow.rs:193-200 | giving back cannot underflow and keeps it conserved |
| `FlowModel.ReviseSafeIff` | qbase/src/flow.rs:68-74 | exactly when revising the limit leaves it at or above what is claimed |
| `FlowModel.RejectedEarlyDataOverdraws` | qbase/src/flow.rs:68-74 | one byte of rejected early data can exceed the revised limit |
| `FlowModel.WindowStaysOpen` | qbase/src/flow.rs:227-236 | after each accepted receipt the window lies between the step and the initial limit |
| `FlowModel.NextKeepsInv` | qbase/src/flow.rs:35-66 | no step of either end or the network breaks conservation or the receiver's limit |
| `FlowModel.NeverViolated` | qbase/src/flow.rs:227-246 | over every run no flow control error and no guard dropped short |
| `FlowModel.CreditConserved` | qbase/src/flow.rs:128-136 | over every run claimed equals posted plus held, within the limit, and DATA_BLOCKED limits strictly increase |
| `FlowModel.LimitsEncodable` | qbase/src/flow.rs:53-58 | limits stay encodable while the data and one window do |
| `FlowModel.CreditReturns` | qbase/src/flow.rs:227-236 | with an initial limit of two or more there is credit at quiescence |
| `FlowModel.CreditCanReturn` | qbase/src/flow.rs:227-236 | from every reachable state of such a connection a run leads to quiescence with credit |
| `FlowModel.DeliveredIsInForce` | qbase/src/flow.rs:35-41 | over every run a delivered MAX_DATA is in force from then on |
| `FlowModel.LimitRises` | qbase/src/flow.rs:35-41 | the limit becomes the larger one, and only a larger one unblocks |
| `FlowModel.ClaimsAllItCan` | qbase/src/flow.rs:128-136 | a claim gets all it asked for or everything there was |
| `FlowModel.RunningDryIsReported` | qbase/src/flow.rs:47-59 | over every run a claim that uses up the limit has reported it |
| `FlowModel.ReceiptIs` | qbase/src/flow.rs:227-246 | an error exactly beyond the limit; the limit raised and announced exactly within one step of it |
| `FlowModel.SmallLimitStalls` | qbase/src/flow.rs:213-215 | below two there is a run that leaves no credit at quiescence |
| `FlowModel.SmallLimitNeverRecovers` | qbase/src/flow.rs:213-236 | below two, once the initial limit has been sent, no later state of any run has credit |
| `FlowModel.RecoversIff` | qbase/src/flow.rs:213-236 | so credit always returns exactly for limits of two or more |
| `Flow.SendController.IncreaseLimit` | qbase/src/flow.rs:35-41 | limits only grow, and growing ends the blocked state |
| `Flow.SendController.Available` | qbase/src/flow.rs:43-45 | never underflows |
| `Flow.SendController.Commit` | qbase/src/flow.rs:47-59 | takes the model's step, reporting a dry limit once |
| `Flow.SendController.TakeCredit` | qbase/src/flow.rs:128-136 | hands out the smaller of quota and credit |
| `Flow.SendController.ReturnBack` | qbase/src/flow.rs:61-66 | gives back exactly what the guard still holds, without underflow |
| `Flow.CreditGuard.PostSent` | qbase/src/flow.rs:188-190 | moves the amount from the guard to what is posted |
| `Flow.CreditGuard.Drop` | qbase/src/flow.rs:193-200 | gives the rest back |
| `Flow.RecvController.OnNewRcvd` | qbase/src/flow.rs:227-246 | takes the model's step or reports the excess |
| `VarInts.RoundTrip` | qbase/src/varint.rs:190-247 | what is put is parsed back, whatever follows |
| `VarInts.Put` | qbase/src/varint.rs:234-247 | takes exactly the announced number of bytes |
| `VarInts.RepeatUndoes` | qbase/src/frame/ack.rs:206-211 | a counted loop of an inverse parser undoes the written list |
| `AckCodec.FrameRoundTrip` | qbase/src/frame/ack.rs:201-251 | any frame is decoded back, leaving exactly what followed |
| `AckCodec.SizeExact` | qbase/src/frame/ack.rs:83-96 | the announced size is the number of bytes written |
| `AckCodec.PutFrame` | qbase/src/frame/ack.rs:232-250 | writes exactly the encoding |
| `AckCodec.ReadMany` | qbase/src/frame/ack.rs:204-211 | the counting loop computes the repeated parse |
| `AckCodec.ReadFrame` | qbase/src/frame/ack.rs:201-223 | computes the model's parse, ECN counts included |
| `AckCodec.WellFormedIff` | qbase/src/frame/ack.rs:141-153 | iterating stays at or above zero exactly when the fields add up to at most the largest number |
| `AckCodec.FirstRangeBelowZero` | qbase/src/frame/ack.rs:141-143 | a frame that the parser accepts and that is not |
| `AckCodec.CoversIffAcknowledges` | qcongestion/src/packets.rs:171-180 | the ranges loss recovery looks at cover exactly what the frame's fields acknowledge |
| `AckCodec.RangeAt` | qbase/src/frame/ack.rs:144-152 | each range in closed form |
| `AckCodec.RangesSeparated` | qbase/src/frame/ack.rs:141-153 | ranges are ordered, descending and never adjacent |
| `AckCodec.AcknowledgedOnce` | qcongestion/src/packets.rs:178-180 | no packet number is acknowledged by two ranges or above the largest |
| `AckCodec.RangesOfFrame` | qbase/src/frame/ack.rs:141-153 | every separated list of ranges is denoted by a frame |
| `AckCodec.FrameOfRanges` | qbase/src/frame/ack.rs:141-153 | and a well-formed frame is determined by its ranges |
| `AckCodec.IterRanges` | qbase/src/frame/ack.rs:141-153 | one downward pass computes them; a frame that goes below zero yields the ranges before it does |
| `CryptoCodec.EstimateIsMaximal` | qbase/src/frame/crypto.rs:68-92 | the answer fits, nothing larger does, and there is none exactly when one byte does not fit |
| `CryptoCodec.RoundTripIff` | qbase/src/frame/crypto.rs:104-125 | a frame with its data survives the wire exactly when twice its offset is encodable |
| `CryptoCodec.LegalFrameRefused` | qbase/src/frame/crypto.rs:106-108 | a legal frame of one byte at offset 2^61 is refused |
| `CryptoCodec.IllegalHeaderAccepted` | qbase/src/frame/crypto.rs:106-108 | a header announcing data past the largest offset is accepted |
| `CryptoCodec.AcceptedIsLegal` | qbase/src/frame/io.rs:41-50 | but no such frame as a whole, from fewer than 2^61 bytes |
| `SessionCodec.DecodeEncode` | qtls/src/resumption.rs:536-595 | a record is read back unchanged exactly when both authorities are acceptable, and refused otherwise |
| `SessionCodec.EncodeDecode` | qtls/src/resumption.rs:544-595 | bytes that decode are exactly the encoding of what they decode to |
| `Sessions.Cursor.TakeU8` | qtls/src/resumption.rs:613-617 | takes one byte or nothing |
| `Sessions.Cursor.TakeU16` | qtls/src/resumption.rs:619-623 | takes two bytes or nothing |
| `Sessions.Cursor.TakeBytes` | qtls/src/resumption.rs:625-630 | takes a counted block or nothing |
| `Sessions.ReadCertificates` | qtls/src/resumption.rs:581-590 | the loop stops at the total size limit exactly where the model does |
| `Sessions.ReadProjection` | qtls/src/resumption.rs:571-595 | computes the model's parse |
| `Sessions.Read` | qtls/src/resumption.rs:544-553 | computes the model's decoding, refusing leftovers |
| `Sessions.AppendBytes` | qtls/src/resumption.rs:597-602 | appends a counted block |
| `Sessions.AppendCertificates` | qtls/src/resumption.rs:565-567 | the loop appends every certificate or fails |
| `Sessions.AppendProjection` | qtls/src/resumption.rs:556-569 | appends the model's bytes |
| `Sessions.Write` | qtls/src/resumption.rs:536-542 | computes the model's encoding |
| `WireVectors.ShortSamples` | qbase/src/varint.rs:234-247 | the samples of appendix A.1 of RFC 9000 up to four bytes |
| `WireVectors.LongSample` | qbase/src/varint.rs:234-247 | the sample of eight bytes |
| `WireVectors.PaddedSample` | qbase/src/varint.rs:190-205 | the sample that is longer than needed is accepted |
| `WireVectors.AckLayout` | qbase/src/frame/ack.rs:232-250 | the ACK frame byte by byte for short fields |
| `WireVectors.CryptoLayout` | qbase/src/frame/crypto.rs:113-125 | the CRYPTO frame byte by byte for short fields |
| `WireVectors.SessionLayout` | qtls/src/resumption.rs:536-569 | the session record byte by byte for short fields |

## Left out

- Wakers, polling, scheduling and mutexes: every locked method is one step; callbacks made after a lock is released are steps of their own.
- RTT estimation and pacing: `loss_delay` and `base_pto` are arbitrary answers of the environment, and one operation sees one time.
- NewReno's congestion window, slow start and ECN reaction: only its count of bytes in flight is modelled.
- `RcvdRecords` and the scheduling of acknowledgements; which frames a packet is filled with is arbitrary.
- Retransmission itself: the packet numbers handed to it are results of the modelled operations.
- `QuicRouter::insert` and `remove`: unconditional table edits outside the claiming discipline; packet parsing and delivery to an inbox.
- LocalCids.Registry.GenUniqueCid: random CIDs are a stream given in advance, assumed to leave the used CIDs eventually, so that the search ends.
- Sharing the peer's source CID among handshake paths: those paths hold no cell, so the borrow guarantee covers allocated cells only.
- RemoteCidRuns.Next: a first source CID learnt after the boundary has moved is skipped, where the implementation panics; `CidProtocol.LearnScidKeepsInv` shows that it cannot happen between two ends that follow the protocol. A refused NEW_CONNECTION_ID leaves the state as it is, where the implementation closes the connection.
- Sequence numbers beyond 2^62 - 1: steps that would issue one are not taken.
- Address book queries that only compute (`pathways_to`, `inner_bindings`, `pick_local`) and the bookkeeping of punch transactions.
- PunchAddresses.PunchAddresses.AddLocal: requires an unused 32-bit number; wrap-around after 2^32 advertisements is not modelled.
- TerminatorModel.Close: the sleeper that later calls terminate is any later terminate step; its delay of three PTOs is not timed.
- AckCodec.IterRanges: a subtraction below zero ends the walk, where the implementation panics or, compiled without overflow checks, wraps around.
- CryptoCodec.EstimateMaxCapacity: requires a capacity the implementation accepts; it panics on larger ones.
- UTF-8 and DNS name syntax in session records: an arbitrary predicate; sealing, certificates and the stores around the records.
- Streams, handshake, TLS, packet protection, datagrams, name resolution, sockets and telemetry.
