# Verified model of the Thunderbolt verbs transport

This project models the reliable-delivery core of the `thunderbolt_ibverbs` driver and proves what it is for:
messages arrive once, in order and intact over links that lose, repeat and reorder frames; flow-control credits
are conserved; handshakes gate data readiness; nothing is delivered that was not sent.

Each lock region of the driver is one atomic step. A component usually has three parts: a specification of total
functions on values (`...Spec`), classes with the driver's own fields, counters, rings and loops that are proved to
compute these functions (`...Engine`, `PathTx`, `SendQueue`, `OrderQueue`), and lemmas about every run of the
specification (`...Proof` and its companions). What the kernel decides (allocation results, failing copies to user
memory, a full ring, a refused post) is an input of each step, so every claim covers every such outcome. A copy to
user memory fails at a chosen `(work request, offset)`.

| files | component |
|---|---|
| `Basics`, `Psn`, `NativeData` | shared types, 24-bit serial arithmetic, the data header |
| `Fragment` | cutting operations into frames, the receive-side shape test, gather copy |
| `RxSpec`, `RxProof`, `RxProgress`, `RxGather`, `RxAcks`, `RxRefusals`, `RxForgotten`, `RxEngine` | native SEND receive engine |
| `ReadSpec`, `ReadProof`, `ReadSnapshot`, `ReadAnswer`, `ReadEngine` | reassembly of READ responses |
| `AppleSpec`, `AppleProof`, `AppleStatus`, `AppleEngine` | reassembly of Apple frames |
| `Credits`, `PathSpec`, `RawStream`, `PathTx`, `PathLink`, `PathDuplex`, `PathDeadlock` | path credits, transmit scheduler, raw streams, the port as a run of the credit protocol, and both directions together |
| `RelSpec`, `RelProof`, `RelNet`, `RelEngine`, `OrderQueue` | reliability state machines and the completion ring |
| `SendQueue` | requester queues and their counter |
| `Handshake`, `HandshakeLive`, `HandshakeEngine` | HELLO/READY handshake between two nodes |
| `Wire` | data header and HELLO message formats |

## Findings

- **Small receive rings deadlock.** The start-credit gate never deadlocks framed traffic if and only if the peer's
  ring has at most 3, 128 to 257, or at least 320 entries (`Credits.NoStallExactly`). The 1024-entry rings of the
  driver are safe.
- **Failed PATH_CREDIT sends strand a window once there are enough of them.** The credits go back to the pending count,
  and nothing sends them again until another data frame arrives. A window of 64 or more withstands `f` failed sends if
  and only if it holds `f + 2` batches of 32 (`Credits.FailuresToleratedExactly`, `Credits.FailedSendsStrand`): 22 of
  them leave the 768 window of the driver safe, 23 can strand it. A window of 1 is stranded by one.
- **READ status replies break the window.** They are sent uncharged but the receiver returns a credit for them. With
  `k` of them the window plus `k` is the least bound on the data frames under way, so the window is kept if and only
  if there are none (`Credits.StatusRepliesBreakTheWindow`); without them conservation is exact.
- **Opposite page streams can block each other for good.** PATH_CREDIT frames are control frames, and the scheduler
  takes nothing from the control queue while its port is inside a raw stream (kernel/path.c:1714-1729). When both ends
  run out of credits inside a stream, each holds the credits of the other behind its own stream
  (`PathDuplex.StuckMeansBothStream`), and nothing ends that (`PathDuplex.StuckIsFinal`). Between rings that never
  stall framed traffic this can happen if and only if both ends may send streams of more frames, header included, than
  one return batch has credits, 32 for the driver's window (`PathDeadlock.NoDeadlockExactly`). Framed traffic, and
  streams one way only, never block while the windows withstand the lost batches.
- **The READY comments are wider than the code.** The worker checks for publication after enabling the tunnel
  because both READYs might already be in (kernel/native_control.c:721-727), but that check never finds a newly
  ready rail: ready_sent is only ever set with the tunnel up and the remote READY in
  (`Handshake.ReadySentIsTheLastEdge`). The model follows the code.
- **The 16-entry ACK cache is exactly as strong as its size**: a replayed operation completes again if and only if it
  is not among the last 16 completed ones (`RelProof.CompletesUnlessRecent`, `RelNet.CompletesAmongOthers`),
  and 17 operations replayed in turn do so every time (`RelProof.ReplayCompletesAgain`).
- **A partly received operation is never given up.** Until its own remaining frames arrive the receiver answers busy to
  every other operation (proto/reliability.c:425-427, `RelProof.AbandonedStaysBusy`).
- **The no-space answer of READ reassembly cannot happen**, and no saturating byte or queue counter ever saturates
  (`ReadProof.AccountingHolds`, `RxEngine.UnlinkOk`, `SendQueue.CounterIsExact`).
- **A flush reports a finished read as cancelled.** A read that is complete but waits behind an unfinished one gets -125
  like any other, because the callers of the flush report every read so (kernel/ibdev.c:2673-2681, 7193-7204), while a
  finished send keeps its status (kernel/ibdev.c:1709-1712; `SendQueue.ReadsLeaveAsGiven`, `SendQueue.SendsLeaveAsGiven`).
- **The end of an Apple message whose start was lost is delivered as a message.** Its earlier frames are rejected, but its
  last one carries an end mark without a start, which is also how short messages are sent (kernel/ibdev.c:5743-5749,
  `AppleStatus.LostStartDeliversTheEnd`). Messages dropped for want of a slot are skipped to their end and do not
  suffer this (`AppleProof.DroppedWhole`).
- **A stale fragment whose status has left the 1024-entry history is acknowledged as successful** even when its
  message failed (`RxProgress.StaleFragmentOnlyReacks`): for every starting PSN a run reaches this
  (`RxForgotten.ForgottenFailureIsAcked`).

## Model

| member | source | states |
|---|---|---|
| Psn.DeltaOfCounters | kernel/ibdev.c:685-697 | the 24-bit difference of two counters is their integer difference whenever that lies in [-2^23, 2^23) |
| Psn.OfInjective | kernel/ibdev.c:685-697 | two messages within half the number space never share a PSN |
| Fragment.ShapeAcceptsExactlyPieces | proto/native_data.h:200-242 | the shape test accepts exactly the (offset, length, last) triples the send loop emits, each under its own index; a wrapped u32 ceiling is always rejected |
| Fragment.ShapeInNumbers | proto/native_data.h:200-242 | in numbers: at most 4145 pieces of 4048 bytes at multiples of 4048, LAST on the one that ends the message |
| Fragment.WrappedCeilingExact | proto/native_data.h:226-231 | the u32 ceiling is the true frame count, or 0 when its sum wraps |
| Fragment.PiecesPartition | kernel/ibdev.c:4599-4648 | the pieces of an operation laid end to end are its bytes |
| Fragment.PlanFrames | kernel/ibdev.c:4552-4648 | the send loop emits every piece once, in order, and each path gets exactly as many frames as were reserved on it |
| Fragment.CopySendRange | kernel/ibdev.c:4022-4058 | gathering succeeds exactly when the range lies in the concatenated segments, and yields that slice |
| RxProof.DeliveredOnceInOrderIntact | kernel/ibdev.c:7806-8057 | over any run with loss, duplication (less than 2^23 PSNs stale), reordering and any posting schedule, striped or not: the c-th completion is the c-th message in the c-th posted receive; SUCCESS holds exactly its bytes, and a length error the first bytes of a message that does not fit |
| RxProof.StepInv | kernel/ibdev.c:7806-8057 | every arrival, posted receive and drain keeps the receive invariant |
| RxProof.StripedInv | kernel/ibdev.c:7854-7946 | a fragment in striped mode keeps it |
| RxProof.OrderedActiveInv | kernel/ibdev.c:7948-8005 | a fragment in ordered mode keeps it while a message is open |
| RxProof.OrderedIdleInv | kernel/ibdev.c:8006-8057 | a fragment in ordered mode keeps it while none is open |
| RxProof.BufferInv | kernel/ibdev.c:7588-7693 | buffering an early, duplicate or conflicting fragment keeps it |
| RxProof.DrainInv | kernel/ibdev.c:7433-7458 | draining delivers only the expected message, complete and intact, into the next posted receive |
| RxProof.HistStoreOk | kernel/ibdev.c:1225-1234 | recording a consumed PSN keeps the last 1024 statuses exact |
| RxProof.CopyFragsFills | kernel/ibdev.c:7226-7292 | copying the buffered fragments of a message in any order fills the receive with exactly their bytes, as far as they fit |
| RxProgress.HistoryExact | kernel/ibdev.c:1225-1247 | the ring returns the exact status of each of the last 1024 consumed messages and misses on older ones, across wraparound |
| RxProgress.StaleFragmentOnlyReacks | kernel/ibdev.c:1249-1273 | a stale fragment changes nothing but sends one ACK with the message's own status, or OK once the history has forgotten it |
| RxForgotten.ForgottenFailureIsAcked | kernel/ibdev.c:1249-1273 | in both modes and for every starting PSN: a message fails, more than 1023 others are consumed, and its duplicate is acknowledged as successful |
| RxGather.EarlyFragmentIsRemembered | kernel/ibdev.c:7588-7693 | with room and memory a fragment of a later message is kept beside those already waiting, whether a message is open or a receiver-not-ready episode is or neither, unless it lets that message be delivered |
| RxProgress.DrainExhausts | kernel/ibdev.c:7433-7458 | a drain stops only when the expected message is incomplete or no receive is posted |
| RxGather.CompletesExactlyWhenGathered | kernel/ibdev.c:7806-8057 | from a state where the expected message is open, or a receive is posted and no receiver-not-ready episode is open: over any run, in both modes, it completes if and only if the engine has kept every one of its fragments, where what is kept is stated exactly for each arrival, failed allocation and full list |
| RxGather.ReachableStates | kernel/ibdev.c:7806-8057 | in every reachable state nothing of the expected message is held, or its pieces gather as above, or they wait in the list for a receive, or all are there; a receiver-not-ready mark is only ever about a message nothing of which is held |
| RxGather.CompletesExactlyWhenAllArrived | kernel/ibdev.c:7854-7946 | striped, from any state with nothing of the message held, receive posted or not, episode open or not: it completes if and only if every fragment has arrived, in any order, counted from the first that finds a receive and is the one a receiver-not-ready answer asked for |
| RxGather.CompletesExactlyWhenInOrder | kernel/ibdev.c:7948-8057 | not striped, from the same states: it completes if and only if its fragments have arrived in index order, counted likewise, with anything between them |
| RxAcks.StepAnswers | kernel/ibdev.c:7806-8057 | in every reachable state all ACKs of one step, in order: the answer to the arriving fragment, written out for every case; one ACK per completed message, OK if and only if its completion succeeded and an error otherwise; receiver-not-ready if and only if a drain finds the expected message whole without a receive |
| RxAcks.CompletionsAnswered | kernel/ibdev.c:7055-7097 | a step that completes messages sends exactly their ACKs, each under its own PSN and queue pair with its own outcome, and at most a receiver-not-ready answer behind them |
| RxAcks.NotReadyExactly | kernel/ibdev.c:7433-7458 | receiver-not-ready is sent if and only if the expected message finds no receive; it names that message, and no receive is posted then |
| RxAcks.EpisodesExactly | kernel/ibdev.c:7843-7852 | the fragment that finds no receive opens an episode and ends it; nothing else does either |
| RxAcks.RunAnswers | kernel/ibdev.c:7226-7292 | from any reachable state: every message a run completes has been sent the ACK of its own outcome, and every OK is for a message completed with success or one that more than 1024 others have followed |
| RxAcks.AcksTellTheOutcome | kernel/ibdev.c:7226-7292 | the same over every run of a fresh queue pair |
| RxRefusals.MalformedIsRefused | kernel/ibdev.c:7824-7866 | a header that is not acceptable, in numbers, gets one error ACK and leaves no other trace |
| RxRefusals.ContradictionEndsOpen | kernel/ibdev.c:7884-8005 | a fragment under the PSN being received that names another sender, length or immediate value completes the open receive with a protection error, answers both with errors and expects the next PSN |
| RxRefusals.ContradictionDropsWaiting | kernel/ibdev.c:7652-7674 | a fragment that contradicts a waiting message, or repeats a piece with other bytes, drops that message and only that, with an error |
| RxRefusals.OverlapIsTrimmed | kernel/ibdev.c:7974-7990 | not striped, a fragment that overlaps what has come in counts as its missing rest alone |
| RxRefusals.OutOfPlaceIsIgnored | kernel/ibdev.c:7981-7995 | not striped, one that lies behind or beyond what is next changes nothing |
| RxRefusals.WaitingOutcome | kernel/ibdev.c:7226-7292 | a buffered message fails if and only if one of its copies does; else it is too long or succeeds |
| RxRefusals.OpenOutcome | kernel/ibdev.c:7912-7946 | the message being received starts out as too long or not, and fails from the first copy on that does |
| RxRefusals.PrunesExactly | kernel/ibdev.c:7387-7408 | pruning drops exactly the entries behind the expected PSN and answers each |
| RxEngine.UnlinkOk | kernel/ibdev.c:6947-6956 | unlinking keeps distinct PSNs, the count and the byte sum exact, so the saturating subtraction never saturates |
| RxEngine.AppendOk | kernel/ibdev.c:7631-7651 | linking a new entry keeps the accounting |
| RxEngine.ReplaceOk | kernel/ibdev.c:6958-6986 | storing a fragment keeps the accounting: bytes are the sum of stored lengths, complete means all fragment bits set |
| RxEngine.RecvQueue.Post | kernel/ibdev.c:5322-5341 | the receive ring appends, and refuses exactly when full |
| RxEngine.RecvQueue.Pop | kernel/ibdev.c:5365-5384 | the receive ring releases the oldest receive |
| RxEngine.AckHistory.Store | kernel/ibdev.c:1225-1234 | the array computes the history map |
| RxEngine.AckHistory.Lookup | kernel/ibdev.c:1236-1247 | the array answers as the history map does |
| RxEngine.NativeQp.HandleSendFragment | kernel/ibdev.c:7806-8057 | the engine with its counters and rings computes the specified step for every frame and environment, keeping the reorder accounting |
| RxEngine.NativeQp.BufferFragmentLocked | kernel/ibdev.c:7588-7693 | buffering computes its specification |
| RxEngine.NativeQp.DrainReorder | kernel/ibdev.c:7433-7458 | the drain loop computes its specification |
| RxEngine.NativeQp.DeliverReorderMsg | kernel/ibdev.c:7226-7292 | delivery of a buffered message computes its specification |
| RxEngine.NativeQp.PruneStale | kernel/ibdev.c:7387-7408 | pruning computes its specification |
| RxEngine.NativeQp.FinishActive | kernel/ibdev.c:7055-7097 | finishing the open message computes its specification |
| Credits.CreditsConserved | kernel/path.c:322-460 | on every lossless run without READ status replies the credits everywhere add up to the window, and returned credits never saturate |
| Credits.CreditsBounded | kernel/path.c:342-460 | in general the sum is at least the window and exceeds it by at most one per READ status reply |
| Credits.StatusRepliesBreakTheWindow | kernel/path.c:462-476 | with k status replies the least bound on the data frames under way is the window plus k, for every ring size; the window is kept if and only if there is none |
| Credits.ControlReserveIsKept | kernel/path.c:322-340 | outstanding data leaves 256 receive buffers free, or half of a small ring |
| Credits.NoStallExactly | proto/native_data.h:74-93 | with at most f failed credit sends the start gate never deadlocks if and only if the window holds f + 2 batches, or is 1 and f is 0; for f = 0 these are the rings of at most 3, 128 to 257, or at least 320 entries |
| Credits.NoStallInRun | kernel/path.c:1780-1798 | in such a run the waiting packet meets its requirement once nothing is under way |
| Credits.StallReached | kernel/path.c:424-437 | for every window of 2 to 32 a stuck state is reached without any failure |
| Credits.StallIsFinal | kernel/path.c:1788-1797 | a stuck state stays stuck |
| Credits.FailuresToleratedExactly | kernel/path.c:443-455 | from 64 frames up no run with exactly f failed credit sends ends stuck if and only if the window holds f + 2 batches |
| Credits.FailedSendsStrand | kernel/path.c:443-455 | for every larger f a run with exactly f failures, and no status reply, ends stuck |
| PathTx.PumpRunsDry | kernel/path.c:1679-1962 | a scheduling pass with room in the ring ends only when nothing may be posted |
| PathTx.PumpSpendsPerDataPacket | kernel/path.c:1778-1798 | a pass spends one credit per data packet posted, gives a refused one back, and disturbs nothing already posted |
| PathTx.QuietHeadNeedsOnlyCredits | kernel/path.c:1746-1798 | on a quiet port only the credit gate can hold the head of the data queue |
| PathTx.HeadIsPostedExactly | kernel/path.c:1746-1798 | the head of the data queue is posted if and only if, in numbers, no control packet waits, the in-flight limit allows it, a frame is free, more than 256, a quarter, or 1 are not outstanding, and its credits are at hand |
| PathTx.ControlIsNeverHeld | kernel/path.c:1714-1776 | outside a stream a control packet is posted whenever a staging frame is free |
| PathTx.PageIsPostedExactly | kernel/path.c:1714-1745 | inside a stream its next page is posted if and only if the in-flight limit and its credits allow it; it needs neither staging frame nor reserve |
| PathTx.ReserveIsKept | kernel/path.c:163-172 | over every run staged data leaves 256 frames of 1024 or more, a quarter of 4 to 1023, and 1 of 2 or 3 |
| PathTx.StreamHdrAnnounces | kernel/path.c:2318-2326 | the header of a stream has LAST and RAW_STREAM set, every other flag kept and the total length |
| PathTx.SchedulerRefinesFlow | kernel/path.c:1778-1960 | posting a data packet, or having it refused, is a charge and its outcome in the credit protocol |
| PathLink.PortRunsRefineFlow | kernel/path.c:1679-1962 | for every run of enqueues, scheduling passes, refusals, completions, receptions and returned credits the credit protocol has a run to the same state with as many failed sends and status replies |
| PathLink.ReturnsWhatWasCharged | kernel/path.c:849-951 | the receiver returns a credit for exactly the frames the sender was charged for, headers and pages of streams included, and for status replies |
| PathLink.PortConserves | kernel/path.c:322-460 | over these runs the port's credits, its data frames not yet received and the credits on their way back make up the window, plus at most one per status reply |
| PathLink.AtRestNothingWaits | kernel/path.c:1714-1798 | a port with nothing in flight, and every credit its peer returned back, may post or has nothing to post, inside a stream too, as long as the window withstands the failed sends; credits waiting in the peer's control queue are not back |
| PathDuplex.BothLinked | kernel/path.c:395-440 | with PATH_CREDIT frames passing through the other end's own control queue, both directions are at every moment links of this kind |
| PathDuplex.StuckMeansBothStream | kernel/path.c:1714-1798 | when two schedulers block each other both ends are inside a stream, without credits, the other's credits behind it |
| PathDuplex.StuckIsFinal | kernel/path.c:1714-1729 | no event ends that |
| PathDeadlock.ShortStreamsPaid | kernel/path.c:1778-1798 | an end whose streams fit one return batch always has a credit for each page left of the stream it is posting |
| PathDeadlock.LongStreamsBlock | kernel/path.c:1714-1798 | with longer streams on both ends a run without any failure blocks |
| PathDeadlock.NoDeadlockExactly | kernel/path.c:1714-1798 | between rings that never stall framed traffic the schedulers never block each other if and only if the streams of one end at least fit a return batch |
| PathTx.PathPort.ScheduleTx | kernel/path.c:1679-1962 | the scheduler loop with its saved and restored fields computes the specified pass |
| PathTx.PathPort.PostNext | kernel/path.c:1800-1960 | one turn: post, or undo and requeue |
| PathTx.PathPort.TxComplete | kernel/path.c:508-537 | a transmit completion computes its specification |
| PathTx.PathPort.SendPageStream | kernel/path.c:2270-2400 | a stream is accepted if and only if the pages supplied make up its length in legal sizes and header and pages have room; then they are queued together, the page that exhausts the length as the end, and otherwise nothing is |
| PathTx.PathPort.EnqueueDataList | kernel/path.c:1561-1599 | all of a list or none of it, within the queue limit |
| PathTx.PathPort.EnqueueReserved | kernel/path.c:1601-1636 | reserved room is always honoured |
| PathTx.PathPort.EnqueueData | kernel/path.c:1531-1559 | a single frame uses up a reservation when there is one |
| PathTx.PathPort.ReserveData | kernel/path.c:1638-1662 | queued and reserved frames together stay within the limit |
| PathTx.PathPort.TakeRxCredits | kernel/path.c:411-440 | pending credits are kept or taken whole, never made or lost short of saturation |
| PathTx.PathPort.RestoreRxCredits | kernel/path.c:443-451 | a failed send puts them back |
| PathTx.PathPort.AddRemoteRxCredits | kernel/path.c:360-393 | returned credits are added up to the window |
| PathTx.PathPort.SetRemoteRxCapacity | kernel/path.c:342-358 | the window and the credits become what the peer's ring admits |
| PathTx.PathPort.RxStartRaw | kernel/path.c:755-769 | the header of a stream puts the receiver at its start |
| PathTx.PathPort.RxRawPayload | kernel/path.c:771-814 | a payload frame of a stream computes its specification |
| PathTx.PathPort.RxComplete | kernel/path.c:849-951 | a received frame computes its specification, and credits are returned and accepted exactly when due and the buffer is posted again |
| RawStream.ReceiverStaysInStep | kernel/path.c:849-951 | over every run the receiver makes of the posted frames exactly what the sender meant; no payload is parsed as a header, no frame rejected |
| RawStream.OnlyItsPagesFollow | kernel/path.c:1714-1745 | inside a stream only that stream's next page may be posted, and the page that exhausts it is its end |
| RawStream.PostedInOrder | kernel/path.c:1700-1800 | what was posted of each kind followed by what waits is what was enqueued, in order |
| RawStream.FramesAreConserved | kernel/path.c:1760-1776 | over every run each staging frame is free or holds one outstanding packet, and data never holds the frames reserved for control |
| RawStream.StreamPartitions | proto/native_data.h:173-198 | a stream comes out as pieces that partition its bytes, LAST on the final one only |
| RawStream.HeaderOpensExactly | kernel/path.c:849-951 | a header opens a stream if and only if it announces one of 1 byte to 16 MiB without unknown flags; an empty stream or unknown flag is refused, anything else passed on |
| RawStream.PayloadTakenExactly | kernel/path.c:771-814 | a frame of more bytes than are left, or of none, is refused and ends the stream; any other carries the bytes that follow, and the flags only when it is the last |
| RawStream.StreamIsOver | kernel/path.c:508-537 | a stream is over if and only if its end was seen and this was its last packet in flight; nothing of it is left then |
| RawStream.NoStreamToEnd | kernel/path.c:508-537 | a completion that belongs to no stream leaves the fields alone |
| RelProof.NoEarlyRepeat | proto/reliability.c:380-451 | whatever frames arrive, an operation completes again only after more than 16 others; cached operations are pairwise different |
| RelProof.CompletesUnlessRecent | proto/reliability.c:46-77 | between operations, with a receive at hand, a single-frame operation completes if and only if it is not among the last 16 completed |
| RelProof.ReplayCompletesAgain | proto/reliability.c:66-77 | 17 operations replayed in turn complete on every arrival, so the bound is reached |
| RelProof.AbandonedStaysBusy | proto/reliability.c:418-427 | until one of its own frames arrives a partly received operation blocks all others, over any run |
| RelProof.SenderStops | proto/reliability.c:145-214 | with finite budgets R and N a run makes at most (1+R+N)(F+1) effective steps and completes at most once |
| RelProof.FramesBounded | proto/reliability.c:108-214 | it emits at most (1+R+N)F frames, and the retry generation is the budget spent |
| RelProof.LiveCanStep | proto/reliability.c:108-169 | a live operation is never stuck |
| RelProof.DoTxInv | proto/reliability.c:171-214 | a finished operation is never touched again |
| RelProof.StartsExactly | proto/reliability.c:79-106 | an operation may start if and only if its kind is known and it has 1 to 64 frames whose count does not wrap |
| RelProof.TimeoutReports | proto/reliability.c:145-169 | a timeout reports a completion if and only if the retry budget is 0, and it is exhausted retries; else it starts the next round |
| RelProof.AckReports | proto/reliability.c:171-214 | an ACK for a live operation reports OK for status 0, exhausted RNR retries for status 1 with no budget left, a remote error for status 2, and nothing otherwise |
| RelProof.EmittedIsFrames | proto/reliability.c:108-143 | the frame counter of an operation is the number of frames it has sent |
| RelProof.ValidatesExactly | proto/reliability.c:359-378 | a data frame is valid if and only if its kind, count, index, offset and length fit, in numbers; which code the others get |
| RelProof.RefusedUnanswered | proto/reliability.c:380-401 | an invalid frame, or one of another connection, changes nothing and is not answered |
| RelProof.IdleAnswers | proto/reliability.c:380-451 | between operations: a cached ACK is repeated, without a receive the answer is RNR, else the operation begins |
| RelProof.BusyAnswers | proto/reliability.c:418-451 | inside an operation its own frames are counted once and the last missing one completes it with an OK of its own generation; another is refused as busy |
| RelNet.ExactlyOnce | proto/reliability.c:380-451 | over a network that loses, duplicates and reorders, a sender success means the receiver completed the operation with every fragment seen and the same total length |
| RelNet.ReportsAreTrue | proto/reliability.c:145-214 | over the same network: at most one completion is ever reported, and a reported OK means that the receiver has completed the operation |
| RelNet.NothingAfterOk | proto/reliability.c:171-214 | after an OK was taken no failure is ever reported |
| RelNet.AloneAtMostOnce | proto/reliability.c:380-451 | without other traffic the receiver completes at most once |
| RelNet.CompletesAmongOthers | proto/reliability.c:380-451 | over arbitrary arrivals of its own and other operations' frames an operation completes if and only if all its frames have arrived, counted from the first that finds the receiver free, a receive posted and its ACK not cached; then with its bytes all there |
| RelNet.LastArrivalCompletes | proto/reliability.c:380-451 | the arrival that makes them all completes the operation, and its ACK completes the sender |
| RelNet.CompletesExactlyWhenAllArrived | proto/reliability.c:380-451 | without other frames it completes once, if and only if all have arrived and its ACK is not cached; when it is, nothing changes |
| RelNet.TransmissionCompletes | proto/reliability.c:380-451 | then the last arrival adds exactly this operation, with its total length, to the completed ones |
| RelNet.FramesArePieces | proto/reliability.c:108-143 | the sender's frames are exactly the pieces, no u32 product wraps |
| RelNet.FrameInFull | proto/reliability.c:108-143 | every frame names its connection, operation, round, piece, place and count |
| RelEngine.CacheIsExact | proto/reliability.c:66-77 | the ring holds exactly the last min(n, 16) completed operations, pairwise different |
| RelEngine.RxOp.OnData | proto/reliability.c:380-451 | the receiver with its ring computes the specified step |
| RelEngine.RxOp.FindCachedAck | proto/reliability.c:46-64 | the scan finds the cached ACK of the operation |
| RelEngine.TxOp.Start | proto/reliability.c:79-106 | start computes its specification |
| RelEngine.TxOp.Next | proto/reliability.c:108-143 | the next frame computes its specification |
| RelEngine.TxOp.OnTimeout | proto/reliability.c:145-169 | a timeout computes its specification |
| RelEngine.TxOp.OnAck | proto/reliability.c:171-214 | an ACK computes its specification |
| OrderQueue.ReleasesArePushesInOrder | proto/reliability.c:240-349 | over any run the drains taken together are a prefix of the pushes in order |
| OrderQueue.FirstStatusWins | proto/reliability.c:280-320 | the first status an operation is given is the one it is released with |
| OrderQueue.StatusIsGiven | proto/reliability.c:280-320 | statuses come only from marks of that operation and from flushes |
| OrderQueue.QueuedAreDifferent | proto/reliability.c:256-301 | over any run the queued operations are pairwise different, so a mark can mean only one |
| OrderQueue.PushTakesEffect | proto/reliability.c:256-278 | a push appends exactly when there is room and the operation is not queued; what each other code means |
| OrderQueue.MarkTakesEffect | proto/reliability.c:280-301 | a mark gives exactly the queued operation without a status that status, and changes no other; what each other code means |
| OrderQueue.FlushTakesEffect | proto/reliability.c:303-320 | a flush gives exactly the positions without a status its own |
| OrderQueue.MarkedGetsStatus | proto/reliability.c:280-349 | over any run a marked operation is released with the status of its first mark |
| OrderQueue.ReadyIsReleased | proto/reliability.c:322-349 | over any run an operation that is ready, with everything before it ready, is released by the next drain with room |
| OrderQueue.DrainPrefix | proto/reliability.c:322-349 | a drain releases a ready prefix and stops only where it must |
| OrderQueue.Queue.Init | proto/reliability.c:240-248 | a queue of a legal capacity starts empty |
| OrderQueue.Queue.Push | proto/reliability.c:256-278 | the ring refines the FIFO's push; slots outside the live window stay clear |
| OrderQueue.Queue.Mark | proto/reliability.c:280-301 | it refines mark |
| OrderQueue.Queue.Flush | proto/reliability.c:303-320 | it refines flush |
| OrderQueue.Queue.Drain | proto/reliability.c:322-349 | it refines drain |
| ReadSpec.ScatterWrites | kernel/ibdev.c:6693-6729 | a successful scatter writes exactly its bytes into the concatenated segments; without faults it succeeds whenever it fits |
| ReadProof.AccountingHolds | kernel/ibdev.c:6744-6783 | for arbitrary frames: waiting fragments are distinct pieces sorted beyond `received`, and the no-space answer never happens |
| ReadProof.HandleInv | kernel/ibdev.c:8659-8747 | every frame keeps this |
| ReadProof.SuccessIsFinal | kernel/ibdev.c:8659-8747 | after success no frame changes anything |
| ReadSnapshot.SuccessMeansSnapshot | kernel/ibdev.c:8659-8747 | a read that succeeds holds exactly the responder's snapshot, whatever order, duplicates, failed allocations and copies came before |
| ReadSnapshot.CompletesExactlyWhenAllArrived | kernel/ibdev.c:8659-8747 | without faults a read succeeds if and only if every fragment has arrived at least once |
| ReadSnapshot.FailureIsFinal | kernel/ibdev.c:1510-1533 | a failed read never succeeds later |
| ReadEngine.ReadCtx.CopyToSegments | kernel/ibdev.c:6693-6729 | the segment walk computes the scatter |
| ReadEngine.ReadCtx.StoreFrag | kernel/ibdev.c:6744-6783 | storing computes its specification and keeps the byte counter exact |
| ReadEngine.ReadCtx.DrainFrags | kernel/ibdev.c:6785-6807 | the drain loop terminates and computes its specification |
| ReadEngine.ReadCtx.HandleReadResp | kernel/ibdev.c:8659-8747 | the handler computes its specification |
| ReadAnswer.AnswersExactly | kernel/ibdev.c:8659-8747 | for every reachable read and frame the answer and the status given, by what the frame is: a remote error, a malformed or contradicting frame or a failed copy is answered with an error, an early one with a request to repeat, the one that completes the read with OK, a repeat or partial progress not at all; a read no longer queued answers OK |
| ReadAnswer.RunsAnswerExactly | kernel/ibdev.c:8659-8747 | over every run: a queued read without a status answers OK if and only if this frame makes it succeed, and an error if and only if it makes it fail |
| ReadAnswer.OkMeansSnapshot | kernel/ibdev.c:8659-8747 | an OK answer means that the segments hold the snapshot of the responder |
| AppleProof.SuccessIsOneWholeMessage | kernel/ibdev.c:5711-5836 | for an in-order stream of whole messages, any posting and any exhaustion: completions follow message order, and SUCCESS is exactly one whole message |
| AppleProof.TakenExactly | kernel/ibdev.c:5584-5641 | while no receive is posted a message is held intact if and only if it finds a slot, fits both limits and memory lasts; otherwise it is dropped whole or fails |
| AppleProof.DroppedWhole | kernel/ibdev.c:5768-5811 | a message without a slot passes without a trace and the port is back in step behind it |
| AppleProof.DrainAccounted | kernel/ibdev.c:5538-5582 | draining uses receives in order and waiting messages in order |
| AppleStatus.StatusHasItsCause | kernel/ibdev.c:5538-5641 | over any run: SUCCESS only when nothing went wrong with the message and it fits, a length error only when it does not fit or a size limit stopped it, a protection error only when a copy failed or memory ran out; a message taken without trouble into a receive without fault succeeds if and only if it fits |
| AppleStatus.IntactSucceeds | kernel/ibdev.c:5538-5582 | a message held intact that fits its receive completes with SUCCESS and its bytes |
| AppleStatus.TakesExactly | kernel/ibdev.c:5584-5641 | a frame is appended if and only if 16 MiB, the two size parameters and memory allow it; otherwise only the status changes |
| AppleStatus.MisshapenIgnored | kernel/ibdev.c:5724-5727 | a frame that is empty or longer than 4096 bytes is not looked at |
| AppleStatus.PostsExactly | kernel/ibdev.c:5322-5341 | a receive is taken behind the others unless the ring is full |
| AppleStatus.NothingWaitsNeedlessly | kernel/ibdev.c:5538-5582 | over any run, once a frame has come in no finished message waits beside a posted receive |
| AppleStatus.LostStartDeliversTheEnd | kernel/ibdev.c:5743-5749 | when the start of a message is lost its last frame, and only that, is taken as a message of its own |
| AppleEngine.ApplePort.RxAppleFrame | kernel/ibdev.c:5711-5836 | the port with its slot ring and byte counter computes the specified step |
| AppleEngine.ApplePort.DrainPending | kernel/ibdev.c:5538-5582 | the drain loop computes its specification, and the byte counter stays the bytes held |
| AppleEngine.ApplePort.CopyPiece | kernel/ibdev.c:5584-5641 | the copy with its limits computes its specification |
| AppleEngine.ApplePort.OpenSlot | kernel/ibdev.c:5474-5496 | a slot is opened exactly when one is free and the limits are not 0 |
| AppleEngine.ApplePort.FinishSlot | kernel/ibdev.c:5498-5512 | the finished slot joins the waiting ones |
| AppleEngine.Grow | kernel/ibdev.c:5610-5625 | the growth loop always reaches the required size |
| Handshake.DataReadyMeansBothEnabled | kernel/tbv.h:312-319 | under any interleaving, loss, duplication and delay a data-ready rail implies both nodes negotiated and both tunnels up |
| Handshake.ReadySentIsTheLastEdge | kernel/native_control.c:692-778 | the local READY is always the last readiness edge |
| Handshake.ReadyRailsArePublished | kernel/native_control.c:257-344 | a data-ready rail has been published, or its worker's check is pending and will publish it; nothing else is published |
| Handshake.WhoCompletes | kernel/native_control.c:304-344 | the completing step is a handler that publishes at once or the worker with its check to come |
| Handshake.BothCanGetReady | kernel/native_control.c:357-490 | the protocol can bring both rails to published |
| HandshakeLive.AlwaysCanGetReady | kernel/native_control.c:654-788 | from every reachable state, whatever was lost or given up before, the run can go on until both rails are data-ready and published |
| HandshakeLive.ReadyMeansSaid | kernel/native_control.c:395-490 | over any run a node that counts its READY as sent has sent READY or READY_ACK, and one that counts the other's as received was sent one |
| HandshakeLive.ReadyIsHeeded | kernel/native_control.c:257-490 | a handled READY counts at once, is answered only with the tunnel up, and only an answer that was sent counts as the node's own |
| HandshakeLive.HelloIsHeeded | kernel/native_control.c:395-490 | a HELLO or late HELLO_ACK negotiates the rail, and only a HELLO is answered |
| HandshakeLive.AsksOnlyWhenNeeded | kernel/native_control.c:738-745 | a worker sends READY if and only if its tunnel is up and its READY does not count yet |
| HandshakeLive.ChecksPublish | kernel/native_control.c:721-778 | both checks of the worker publish the rail when the tunnel is up and both READYs are in |
| HandshakeLive.GivenUpButReady | kernel/native_control.c:738-745 | a failed exchange counts all the same if and only if the rail became data-ready meanwhile |
| HandshakeEngine.RailControl.HandlePacket | kernel/native_control.c:395-490 | a READY is acknowledged exactly when the tunnel is up and the reply can be sent, and only then counts as our own |
| HandshakeEngine.RailControl.Work | kernel/native_control.c:654-788 | one uninterrupted pass: which flags it sets, when exactly it asks for a retry (fewer than 5, 20 or 10 attempts at the stage that failed), ready rails stay published, and it succeeds when all transactions do |
| HandshakeEngine.RailControl.MarkRemoteReady | kernel/native_control.c:257-302 | the lock region computes its specification |
| HandshakeEngine.RailControl.MarkLocalReadySent | kernel/native_control.c:304-344 | the lock region computes its specification |
| HandshakeEngine.FindRail | kernel/native_control.c:91-113 | the scan finds the first native rail that matches |
| SendQueue.CounterIsExact | kernel/ibdev.c:1283-1325 | sendq_count is exactly the number of counted contexts, at most max_send_wr, and never 0 when one is released |
| SendQueue.LeavesInOrder | kernel/ibdev.c:1414-1553 | sends, and reads, leave in posting order; every other queued one failed to post |
| SendQueue.StatusIsSetOnce | kernel/ibdev.c:1455-1489 | a status once set is never replaced by a completion or a flush |
| SendQueue.CompletionTakesEffect | kernel/ibdev.c:1455-1489 | a completion gives the context it finds exactly its status, unless that has one, and no other |
| SendQueue.FlushTakesEffect | kernel/ibdev.c:1702-1720 | a flush gives exactly -125 to each send without a status |
| SendQueue.SendsLeaveAsGiven | kernel/ibdev.c:1455-1489 | over every run each send that has left has the status of the first completion for it, or -125 from a flush |
| SendQueue.ReadsLeaveAsGiven | kernel/ibdev.c:1510-1553 | the same for reads, which a flush reports cancelled whatever they had |
| SendQueue.SlotsExactly | kernel/ibdev.c:1283-1325 | over every run a reservation succeeds if and only if the queue pair is live and fewer than max_send_wr sends and reads are queued or being prepared |
| SendQueue.DrainSplits | kernel/ibdev.c:1436-1453 | a drain removes exactly the ready prefix |
| SendQueue.SendQueues.ReserveSendq | kernel/ibdev.c:1283-1301 | a slot is reserved exactly when the queue pair is live and below its limit |
| SendQueue.SendQueues.UnqueueSend | kernel/ibdev.c:1414-1434 | a failed post removes its send and gives its count back |
| SendQueue.SendQueues.DrainReadySends | kernel/ibdev.c:1436-1453 | the loop computes its specification |
| SendQueue.SendQueues.CompleteSendOrdered | kernel/ibdev.c:1455-1489 | completion computes its specification |
| SendQueue.SendQueues.FlushSends | kernel/ibdev.c:1702-1720 | the flush computes its specification |
| Wire.ParseUndoesBuild | proto/native_data.h:130-171 | parsing an encoded header, with any payload behind it, gives the header back or the builder's verdict on it |
| Wire.BuildUndoesParse | proto/native_data.h:95-128 | building a parsed header restores its bytes except the two reserved ones |
| Wire.RoundTripExactly | proto/native_data.h:95-171 | in numbers: a header comes back from the wire if and only if its opcode is 1 to 11 and its length at most 4048, or 16 MiB when it announces a stream |
| Wire.ParsesExactly | proto/native_data.h:130-171 | the verdict of the parser on any bytes: which are recognised, and which of these are too long |
| Wire.HelloRoundTrip | proto/native_wire.h:147-265 | parsing a built control message returns every field, the sequence modulo 4 and the route without bit 63; other operations are refused |
| Wire.HelloAcceptedExactly | proto/native_wire.h:200-265 | exactly the bytes the parser takes for a control message |
| Wire.BuildHeader | proto/native_data.h:95-128 | the in-place builder writes the encoding over the first 48 bytes and touches nothing else |

## Left out

- RxProof.DeliveredOnceInOrderIntact: for a peer that sends SEND and SEND_IMM only; RDMA WRITE and READ_REQ entries of the reorder list, which share the PSN order, are not modelled.
- Reorder, send and READ timeouts, completion-queue overflow, queue-pair error and close: excluded events, because the code skips expected PSNs or flushes state on them.
- A failed post after PSN allocation leaves a gap in the PSNs; the receive claims are for a peer with one fixed message per PSN.
- Receive buffers travel with their work requests: a buffer is owned by its receive until it completes, and buffers of different receives or segments do not overlap.
- READ responses are handled one read at a time; that reads leave their queue as a ready prefix is stated for the queues.
- Advisory receive credits and reservations by owner: the code makes both advisory, and an unreserved enqueue uses up anonymous reservations.
- Credit resets by a second HELLO during traffic, and lost credits after a failed repost of a receive buffer, which count as loss.
- Raw streams: pages have an owner context, packets are neither cancelled nor hit a hard transmit error, and completions are taken between scheduling passes rather than inside one.
- PathLink.AtRestNothingWaits: for one direction, with the returned credits arrived; whether they can arrive depends on the peer's own streams, which `PathDuplex` and `PathDeadlock` settle.
- PathLink.PortRunsRefineFlow: for runs without hard transmit errors and without lost frames; the credit protocol itself has the step for a hard error.
- Selection of pages for zero copy, DMA mapping, rings, XDomain requests and work queues: foreign kernel interfaces.
- The CRC-trailed raw mode of the Apple receive path, and flushing it on error.
- Handshake.DataReadyMeansBothEnabled: for one rail; the bodies of HELLO messages beyond the transmit path, the scan over several rails, and the per-peer lock that serialises transactions; teardown and re-queueing of a rail.
- tbv_ibdev_rail_event itself: the model records that the publish event is issued, not what registration does with it.
- PathTx.PathPort.ScheduleTx: concurrent callers are represented only by the flag that turns them away, because a pass is one atomic step.
- SendQueue.SendQueues.ReserveSendq: counting the slot and marking the context are one step, while the code marks the context just after leaving the lock.
- SendQueue.SendQueues.CompleteSendOrdered: the read-side twin is modelled as a function only; RNR retries of a pending send change neither order nor count.
- HandshakeEngine.RailControl.Work: states the uninterrupted pass; that a failed READY exchange counts when the rail became ready meanwhile appears in the interleaved model.
