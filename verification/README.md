# Verified model of the NKN Rust SDK's protocols

This project models the parts of the SDK that follow a protocol, and proves what they keep over every
run and for every input:

- **NanoPay channels** (`NanoPay`, `SenderRuns`, `ClaimerLog`, `ClaimerLoss`, `ChannelReentry`,
  `FlushRace`, `RaceLoss`, `NanoPayChannel`, `AnyOrder`, `NanoPayDelivery`): a sender that issues
  cumulative payments and a claimer that accepts, rolls over and submits them. `NanoPay` holds the two
  classes and the step functions their methods are proved against, with what each of them means.
  `SenderRuns` proves that payments accumulate, `ClaimerLog` that the claimer's counters are what a plain
  log of its actions says, `ClaimerLoss` bounds what stays unsubmitted, `ChannelReentry` says exactly when
  a channel is counted twice, `FlushRace` exactly which accepted transactions are lost when the timed loop
  flushes beside the caller, and `RaceLoss` exactly when the claimer's books survive that.
  `NanoPayChannel` proves that with in-order delivery the claimer never claims more than was paid,
  `AnyOrder` says when that holds without order, and `NanoPayDelivery` proves that all of it is claimed
  when nothing goes wrong.
- **Messages** (`Serialization`, `SigChain`, `Addresses`, `Encryption`, `KeyNames`, `Batching`,
  `Outbound`): from one payload and a destination list to signed, bounded messages, and back to the
  payload at each receiver.
- **The racing RPC caller** (`RpcRace`): workers over rotated server lists sharing one result cell.
- **Sessions** (`SequenceNumbers`, `Acks`, `Connection`, `WindowShares`, `Session`): cyclic sequence
  numbers, acknowledgement ranges, resend bookkeeping, window shares, handshake and flow control.

Conventions. Objects the source updates in place are classes; each method's contract gives the new state
as a function of the old one, and runs are sequences of those steps. Heights, balances, RPC outcomes,
random values, the transaction check, the cipher, the hash and the signature are parameters; `Lawful`
(`Encryption.dfy`), `KeyPair` and `CollisionFree` (`Outbound.dfy`), `Sound` (`ClaimerLog.dfy`), `InOrder` (`NanoPayChannel.dfy`) and `Arrives`
(`AnyOrder.dfy`) say what is assumed of them. Option and result types are in `Common.dfy`.
Fixed-width integers wrap as in a release build (`MachineInts.dfy`).

Where the code differs from what its names or comments suggest, the model follows the code:

- A claim that is refused may already have closed the previous channel (src/nanopay.rs:359-366 come
  before the balance and expiration checks), and a forced flush after that submits the old channel's
  transaction and records its amount for the new one (src/nanopay.rs:313). While flushes do not overlap
  with claims this is the only step that breaks the flush bookkeeping: `ClaimerLoss.HealthyExactly`.
- A flush of the timed loop that a claim overtakes breaks it too, without any forced flush
  (src/nanopay.rs:305-313 beside 354-389). Over all interleavings a clear keeps the books exactly when its
  flush began on an open channel and nothing was taken and no channel left since: `RaceLoss.BookedExactly`,
  of which the stale forced flush is one case (`RaceLoss.StaleFlushIsLate`). Afterwards the bound on the
  loss fails by any amount: `RaceLoss.LossIsUnbounded`.
- Nothing remembers the ids of closed channels (src/nanopay.rs:354-367), so an old channel's payment
  that arrives after a switch is accepted and counted again: `ChannelReentry.ReentryExactly` and
  `AnyOrder.ReentryOverclaims`. Flushes that do not overlap submit one transaction twice only then:
  `ChannelReentry.SubmittedTwiceReenters`, `FlushRace.SubmittedAgainOverlaps`.
- A flush sends a copy of the pending transaction and then clears whatever is pending by then
  (src/nanopay.rs:305-310): `FlushRace.LostExactly`.
- Shared keys are cached under the lossy UTF-8 text of the remote key (src/utils.rs:70), which gives one
  name to all keys of equal length made of stray bytes: `KeyNames.StrayKeysShareName`. What follows for the
  lookups is `Encryption.LookupsRightExactly`.
- The loop that encodes acknowledgements leaves only when the queue is empty *and* the list is full
  (src/connection.rs:240-244), so it pops an empty queue whenever there are too few ranges:
  `Acks.EncodeAcks`. The meant guard is `Acks.EncodeAcksAsMeant`.
- Ids of one half-cycle window are popped greatest first (`Acks.HeapPopsGreatestFirst`), so no two ever
  form a range (`Acks.MaxHeapNeverMerges`), and a packet without counts is then skipped by the receiver
  (src/session.rs:610-615): `Acks.SendAckPacket`. On wider sets the heap's order is not transitive and
  promises nothing (`SequenceNumbers.NotTransitive`).
- The session calls `seq_in_between` with its arguments rotated (src/session.rs:635, 640, 646), which is
  wrong in exactly the cases of `SequenceNumbers.SessionBetweenDiffers`.
- A failed send is recorded under the id 0 (src/connection.rs:202-212): `Connection.ZeroIsQueuedWithoutSending`.
- Values below 0xFD are written as one byte but read as two (src/serialization.rs:36):
  `Serialization.VarU64RoundTrip`.

## Model

| member | source | states |
|---|---|---|
| NanoPay.Sender.IncreaseAmount | src/nanopay.rs:68-98 | issues the channel's cumulative amount, in a new channel when the current one is within the expiration margin; unchanged when the height is unknown |
| NanoPay.KeepsChannelExactly | src/nanopay.rs:70-76 | a payment keeps id and expiration and adds to the amount if and only if a channel is open and expires no sooner than one opened now; otherwise it starts a new channel |
| NanoPay.KeptWithinBlock | src/nanopay.rs:70-76 | so a channel opened at one height takes another payment at most until that height |
| NanoPay.IssuedMeans | src/nanopay.rs:80-97 | every field of the issued transaction, the fee included |
| SenderRuns.OneChannel | src/nanopay.rs:68-98 | while calls come in time, every transaction carries the channel's id and the sum paid so far, failed calls adding nothing |
| SenderRuns.OneChannelExactly | src/nanopay.rs:68-98 | over any sequence of calls the channel stays the same if and only if every call comes in time |
| SenderRuns.OneBlock | src/nanopay.rs:68-98 | the payments of one block go into one channel, and the last carries their sum |
| SenderRuns.FirstPay | src/nanopay.rs:51-98 | the first payment of a new sender opens a channel of that amount |
| NanoPay.Claimer.Amount | src/nanopay.rs:235-237 | the total over closed channels and the open one |
| NanoPay.Claimer.Close | src/nanopay.rs:239-241 | closes, and changes nothing else |
| NanoPay.Claimer.Flush | src/nanopay.rs:261-316 | submits the pending transaction unless skipped, absent or failing, with the whole new state |
| NanoPay.FlushOutcome | src/nanopay.rs:277-315 | a flush sends exactly when it is forced or enough is unflushed and a payment is pending; then it succeeds if and only if the send does, with exactly that submission, and a failed send is an error that changes nothing, forced or not |
| NanoPay.Claimer.SwitchChannel | src/nanopay.rs:354-367 | refuses a payment that adds nothing; for another channel flushes, then closes the current one |
| NanoPay.Claimer.Claim | src/nanopay.rs:318-390 | the whole outcome of one claim, errors in the code's order |
| NanoPay.AcceptedExactly | src/nanopay.rs:318-390 | a claim is accepted if and only if all its conditions hold of the state before it |
| NanoPay.ClaimEffect | src/nanopay.rs:354-389 | an accepted claim returns the new total, carries the old channel over and takes the payment's id, amount and expiration; a refused claim never changes the total, even when it closed a channel |
| NanoPay.RefusedByFirstFailing | src/nanopay.rs:318-382 | a claim is refused with the error of the first check that fails, in the order of the source |
| NanoPay.RefusedEffect | src/nanopay.rs:354-382 | exactly which refused claims change the state, and to what |
| ClaimerLog.ClaimerRefinesLog | src/nanopay.rs:277-313 | over every run the counters equal the per-channel log: the total is the sum of the last accepted amounts between rollovers, ids are constant and amounts strictly increase between two rollovers, the pending transaction is the last one not submitted |
| ClaimerLog.NoDoubleSubmission | src/nanopay.rs:277-313 | between any two submissions the second one's transaction is accepted: no acceptance is submitted twice |
| ClaimerLog.ClaimedNeverDecreases | src/nanopay.rs:354-389 | the claimed value never goes down, in any step and however it fails |
| ClaimerLoss.HealthyExactly | src/nanopay.rs:261-316 | when flushes are atomic, the flush bookkeeping survives a step if and only if it is not a forced flush of a closed channel's transaction |
| ClaimerLoss.HealthyRunsExactly | src/nanopay.rs:261-316 | over runs of atomic steps the bookkeeping is healthy at every point if and only if no step is such a flush |
| ClaimerLoss.BoundedLoss | src/nanopay.rs:354-367 | over runs of atomic steps without such flushes: 0 <= flushed <= amount, a live channel has nothing pending exactly when all of it is submitted, and claimed minus submitted is at most one threshold a closed channel plus the current remainder |
| ClaimerLoss.StaleFlushIsReachable | src/nanopay.rs:359-366 | a run in which a failed rollover and a forced flush leave the flushed amount above the channel's amount |
| ChannelReentry.ReentryExactly | src/nanopay.rs:354-389 | channel ids stay distinct through a step if and only if it is not an accepted claim of a channel closed before |
| ChannelReentry.ReentryOverRuns | src/nanopay.rs:354-389 | over a whole run the ids are distinct if and only if no claim entered a closed channel again |
| ChannelReentry.OneAmountPerChannel | src/nanopay.rs:235-237 | the claimed value is at least one last amount for each channel, and equal to it exactly when no channel has two epochs |
| ChannelReentry.ClaimedOncePerChannel | src/nanopay.rs:354-389 | the same over every run: equal exactly when no claim entered a closed channel again |
| ChannelReentry.SubmittedTwiceReenters | src/nanopay.rs:277-313 | one transaction is submitted twice only in a run that entered a closed channel again |
| ChannelReentry.SubmittedTwice | src/nanopay.rs:354-389 | a run in which that happens |
| FlushRace.FlushIsParts | src/nanopay.rs:261-316 | an uninterrupted flush is its copy and its clear, whatever the loop has under way |
| FlushRace.ClaimIsParts | src/nanopay.rs:318-390 | an uninterrupted claim is its flush, rollover and acceptance |
| FlushRace.ErasedExactly | src/nanopay.rs:305-313 | a clear erases an acceptance that its flush did not send exactly when the acceptance fell between the flush's copy and its clear |
| FlushRace.LostExactly | src/nanopay.rs:305-313 | over every interleaving of the caller's calls and the timed loop's flushes: an accepted transaction is cleared without any submission of it if and only if the flush that clears it began before it was accepted and no flush that began between that and the clear is completed |
| FlushRace.LostInside | src/nanopay.rs:145-213 | when flushes do not overlap: lost if and only if accepted inside the flush that clears |
| FlushRace.SubmittedAgainOverlaps | src/nanopay.rs:305-313 | one acceptance is submitted twice only by flushes that overlap |
| FlushRace.OvertakenIsLost | src/nanopay.rs:305-313 | any two accepted claims around the copy of a timed flush: the second transaction is lost |
| FlushRace.LossIsReachable | src/nanopay.rs:305-313 | two such claims of one channel, the second of a larger amount, which is lost |
| RaceLoss.ClaimIsAllowed | src/nanopay.rs:354-389 | the parts of any claim, made at any time, are among the allowed ones, so the results below cover every call |
| RaceLoss.RaceRefinesLog | src/nanopay.rs:318-390 | over every interleaving of claims and overlapping flushes the counters still equal the per-channel log |
| RaceLoss.UpToDateSinceBegin | src/nanopay.rs:277-308 | a flush is up to date if and only if it began right after an acceptance, and since then nothing was taken and no channel left |
| RaceLoss.BeginsOnOpenChannel | src/nanopay.rs:277-303 | it begins right after an acceptance if and only if a channel is open |
| RaceLoss.UpToDateByAmount | src/nanopay.rs:305-313 | while its channel is open, a flush is up to date if and only if what it sends is the channel's amount |
| RaceLoss.FinishHealthyExactly | src/nanopay.rs:310-313 | a clear keeps the flushed amounts right if and only if the amount sent is still the open channel's amount |
| RaceLoss.BookedExactly | src/nanopay.rs:305-313 | any allowed part keeps the flush bookkeeping if and only if it is not the clear of a flush that is no longer up to date |
| RaceLoss.BookedRunsExactly | src/nanopay.rs:145-313 | over every interleaving the books are right at every point if and only if every completed flush was up to date when it cleared |
| RaceLoss.StaleFlushIsLate | src/nanopay.rs:261-316 | for a flush that nothing interrupts, that condition is the one of atomic steps |
| RaceLoss.RaceLossIsBounded | src/nanopay.rs:354-367 | the bound on the loss over every interleaving whose completed flushes were up to date |
| RaceLoss.LossInEveryRace | src/nanopay.rs:354-367 | over every interleaving whatever: the same bound plus what was erased in channels left with nothing pending |
| RaceLoss.NothingErased | src/nanopay.rs:354-367 | that addition is 0 when every completed flush was up to date |
| RaceLoss.OvertakenBreaks | src/nanopay.rs:305-313 | any two accepted claims around the copy of a timed flush end with the first one's amount recorded against the second one's |
| RaceLoss.OvertakenIsReachable | src/nanopay.rs:305-313 | such calls exist inside one channel and across two, where more is recorded as flushed than the channel's amount |
| RaceLoss.LossIsUnbounded | src/nanopay.rs:354-367 | for every amount, calls of the source after which the loss exceeds the bound by that amount |
| NanoPayChannel.NeverOverclaims | src/nanopay.rs:68-98 | over every interleaving with an in-order link that loses and repeats, the claimer's total is at most the sum of the deltas, even if ids repeat or counters wrap |
| AnyOrder.ClaimerRuns | src/nanopay.rs:318-390 | the claimer of every system run, in any delivery order, is a run of the claimer, so all results about its runs apply |
| AnyOrder.NeverOverclaimsInAnyOrder | src/nanopay.rs:354-389 | however transactions are lost, repeated and reordered, the total is at most the sum of the deltas as long as no closed channel is entered again |
| AnyOrder.OverclaimsExactly | src/nanopay.rs:354-367 | once every payment has arrived, more is claimed than was paid if and only if a closed channel was entered again |
| AnyOrder.ReentryOverclaims | src/nanopay.rs:354-367 | a system run of two channels with ids of their own, paid 10 and 5, whose total is 25 |
| AnyOrder.ReorderingWithoutReentry | src/nanopay.rs:354-367 | an out-of-order run whose total is exactly what was paid |
| NanoPayDelivery.EverythingIsClaimed | src/nanopay.rs:354-389 | if claims come in order, at most a block late, covered and with working RPCs, each one is accepted and the total is exactly the sum of the deltas, across any number of channel resets |
| NanoPayDelivery.LatestClaim | src/nanopay.rs:17-19 | a new channel's first payment is admitted exactly up to one block late |
| RpcRace.WorkerAddresses | src/rpc.rs:100-111 | address j of worker i is server i + j round the list, without a concurrency each server comes first once; no servers is an error |
| RpcRace.SuccessIsFinal | src/rpc.rs:119-128 | once the shared result is a success it never changes |
| RpcRace.PostsAfterSuccess | src/rpc.rs:118-123 | after the first success a worker makes at most the one post it had already decided on |
| RpcRace.RaceOutcome | src/rpc.rs:98-141 | every finished race is a success exactly when some post succeeded, and then the first success to reach the lock; a failure means every worker tried its whole list |
| RpcRace.FailureTriedEverything | src/rpc.rs:108-129 | with the rotated lists, a final failure means every worker tried a full permutation of the server list and every attempt failed |
| RpcRace.RaceTerminates | src/rpc.rs:117-135 | every interleaving takes at most three steps an address, and never gets stuck before all workers finish |
| SequenceNumbers.NextSeqResidue | src/utils.rs:137-144 | the truncating remainder with its fix-up is the residue on the cycle, and never 0 |
| SequenceNumbers.NextSeqIsAction | src/utils.rs:137-144 | steps add up, zero steps stay put, the sentinel is never reached |
| SequenceNumbers.DistanceIsUnique | src/utils.rs:137-144 | every id reaches every other in exactly one number of steps below a turn |
| SequenceNumbers.StepBack | src/session.rs:638 | the step back used by the session undoes a step forward |
| SequenceNumbers.InBetweenIsCyclic | src/utils.rs:146-151 | the window test compares cyclic distances from the window's start |
| SequenceNumbers.SessionBetweenDiffers | src/session.rs:635-646 | the rotated call differs from the window test exactly at the start of a non-empty window, or on an empty window away from its start |
| SequenceNumbers.AckLoopNeverEntered | src/session.rs:645-646 | the loop over an acknowledged range is never entered |
| SequenceNumbers.CompareAntisymmetric | src/utils.rs:153-167 | swapping the arguments negates the result, 0 only for equal ids |
| SequenceNumbers.CompareExactly | src/utils.rs:153-167 | exactly which ids come before which, across the wrap too |
| SequenceNumbers.WindowOrder | src/utils.rs:200-211 | ids within less than half a cycle compare as their offsets do |
| SequenceNumbers.WindowTransitive | src/utils.rs:200-211 | on any such window the order is transitive |
| SequenceNumbers.NotTransitive | src/utils.rs:200-211 | on the whole cycle it is not |
| Acks.RangeIsWindow | src/session.rs:621-631 | an entry's expansion is the window from its start to its end |
| Acks.PopRun | src/connection.rs:246-255 | pops a maximal run of consecutive ids and nothing else |
| Acks.EncodeRuns | src/connection.rs:239-258 | the entries expand to exactly the popped ids; the loop fails exactly when there are fewer runs than the list limit |
| Acks.EncodeAcks | src/connection.rs:239-270 | with all-one counts dropped, the receiver's reading is still exactly the popped ids, for any pop order |
| Acks.EncodeAcksAsMeant | src/connection.rs:239-258 | with the meant guard: nothing lost, the queue is emptied exactly when its runs fit, and otherwise the list is full |
| Acks.RootIsGreatest | src/utils.rs:200-211 | for ids of one half-cycle window the root of a heap is the greatest |
| Acks.HeapPopsGreatestFirst | src/connection.rs:246-255 | so a heap of such ids pops them greatest first |
| Acks.MaxHeapNeverMerges | src/connection.rs:249-255 | ids popped greatest first never form a run |
| Acks.SendAckPacket | src/session.rs:610-620 | of any queue: a packet has no counts exactly when no neighbours are consecutive, and the receiver then looks at none of it; that is so of every heap of ids of one window |
| Connection.Conn.SetWindowSize | src/connection.rs:119-124 | sets the window, raised to the minimum |
| Connection.Conn.Transmit | src/connection.rs:188-219 | records a sent id once and unmarks it; a failed send halves the window and records the id 0 |
| Connection.Conn.DropEmpty | src/connection.rs:180-187 | forgets an id whose buffer is empty |
| Connection.Conn.ReceiveAck | src/connection.rs:79-117 | forgets an acknowledged id that is in flight |
| Connection.Conn.CheckTimeout | src/connection.rs:307-321 | queues every overdue id that is not queued yet, each once, in some order |
| Connection.TransmitEffect | src/connection.rs:178-219 | what a send records, when it was first sent, and that a failed one halves the window down to 1 |
| Connection.ForgetEffect | src/connection.rs:79-117 | an acknowledged or emptied packet is neither in flight nor queued any more, and nothing else changes |
| Connection.TimeOutEffect | src/connection.rs:307-321 | exactly the packets sent before the threshold and not yet queued time out |
| Connection.PassIsARun | src/connection.rs:307-321 | a timeout pass is a run of single timeouts, so the run results cover it |
| Connection.ResendsAreJustified | src/connection.rs:178-219 | over every interleaving: what is queued for resending is in flight, and an id other than 0 is queued twice only if it was sent in between |
| Connection.ZeroIsQueuedWithoutSending | src/connection.rs:202-212 | a run in which the id 0 is queued twice and never sent |
| WindowShares.SplitSum | src/session.rs:380-388 | equal shares add up to the packet count exactly when the connection keys are distinct |
| WindowShares.RenormalisedShares | src/session.rs:564-577 | every window is at least 1, their order is kept, and the sum is between the packet count and that plus one a connection |
| WindowShares.ShareExactly | src/session.rs:564-577 | each connection gets the part of the packet count that its window is of all windows, or 1 if that is less |
| Session.Sess.HandleHandshake | src/session.rs:346-396 | the whole effect of a handshake, its early returns included |
| Session.HandshakeExactly | src/session.rs:346-396 | exactly when a handshake is accepted; then window and mtu are the smaller of both offers, ids and connections are the announced ones; and what one that is not accepted leaves |
| Session.Sess.BuildConnections | src/session.rs:380-389 | one connection a key, all with the same share |
| Session.Sess.HandleClose | src/session.rs:432-439 | closes only an established session |
| Session.Sess.ReceiveControl | src/session.rs:586-682 | close, handshake or report, with the established flag sampled first; acknowledgement lists of different lengths drop the report, and acknowledgements redistribute the windows |
| Session.ControlEffect | src/session.rs:586-682 | a close packet closes exactly an established session, and a report is taken over exactly when it is larger |
| Session.Sess.WaitForSendWindow | src/session.rs:294-304 | returns a free window that really is free, or has used up every report and still lacks room |
| Session.Sess.Write | src/session.rs:529-562 | every error case; on success exactly the length added, within the window; for a stream the checks and then nothing |
| Session.WriteRefusedExactly | src/session.rs:529-543 | each error of a write before it waits, exactly when |
| Session.Sess.TotalWindow | src/session.rs:565-569 | the sum over all connections |
| Session.Sess.UpdateConnWindowSize | src/session.rs:564-577 | every window becomes its raised share |
| Session.UsedIsExact | src/session.rs:170-175 | the saturation and the cut to 32 bits lose nothing, and the test for room does not wrap |
| Session.HandshakeShares | src/session.rs:368-389 | an accepted handshake gives every connection the packet count over the number of pairs, which shares it out exactly when keys are distinct, and never gives more |
| Session.UpdateShares | src/session.rs:564-577 | the share results hold in every established session with connections |
| Session.AcksRedistribute | src/session.rs:601-677 | a packet with acknowledgements gives every connection of an established session its share |
| Session.FlowControl | src/session.rs:529-562 | over every run: bytes written <= bytes the peer read + window, a write past its wait fits and is at most the mtu, no underflow, closed implies established, window and mtu only shrink and are frozen once established |
| Session.EstablishedBy | src/session.rs:346-396 | an established session was established by one handshake of the run, whose offers bound window and mtu and whose ids are the remote ids |
| Session.WithinGrantedWindow | src/session.rs:356-358 | over every run: bytes written <= bytes the peer read + the window size announced by the accepted handshake |
| Serialization.Buffer.WriteVarU64 | src/serialization.rs:4-24 | appends the code of the value |
| Serialization.VarU64Layout | src/serialization.rs:4-24 | which values are written as one byte, and the tags of the longer forms |
| Serialization.FirstByteIsHighest | src/serialization.rs:65-85 | fixed-width values have their most significant byte first |
| Serialization.Buffer.WriteVarBytes | src/serialization.rs:40-43 | appends the length's code and the bytes |
| Serialization.Buffer.WriteU32 | src/serialization.rs:81-85 | appends four bytes, most significant first |
| Serialization.Buffer.WriteBool | src/serialization.rs:105-107 | appends one byte, 1 or 0 |
| Serialization.Buffer.ReadFixed | src/serialization.rs:65-103 | drains the bytes of a fixed-width value |
| Serialization.Buffer.ReadVarU64 | src/serialization.rs:26-38 | drains a value, the one-byte form as the code reads it |
| Serialization.Buffer.ReadVarBytes | src/serialization.rs:45-49 | drains a length and that many bytes |
| Serialization.FixedRoundTrip | src/serialization.rs:69-103 | fixed-width values come back and leave the rest |
| Serialization.VarU64RoundTrip | src/serialization.rs:4-38 | reading gives back what was written exactly from 0xFD on, and precisely what it gives below |
| Serialization.VarBytesRoundTrip | src/serialization.rs:40-49 | byte strings come back exactly from length 0xFD on, and precisely what happens below |
| Serialization.MeantRoundTrip | src/serialization.rs:40-43 | with the reading that fits the writer every byte string comes back |
| Serialization.VarU64PrefixFree | src/serialization.rs:4-24 | no code is the beginning of another |
| Serialization.VarBytesPrefixFree | src/serialization.rs:40-43 | nor for byte strings |
| SigChain.SerializeUnsigned | src/sigchain.rs:5-12 | writes the four fields in order |
| SigChain.SerializeMetadata | src/sigchain.rs:16-26 | writes the seven fields in order |
| SigChain.UnsignedIsInjective | src/sigchain.rs:5-12 | equal bytes if and only if equal fields, though the last one carries no length |
| SigChain.MetadataIsInjective | src/sigchain.rs:16-26 | equal bytes if and only if all seven fields are equal |
| SigChain.UnsignedRoundTrip | src/sigchain.rs:5-12 | id, next key, mining flag and the rest read back in this order |
| SigChain.MetadataRoundTrip | src/sigchain.rs:16-26 | nonce, data size, block hash, source, source key, destination and destination key read back in this order |
| Addresses.ParseUndoesMake | src/utils.rs:35-63 | parsing undoes building for every key and every identifier |
| Addresses.MakeUndoesParse | src/utils.rs:51-63 | building undoes parsing exactly for lower-case keys without a bare leading dot |
| Addresses.ParsesExactly | src/utils.rs:51-63 | an address parses if and only if it ends in 64 hexadecimal digits, alone or after a dot, and into what |
| Addresses.LastPartExactly | src/utils.rs:51-55 | the key text is what follows the last dot |
| Addresses.HexDecodeExactly | src/utils.rs:56-58 | exactly what decodes: digits in pairs, the first counting 16 times |
| Addresses.DigitMeans | src/utils.rs:56-58 | both cases of a digit have its value, and nothing else is a digit |
| Addresses.HexEncodeMeans | src/utils.rs:35-40 | every byte is written as two lower-case digits, the higher one first |
| Addresses.ParsingIgnoresCase | src/utils.rs:51-63 | the key may be written in either case |
| Addresses.AddMulticlientPrefix | src/utils.rs:119-125 | prefixes every destination, in order |
| Addresses.PrefixText | src/utils.rs:100-117 | the text of a prefixed address |
| Addresses.DecimalMeans | src/utils.rs:105 | the number in it is read back from its digits, which have no leading zero |
| Addresses.PrefixCommutes | src/utils.rs:100-117 | prefixing then building is building then prefixing |
| Addresses.SubClientDestinations | src/multiclient.rs:239 | sub-client i sends exactly to the address the peer's sub-client i registers |
| Addresses.PrefixIsInjective | src/utils.rs:100-106 | a prefixed address determines its number and its base |
| Addresses.SubClientsDiffer | src/multiclient.rs:87 | distinct sub-clients have distinct addresses, the unprefixed one included |
| Encryption.KeyCache.GetOrCompute | src/utils.rs:65-92 | the cached key if its name is known, else the agreed one, which is then cached |
| Encryption.CacheStaysRight | src/utils.rs:65-92 | an agreeing cache stays agreeing over any lookups whose remotes do not clash |
| Encryption.LookupsRightExactly | src/utils.rs:65-92 | from an empty cache every lookup of any sequence is right if and only if no two remotes share a cache name and differ in their agreed key |
| KeyNames.StrayKeysShareName | src/utils.rs:70 | keys of equal length made of stray bytes are cached under one name |
| KeyNames.StrayKeysClash | src/utils.rs:70-73 | two such keys are both looked up right if and only if their agreed keys are equal |
| KeyNames.StrayKeysExist | src/utils.rs:70 | two different 32-byte keys of this kind |
| KeyNames.UnreplacedNamesDiffer | src/utils.rs:70 | a name without a replacement character is the name of one key only |
| Encryption.EncryptForMany | src/client.rs:1113-1148 | each message carries the payload sealed under the random key of the call, and that key sealed for its destination under a nonce of its own; fails with the error of the first address that does not parse; the cache after both |
| Encryption.EncryptPayload | src/client.rs:1101-1171 | the same, and for a single destination the payload sealed directly under the shared key |
| Encryption.SealedMeans | src/client.rs:1114-1168 | what an encoded message holds, read back with the cipher: its nonces, and what unseals under which key |
| Encryption.DecryptPayload | src/client.rs:1173-1193 | opens both forms, with the error cases and the cache update |
| Encryption.OpenUndoesSeal | src/client.rs:1173-1193 | under the same shared key, opening gives back the sealed payload in both forms |
| Encryption.OpensExactly | src/client.rs:1173-1193 | exactly when a message opens and to what, lengths of nonces and key included |
| Encryption.ReceivePayload | src/client.rs:882-897 | decodes, decrypts when marked as encrypted, and tells the cache afterwards |
| Encryption.AfterUsesIsOneRun | src/client.rs:1101-1193 | any run of sends and receipts, failed ones included, leaves the cache of one sequence of lookups |
| Encryption.LookupAfterUses | src/utils.rs:65-92 | so after any run from an empty cache further lookups are right as long as no two remotes clash |
| Outbound.CreateOutboundMessage | src/client.rs:1266-1344 | a message with the given destinations, payloads, holding time and nonce, signed for each destination; fails with the error of the first address that does not parse |
| Outbound.SignatureVerifies | src/client.rs:1315-1339 | every signature verifies against the digest rebuilt field by field from the message |
| Outbound.SignaturesDiffer | src/client.rs:1315-1339 | two signatures of one sender are equal if and only if nonce, payload length, destination and destination key are |
| Outbound.SignedDataDiffers | src/client.rs:1321-1339 | equal signed metadata means equal nonce, destination and payload length |
| Outbound.SplitIntoMessages | src/client.rs:1018-1074 | delivers all items in order and once, in messages that are signed, non-empty, within the limit and tightly filled; fails exactly on an oversize item |
| Outbound.BatchesInBytes | src/client.rs:1018-1048 | in bytes of payloads, addresses and signatures: every message of a split is within the limit, and none has room for the first item of the next |
| Outbound.FewestMessages | src/client.rs:1018-1048 | no order-preserving split into fitting messages uses fewer |
| Batching.TightIsOptimal | src/client.rs:1028-1043 | a split whose batches lack room for the next item is a shortest one |
| Batching.NeighboursDoNotFit | src/client.rs:1028-1043 | two adjacent batches never fit together |
| Outbound.CreatePayloads | src/client.rs:1232-1264 | one sealed payload a destination, or one plain payload for all, marked as such; the cache after every outcome |
| Outbound.SendSingle | src/client.rs:1049-1074 | one message for all destinations, if payload and addresses fit together |
| Outbound.SendMessages | src/client.rs:989-1099 | succeeds exactly when addresses parse and sizes fit; then the written messages deliver exactly what is expected, with the given holding time and their own nonces; on any error nothing is written; the cache after every outcome |
| Outbound.LimitMeans | src/client.rs:1018-1062 | the size limit in bytes, for one payload and for several |
| Outbound.EveryDestinationReads | src/client.rs:1101-1193 | whatever sender and receivers sent and received before, from empty caches: each destination, in order and once, gets bytes from which its own key recovers the payload, encrypted or not |
| Outbound.ClientSend | src/client.rs:340-365 | what a successful send writes can be read by every destination, whatever was sent and received before; the next send starts from the longer history |

## Left out

- Reliable in-order delivery through `Session::read` and the data part of `receive_with`: that path is unfinished (src/session.rs:487-489, 662-669, 688-694). The 10-byte packet limit at src/session.rs:586 lies before decoding and is not part of the model.
- The bodies of stream writes: that branch is empty in the source (src/session.rs:548-549). A write longer than the 1024-byte send buffer is the outcome `BufferOverrun`, where the source panics.
- Blocking: `Session.Sess.WaitForSendWindow` takes the peer's reports as a list and gives up when it is used up, where the source keeps waiting. Notification channels and what happens when they are full are not modelled.
- A session mtu of 0, which makes the packet count infinite, and rounding of window sizes: sizes are real numbers.
- Retransmission timeouts (src/connection.rs:96-108): floating-point `tanh` on durations. The pass threshold is a parameter.
- The two removals of `receive_ack` (src/connection.rs:111-112) are one step, although the source releases the lock between them.
- The claimer's timed loop (src/nanopay.rs:145-213): when it flushes is left open, so it may begin a flush at any time. In `FlushRace` and `RaceLoss` calls are cut where the source waits, not between two lock acquisitions; in the other NanoPay modules flushes and claims are atomic steps.
- Overflow panics of debug builds: arithmetic wraps as in release builds. `SequenceNumbers.NextSeq` requires that its 64-bit sum does not overflow.
- Transactions and packets that do not decode or lack a part, on which the source panics: steps start from decoded values.
- Cipher internals, hashes, signatures, the protobuf codec and compression: parameters with laws.
- Name lookup of destinations (`process_dests`): `Outbound.SendMessages` starts from processed destinations. Identifiers are ASCII.
- The non-atomic read and insert of the shared-key cache under concurrent calls: one lookup is one step.
- `remove_identifier`, the `MultiClient` runtime, wallets, websocket handling and payload constructors: no property beyond their bodies.
- Fees appear in issued transactions but no property is stated about them.
- ClaimerLoss.HealthyExactly: is for flushes that nothing interrupts; `RaceLoss.BookedExactly` is the result for overlapping ones.
- ClaimerLoss.HealthyRunsExactly: is for the same runs; `RaceLoss.BookedRunsExactly` covers every interleaving.
- ClaimerLoss.BoundedLoss: is for the same runs; `RaceLoss.RaceLossIsBounded` and `RaceLoss.LossInEveryRace` cover every interleaving.
