# WinriseF agent: a verified model

A Dafny model of the parts of the WinriseF agent that move and present data, with proofs of what they promise.

- **Native file transfer.** `Segments` is the coverage tracker. `TransferProtocol` is the receive side as a state
  machine: every mutex section, atomic operation and positional write is one step, and the proofs hold for every
  interleaving of the workers, with dropped and retried segments. `TransferLifecycle` adds how a transfer ends.
  `LaneAssignment` is the fixed distribution of extents over 24 lanes with its 64-bit arithmetic, `Pipeline` the
  recycled-buffer channels between the two sides of one request, `BlockTransfer` the loops over blocks, short reads and
  partial writes, and `BufferPools`, `PoolBound` and `ConnectionTokens` are the buffer pool and why it never runs dry.
- **Memory benchmark and wire formats.** `Protocol` is the codec, `Framing` the extents on a lane, `Coverage` the
  extent bookkeeping and `MemoryTransfer` four lanes from sender to accepting receiver.
- **SVN patches.** `PatchFormat` and `PatchParser` are the incremental parser, `PatchOffline` a definition of the same
  result without any state, `PatchMeaning` what the result says in terms of the literal beginnings of lines,
  `PatchBudget` the memory budget and `PatchPrinter` the printer of added files.
- **Text check.** `Utf8` is well-formedness after section 4 of RFC 3629 and the chunked check of a working file.
- **Bounded state and pages.** `LruCache` is the cache behind patches, previews and sources, `Pagination` and
  `SvnHistory` are the page protocols, `XmlExport` is the XML form of an export with a reader, and `Tickets` the
  one-time tickets.

`dafny verify dfyconfig.toml` checks everything. Objects whose fields the source updates in place are classes whose
methods are proved against functions on values; the lemmas are about these functions. Concurrent parts are state
machines over their atomic steps.

## Findings

Where the code does something else than its documentation or a reader might expect, the model follows the code, and a
lemma says exactly when the expectation is met.

- A reservation is followed by a clock read that may fail (a clock before 1970). Then the segment stays Active without a
  lease and the transfer can never complete (`TransferProtocol.FailingClockStrands`); apart from that Active segments and
  leases correspond (`TransferProtocol.HeldExactlyUnlessClockFailed`).
- A segment may be requested again after its lease was dropped; "only once" holds for commits:
  `TransferProtocol.DroppedSegmentIsFree`, `TransferProtocol.CommittedBytesNeverChange`.
- A cancel can win the slot between rename and completion: `TransferLifecycle.CancelledAfterRename`; the exact
  condition is `TransferLifecycle.CleanupDecides`.
- The answer of the deletion is not looked at. `docs/native-file-v1.md` (section 2) promises that a failed or cancelled
  transfer deletes its temporary file; if the deletion fails, Cancelled or Failed is published all the same, and a
  completion that was confirmed before can still replace the destination: `TransferLifecycle.CancelledWithFailedRemoval`.
  The file is left exactly under the condition of `TransferLifecycle.EndedKeepsPartFileExactly`.
- Finishing a receive transfer as if it were a send leaves the temporary file
  (`TransferLifecycle.FinishSendLeavesPartFile`); when any transfer leaves it behind is
  `TransferLifecycle.LeftBehindExactly`.
- Lane offsets wrap for files larger than 2^64 - 24 * 64 MiB, and then not all lanes can end:
  `LaneAssignment.SucceedsExactlyWithinLimit`.
- An oversized value does not replace the cached one under its key: `LruCache.InsertedIsFound`.
- The parser's byte counter also counts kept bodies that a later section of the same path replaced
  (`PatchBudget.ReplacedBodyStillCounts`); it is exact exactly if none was: `PatchBudget.ParsedBudget`.
- A printed path that ends in a carriage return, or exceeds the line limit, does not come back, unless the cut falls
  inside a last U+FFFD, which the lossy decoding restores: `PatchPrinter.PathComesBack`.
- Two bytes of the lane header are not looked at: `Protocol.LaneHeaderCanonical`.
- A clock that goes back can make an unexpired ticket unusable (`Tickets.RefusedAfterClockWentBack`); under any clock
  `Tickets.AcceptedExactly` says exactly when a ticket is accepted.

## Model

| member | source | states |
|---|---|---|
| Segments.CountBounds | crates/winrisef-agent/src/file_transfer.rs:779-791 | an index is below the segment count exactly when the segment starts inside the file, and then it is non-empty and ends inside the file |
| Segments.SegmentsDisjoint | crates/winrisef-agent/src/file_transfer.rs:783-813 | different segments occupy disjoint byte ranges, in index order |
| Segments.CoversExactly | crates/winrisef-agent/src/file_transfer.rs:795-805 | the alignment, bounds and length tests together accept exactly the start and length of one whole segment, the one numbered by the quotient |
| Segments.SegmentAt | crates/winrisef-agent/src/file_transfer.rs:795-805 | a request names a segment exactly when some segment has this start and length |
| Segments.CompletedExactlyWhenAllComplete | crates/winrisef-agent/src/file_transfer.rs:844-846 | the byte counter never exceeds the size, and it equals the size exactly when every segment is Complete |
| Segments.CommitFits | crates/winrisef-agent/src/file_transfer.rs:822-833 | adding one more completed segment cannot overflow the counter |
| Segments.SegmentTracker.New | crates/winrisef-agent/src/file_transfer.rs:779-792 | a tracker exists exactly for a positive size and segment length, and begins with every segment Pending |
| Segments.SegmentTracker.Reserve | crates/winrisef-agent/src/file_transfer.rs:794-820 | granted exactly when the request is one whole Pending segment; which error otherwise; the segment becomes Active and nothing else changes |
| Segments.SegmentTracker.CompleteSegment | crates/winrisef-agent/src/file_transfer.rs:822-833 | succeeds exactly for an Active segment, which becomes Complete; the counter stays the exact sum of the Complete segments without wrapping |
| Segments.SegmentTracker.Release | crates/winrisef-agent/src/file_transfer.rs:835-842 | an Active segment becomes Pending, any other state is left alone |
| Segments.SegmentTracker.IsComplete | crates/winrisef-agent/src/file_transfer.rs:844-846 | the counter test is true exactly when every segment is Complete |
| TransferProtocol.ApplyKeepsInv | crates/winrisef-agent/src/file_transfer.rs:794-922 | every reserve, block write, commit and drop, in any order by any worker, keeps: counter = sum of Complete segments, Active segments and live leases one to one (but for stranded ones), written and committed bytes are in the file |
| TransferProtocol.CommitSucceeds | crates/winrisef-agent/src/file_transfer.rs:408-410 | a lease whose bytes are all written always commits, with the counter raised by exactly the segment length |
| TransferProtocol.CompleteExactlyWhenCovered | crates/winrisef-agent/src/file_transfer.rs:844-846 | in every reachable state completion is reported exactly at full coverage |
| TransferProtocol.DroppedSegmentIsFree | crates/winrisef-agent/src/file_transfer.rs:916-922 | dropping an uncommitted lease makes its segment Pending again, and the next request for it is granted |
| TransferProtocol.LeasesAreExclusive | crates/winrisef-agent/src/file_transfer.rs:814-819 | no two live leases share a segment, and the segment of a live lease is Active |
| TransferProtocol.ActiveExactlyWhenHeld | crates/winrisef-agent/src/file_transfer.rs:348-356 | in every reachable state a segment is Active exactly when a live lease holds it or it is stranded: reserved before a clock read that failed |
| TransferProtocol.HeldExactlyUnlessClockFailed | crates/winrisef-agent/src/file_transfer.rs:347-356 | after any run from the start Active segments and live leases correspond one to one exactly if no granted request of the run was followed by a failing clock read, and only then can the transfer be complete |
| TransferProtocol.FailingClockStrands | crates/winrisef-agent/src/file_transfer.rs:348-349 | any request for a Pending segment with a failing clock read leaves it Active without a lease, and no continuation releases it or completes the transfer |
| TransferProtocol.StrandedForever | crates/winrisef-agent/src/file_transfer.rs:348-349 | a segment reserved before a failing clock read is never released, and the transfer never completes |
| TransferProtocol.CompletableUnlessStranded | crates/winrisef-agent/src/file_transfer.rs:844-922 | from any reachable state some continuation completes the transfer exactly if no segment is stranded, and with the source as the file if what was stored so far is the source's |
| TransferProtocol.CommittedBytesNeverChange | crates/winrisef-agent/src/file_transfer.rs:872-884 | once a segment is committed no later action of any worker changes its state or its bytes in the file |
| TransferProtocol.PayloadIsFront | crates/winrisef-agent/src/file_transfer.rs:822-846 | if the first n segments are committed, the file begins with their committed bytes in order |
| TransferProtocol.CompleteIsFinal | crates/winrisef-agent/src/file_transfer.rs:844-846 | once complete, no lease is left, the file is exactly the committed payloads in order, and every further action is refused |
| TransferProtocol.HolderIsUndisturbed | crates/winrisef-agent/src/file_transfer.rs:872-884 | whatever other workers do in between, the bytes under a lease are exactly the blocks its holder wrote, in order |
| TransferProtocol.UploadCommitsItsBlocks | crates/winrisef-agent/src/file_http.rs:330-389 | an upload whose blocks add up to its segment commits exactly these bytes to its place in the file |
| TransferProtocol.FaithfulTransferIsComplete | crates/winrisef-agent/src/file_transfer.rs:454-460 | if every holder writes its own part of a source, then after any run with any number of dropped and retried segments a complete transfer equals the source byte for byte |
| TransferProtocol.WritesAreOneSplice | crates/winrisef-agent/src/file_http.rs:340-355 | the block writes of one upload, as steps of the protocol, do to the file what BlockTransfer.DataFile.WriteBlocks does: one splice of all blocks from where the lease was up to |
| TransferLifecycle.ApplyKeepsInv | crates/winrisef-agent/src/file_transfer.rs:454-546 | every step of install, complete, cancel, fail, finish-send and cancel-all, interleaved with the workers, with failing flush, rename and deletion, keeps the lifecycle invariant |
| TransferLifecycle.AtMostOneTerminalEvent | crates/winrisef-agent/src/file_transfer.rs:454-521 | in every run a transfer gets at most one of Complete, Failed and Cancelled |
| TransferLifecycle.RecordsAdvance | crates/winrisef-agent/src/file_transfer.rs:666-680 | renaming and deleting are final, and complete segments stay as they are, whatever happens later |
| TransferLifecycle.InstalledExactlyWhenFree | crates/winrisef-agent/src/file_transfer.rs:552-641 | a new transfer is installed exactly while nobody holds the slot; it has its temporary file and every segment Pending, and the others are untouched |
| TransferLifecycle.CompletionIsAnnounced | crates/winrisef-agent/src/file_transfer.rs:454-482 | completing a covered transfer that nobody ends publishes Confirming and Complete, replaces the destination and leaves the slot free, from any reachable state |
| TransferLifecycle.CompleteUnlessSlotTaken | crates/winrisef-agent/src/file_transfer.rs:474-482 | a completion that has renamed the file publishes Complete exactly if nobody took the slot since, whatever else happened in between |
| TransferLifecycle.OwedUntilAnnounced | crates/winrisef-agent/src/file_transfer.rs:474-521 | whoever took the slot owes one event, Complete or the outcome it came with; it stays owed until exactly that event is in the log, in every continuation |
| TransferLifecycle.EndIsAnnounced | crates/winrisef-agent/src/file_transfer.rs:493-546 | cancel publishes Cancelled, fail publishes Failed and cancel-all nothing, whether or not the deletion works; the slot is free afterwards |
| TransferLifecycle.FailedCompletionChangesNothing | crates/winrisef-agent/src/file_transfer.rs:472-475 | a flush or rename that fails leaves all but the Confirming event as it was |
| TransferLifecycle.DeliverableUnlessStranded | crates/winrisef-agent/src/file_transfer.rs:454-482 | from any reachable state the transfer that holds the slot can still be brought to its Complete event, with the source in the destination, if no segment is stranded |
| TransferLifecycle.StrandedIsNeverDelivered | crates/winrisef-agent/src/file_transfer.rs:348-349 | with a stranded segment no continuation ever publishes Complete for the transfer |
| TransferLifecycle.CompletedReached | crates/winrisef-agent/src/file_transfer.rs:454-482 | a concrete run from the start in which an upload is received and Complete is published |
| TransferLifecycle.CompleteMeansDelivered | crates/winrisef-agent/src/file_transfer.rs:454-482 | a Complete event implies full coverage, the rename, and that the destination holds the committed payloads in order from then on |
| TransferLifecycle.CompleteDeliversSource | crates/winrisef-agent/src/file_transfer.rs:454-482 | end to end: in every run from the start whose workers write their own parts of a source, a Complete event means that the destination equals the source from then on |
| TransferLifecycle.LeftBehindExactly | crates/winrisef-agent/src/file_transfer.rs:484-546 | after any run from the start, a receive transfer that left the registry still has its temporary file exactly if no completion renamed it and it was finished as a send, or its deletion failed, or its deletion is still to be asked for |
| TransferLifecycle.EndedKeepsPartFileExactly | crates/winrisef-agent/src/file_transfer.rs:971-975 | after a Cancelled or Failed event of a receive transfer the temporary file is still there exactly if its deletion failed and no completion renamed it |
| TransferLifecycle.OnlyRenameMatters | crates/winrisef-agent/src/file_transfer.rs:462-475 | once nobody will ask for the deletion any more, only a rename by a confirmed completion changes what becomes of the file, in every continuation |
| TransferLifecycle.CleanupDecides | crates/winrisef-agent/src/file_transfer.rs:493-546 | the cleanup deletes the file for good exactly if it was still the temporary one and the deletion worked; the destination is replaced exactly if a completion renamed the file before, or does later because the deletion failed |
| TransferLifecycle.CancelledAfterRename | crates/winrisef-agent/src/file_transfer.rs:474-482 | a concrete run in which a cancel takes the slot after the rename: Cancelled is published although the destination was replaced |
| TransferLifecycle.CancelledWithFailedRemoval | crates/winrisef-agent/src/file_transfer.rs:971-975 | a concrete run in which the deletion fails: Cancelled is published with the temporary file still there, and a confirmed completion can then replace the destination |
| TransferLifecycle.FinishSendLeavesPartFile | crates/winrisef-agent/src/file_transfer.rs:484-491 | a concrete run in which finish-send takes the slot of a receive transfer and leaves its temporary file |
| LaneAssignment.OffsetOf | crates/winrisef-agent/src/file_webtransport.rs:376-383 | the wrapping 64-bit product is the start of the item's extent below 2^38 extents, and the start of an earlier extent beyond |
| LaneAssignment.NextOutcome | crates/winrisef-agent/src/file_transfer.rs:383-398 | what a lane's next request meets: a Pending extent that is granted, the end of the file, or - wrapped - a refusal by the lane check |
| LaneAssignment.ApplyKeepsInv | crates/winrisef-agent/src/file_webtransport.rs:226-231 | in every interleaving of the 24 lanes each extent is Pending, Active or Complete exactly as its own lane has advanced |
| LaneAssignment.NeverRefused | crates/winrisef-agent/src/file_webtransport.rs:226-231 | for a file of at most 2^64 - 24 * 64 MiB no request of any lane is ever refused, in any interleaving |
| LaneAssignment.EndedIsComplete | crates/winrisef-agent/src/file_webtransport.rs:195-213 | when all lanes have ended, the file is complete |
| LaneAssignment.SucceedsExactlyWithinLimit | crates/winrisef-agent/src/file_webtransport.rs:372-384 | when all lanes have stopped: all of them ended, with the file complete, exactly if the size is at most 18446744072098938880, which is 2^64 - 24 * 64 MiB |
| LaneAssignment.EveryScheduleStops | crates/winrisef-agent/src/file_webtransport.rs:195-236 | every effective step uses up work, and nothing can be done exactly when every lane has stopped |
| LaneAssignment.CompletableExactlyWithinLimit | crates/winrisef-agent/src/file_webtransport.rs:195-236 | from every reachable state some continuation ends all lanes with the file complete if the size is within the limit; beyond it no schedule does |
| Pipeline.ApplyKeepsInv | crates/winrisef-agent/src/file_http.rs:298-389 | every step of either side keeps: bytes put out, in hand and queued are the segment read so far in order; every buffer is in exactly one place; a side gives up exactly after a fault |
| Pipeline.SendersNeverBlock | crates/winrisef-agent/src/file_http.rs:298-327 | with as many places as buffers no channel send ever waits |
| Pipeline.NeverStuck | crates/winrisef-agent/src/file_webtransport.rs:293-369 | as long as one side has not ended, some step is possible |
| Pipeline.EveryStepIsProgress | crates/winrisef-agent/src/file_webtransport.rs:293-369 | every step lowers a measure, so every run ends |
| Pipeline.AtRest | crates/winrisef-agent/src/file_http.rs:298-389 | at rest both sides have ended; both succeeded exactly if no read or write of the run failed, and then the whole segment was put out; the buffers are all back, and none is left in a channel whose receiver is gone |
| Pipeline.OutputIsWhatWasPutOut | crates/winrisef-agent/src/file_http.rs:322-385 | what was put out is, block after block, what the draining side reported, with the part that a failing write got through |
| Pipeline.WriterGivesUp | crates/winrisef-agent/src/file_http.rs:342-349 | a writer that hands its buffer back gives up exactly in an upload whose receiving side gave up |
| Pipeline.OutputIsPrefix | crates/winrisef-agent/src/file_http.rs:298-389 | at any moment what was put out is a prefix of the segment |
| Pipeline.BlocksFitBuffers | crates/winrisef-agent/src/file_http.rs:308-309 | at any moment no block under way is empty, and each fits into one buffer |
| Pipeline.FilledBlock | crates/winrisef-agent/src/file_http.rs:308-312 | a filled block is the next part of the data, a whole buffer of it unless the data end |
| BlockTransfer.HttpConnection.NextBlock | crates/winrisef-agent/src/file_http.rs:365-378 | a block takes the bytes read ahead first and then those of the socket, exactly the next ones |
| BlockTransfer.HttpConnection.ReceiveSegment | crates/winrisef-agent/src/file_http.rs:356-385 | the blocks are exactly the first `len` bytes of what was read ahead and what follows, the rest stays for the next request; it fails exactly if there are fewer |
| BlockTransfer.DataFile.WriteAllAt | crates/winrisef-agent/src/file_transfer.rs:872-884 | succeeds exactly if the system stores the block's bytes before it stores none or fails, and which of the two errors otherwise; the whole block is stored exactly on success, a prefix of it and nothing else on failure |
| BlockTransfer.DataFile.WriteBlocks | crates/winrisef-agent/src/file_http.rs:340-355 | succeeds exactly if the system stores every block and they add up to `len` bytes; which error otherwise, the first block's that fails; the blocks are stored one after the other from the offset, and nothing outside is touched |
| BlockTransfer.DataFile.ReadExactAt | crates/winrisef-agent/src/file_transfer.rs:858-870 | succeeds exactly if the bytes are in the file and the system supplies them before it supplies none or fails, and then they are in the buffer |
| BlockTransfer.DataFile.SendSegment | crates/winrisef-agent/src/file_http.rs:302-320 | succeeds exactly if the segment is in the file and the system supplies every block of it; the blocks are the segment in order, full but for the last |
| BlockTransfer.Upload | crates/winrisef-agent/src/file_http.rs:330-390 | one request from socket to file: with a willing system it succeeds exactly if `len` bytes come, and then exactly the first `len` incoming bytes are at the segment's place; a short stream is the end-of-stream error, anything else a refusal of the system |
| BufferPools.BufferPool.NewLazy | crates/winrisef-core/src/buffer_pool.rs:50-62 | a pool exists exactly for a positive count and size, and begins with nothing allocated |
| BufferPools.BufferPool.Acquire | crates/winrisef-core/src/buffer_pool.rs:64-84 | fails exactly when every buffer is lent out; a buffer is never lent twice; the last one returned is reused first, otherwise a new one is allocated |
| BufferPools.BufferPool.Return | crates/winrisef-core/src/buffer_pool.rs:167-176 | the storage becomes available again and is no longer lent |
| BufferPools.PooledBuffer.SetLen | crates/winrisef-core/src/buffer_pool.rs:121-130 | accepted exactly up to the block size |
| BufferPools.ReuseReturned | crates/winrisef-core/src/buffer_pool.rs:64-84 | acquiring after returning gives the same storage |
| PoolBound.ApplyKeepsInv | crates/winrisef-agent/src/file_http.rs:161-279 | every step of the permit or lane discipline keeps: lent = held by requests and by orphaned workers, and all claims fit the pool |
| PoolBound.NeverExhausted | crates/winrisef-core/src/buffer_pool.rs:64-84 | for any number of permits or lanes, and any number of buffers each of them uses, a pool of as many buffers is never found exhausted, and available + lent = allocated stays within its count |
| PoolBound.SlotGetsItsBuffers | crates/winrisef-agent/src/file_http.rs:299-302 | from any reachable state a free permit or lane can begin and take all the buffers it works with, whatever the others hold |
| PoolBound.TransferPoolsSuffice | crates/winrisef-agent/src/file_transfer.rs:611-619 | 6 permits of 2 buffers never exhaust a pool of 12, and 24 lanes of 1 buffer never exhaust one of 24 |
| PoolBound.NothingLentAfterTheEnd | crates/winrisef-agent/src/file_http.rs:251-279 | after the transfer was removed the claims of its requests and orphans only shrink |
| PoolBound.SlotCanFinish | crates/winrisef-agent/src/file_http.rs:251-279 | a permit or lane that works can give all its buffers back and be free again |
| PoolBound.BrokenNeverWorksAgain | crates/winrisef-agent/src/file_http.rs:251-279 | in every continuation a lane that failed stays out of use, and the permit of a failed request comes back only to a transfer that is gone |
| PoolBound.NoneBeginsAfterRemoval | crates/winrisef-agent/src/file_http.rs:161-170 | once the transfer was removed no request begins any more |
| PoolBound.AllCanComeBack | crates/winrisef-core/src/buffer_pool.rs:167-176 | from any reachable state all buffers can come back to the pool |
| ConnectionTokens.Tokens.Consume | crates/winrisef-agent/src/file_transfer.rs:711-756 | a connection opens exactly for the right data plane, direction and peer, before a cancellation, for an existing index and its own token, in time, and the first time; the token is used up exactly then |
| ConnectionTokens.AtMostOneConnection | crates/winrisef-agent/src/file_transfer.rs:718-755 | in any series of attempts an index is admitted at most once, and exactly once if some attempt passes all the other checks with its token |
| PatchParser.FeedConcat | crates/winrisef-agent/src/svn_patch.rs:85-100 | feeding a stream in two pieces is feeding it at once |
| PatchParser.FeedSegment | crates/winrisef-agent/src/svn_patch.rs:86-98 | the segment-wise branch structure of push does the same as byte-wise reading |
| PatchParser.SvnPatchParser.FinishCurrentFile | crates/winrisef-agent/src/svn_patch.rs:160-189 | the file record is inserted with the body its flags and the two limits allow |
| PatchParser.SvnPatchParser.ExtendSection | crates/winrisef-agent/src/svn_patch.rs:130-153 | what one line does to the open section: sticky flags, body and counters |
| PatchParser.SvnPatchParser.FinishCurrentLine | crates/winrisef-agent/src/svn_patch.rs:113-158 | what the end of a line does to the parser |
| PatchParser.SvnPatchParser.Push | crates/winrisef-agent/src/svn_patch.rs:85-100 | push keeps the state of having read everything so far byte by byte |
| PatchParser.SvnPatchParser.FinishStream | crates/winrisef-agent/src/svn_patch.rs:102-111 | finish closes an open line and the open section |
| PatchOffline.RawLinesCutTheText | crates/winrisef-agent/src/svn_patch.rs:85-86 | cutting into lines loses nothing: the lines are each ended once and concatenate to the text |
| PatchOffline.RawLinesUnique | crates/winrisef-agent/src/svn_patch.rs:85-86 | there is only one way to cut a text into lines |
| PatchOffline.ParserIsOffline | crates/winrisef-agent/src/svn_patch.rs:85-190 | the incremental parser's result equals the offline definition by lines, sections, hunks, limits and budget |
| PatchOffline.Parse | crates/winrisef-agent/src/svn_patch.rs:33-37 | for every way to cut the stream into push calls the result is the offline one of the whole stream |
| PatchBudget.SumExact | crates/winrisef-agent/src/svn_patch.rs:176-188 | kept bodies add up to at most the counter, and to exactly the counter when no kept body was replaced |
| PatchBudget.WithinBudget | crates/winrisef-agent/src/svn_patch.rs:173-177 | the counter never exceeds the total limit |
| PatchBudget.ParsedBudget | crates/winrisef-agent/src/svn_patch.rs:160-189 | kept bodies <= retained_bytes <= total limit for every stream; equality exactly when no later section of the same path replaced a kept body |
| PatchBudget.ReplacedBodyStillCounts | crates/winrisef-agent/src/svn_patch.rs:176-188 | if an Index line comes twice, the counter exceeds what the result holds |
| PatchBudget.ParsedLookup | crates/winrisef-agent/src/svn_patch.rs:180-188 | a path gives the record of its last section, or nothing if it has none |
| PatchMeaning.ParsedMeaning | crates/winrisef-agent/src/svn_patch.rs:113-189 | by literal bytes: each Index line whose path no later one names has a record; its additions and deletions are its lines beginning with + or - that stand between an @@ line and the next property changes, it is binary exactly if one of its lines says so, a kept body is its text |
| PatchMeaning.CountsSeen | crates/winrisef-agent/src/svn_patch.rs:142-152 | the counts of a section are the numbers of these lines |
| PatchMeaning.PropertyLinesDoNotCount | crates/winrisef-agent/src/svn_patch.rs:296-302 | the shape of the repository's own example: one removed and two added lines, and none behind the property changes |
| PatchMeaning.CutIsSection | crates/winrisef-agent/src/svn_patch.rs:116-129 | from one Index line to the next is one section, and the later sections begin at later Index lines |
| PatchMeaning.MimeSeen | crates/winrisef-agent/src/svn_patch.rs:206-208 | trimming and then looking for text/ finds it exactly if only White_Space characters stand before it |
| PatchMeaning.TypeLine | crates/winrisef-agent/src/svn_patch.rs:202-209 | a line naming a type that begins visibly makes its section binary exactly if the type does not begin with text/ |
| PatchPrinter.AddedFilePatch | crates/winrisef-agent/src/svn_patch.rs:211-227 | the printed patch is the header, the hunk header with the line count, one added line for each line of the text, and the remark for a missing last line end |
| PatchPrinter.TextLineByLine | crates/winrisef-agent/src/svn_patch.rs:212 | the text that is printed is line by line the decoded content, with exactly one carriage return gone from each line that ends in CR LF |
| PatchPrinter.DecimalReads | crates/winrisef-agent/src/svn_patch.rs:217 | reading the digits of the hunk header gives the line count back, without a superfluous zero |
| PatchPrinter.LineText | crates/winrisef-agent/src/svn_patch.rs:192-200 | a line is cut at the limit and loses one carriage return; it comes through unchanged exactly when it fits and does not end in a carriage return |
| PatchPrinter.PathComesBack | crates/winrisef-agent/src/svn_patch.rs:116-118 | the path read back is the lossy decoding of the cut path; it is the printed one exactly when that fits its line and does not end in a carriage return, or ends in U+FFFD with the cut inside this character |
| PatchPrinter.PrintedSection | crates/winrisef-agent/src/svn_patch.rs:211-227 | a printed patch is one section with the text's line count as additions and no deletions |
| PatchPrinter.PrintedPatchParses | crates/winrisef-agent/src/svn_patch.rs:85-227 | parsing a printed patch gives one file under the path read back: the patch itself as body unless NUL or a limit forbids it, the text's line count as additions, zero deletions |
| Utf8.WellFormedIsCharString | crates/winrisef-version-control/src/repository/diff.rs:371-372 | well-formed is exactly: a string of characters of the grammar in section 4 of RFC 3629 |
| Utf8.IncompleteExactlyWhenExtensible | crates/winrisef-version-control/src/repository/diff.rs:373-376 | an error without a length is reported exactly for the proper beginning of a character |
| Utf8.WellFormedExactlyWhenValid | crates/winrisef-version-control/src/repository/diff.rs:371-372 | the decoder accepts exactly the well-formed texts |
| Utf8.MalformedForever | crates/winrisef-version-control/src/repository/diff.rs:373 | after an error with a length no continuation is well-formed |
| Utf8.LossyIdentity | crates/winrisef-agent/src/svn_patch.rs:169-170 | the lossy conversion leaves a text unchanged exactly if it is well-formed |
| Utf8.LossyStep | crates/winrisef-agent/src/svn_patch.rs:169-170 | in the lossy conversion a character stays, and elsewhere one U+FFFD stands for the longest beginning of a character, or for one byte |
| Utf8.LossyOfCut | crates/winrisef-agent/src/svn_patch.rs:117-118 | the lossy conversion gives back a well-formed text that was cut exactly if the cut falls inside a last U+FFFD |
| Utf8.InvalidWorkdirText | crates/winrisef-version-control/src/repository/diff.rs:358-380 | true exactly if the whole file holds NUL or is not well-formed UTF-8, for every split into reads; at most three bytes are carried between reads |
| LruCache.PatchConfig | crates/winrisef-agent/src/svn_patch.rs:6-7 | the limits are 33554432 bytes and 3 patch sets, each counted with the bytes it keeps |
| LruCache.PreviewConfig | crates/winrisef-agent/src/svn_repository.rs:23-24 | the limits are 16777216 bytes and 8 previews, each counted with the length of both texts as far as that is within the limit |
| LruCache.SourceConfig | crates/winrisef-agent/src/svn_repository.rs:25-26 | the limits are 33554432 bytes and 64 sources, each counted with its length |
| LruCache.EvictsShortestPrefix | crates/winrisef-agent/src/svn_repository.rs:137-151 | what is evicted is the shortest possible prefix of the oldest entries, and afterwards there is room |
| LruCache.InsertedBounded | crates/winrisef-agent/src/svn_repository.rs:177-199 | an insertion keeps keys distinct and both limits |
| LruCache.InsertedIsFound | crates/winrisef-agent/src/svn_patch.rs:254-257 | a value is found after its insertion exactly when it is not oversized or was there already: an oversized value leaves an old one in place |
| LruCache.OthersKeepTheirValue | crates/winrisef-agent/src/svn_repository.rs:177-199 | an insertion changes what another key yields only by evicting it |
| LruCache.RunBounded | crates/winrisef-agent/src/svn_repository.rs:106-214 | after any run keys are distinct and both limits hold |
| LruCache.HitIsLatest | crates/winrisef-agent/src/svn_repository.rs:115-156 | after any run a hit yields the value of the last insertion that fitted |
| LruCache.HoldsMostRecent | crates/winrisef-agent/src/svn_repository.rs:115-156 | after any run the cache holds exactly the most recently used keys, in the order of their use |
| LruCache.Cache.Get | crates/winrisef-agent/src/svn_patch.rs:244-251 | a hit moves its key to the end of the order, a miss changes nothing; the result is the value under the key |
| LruCache.Cache.Insert | crates/winrisef-agent/src/svn_patch.rs:253-274 | table, order and byte counter together become the specified new cache; the early exit of the eviction loop is never needed |
| LruCache.Cache.MakeRoom | crates/winrisef-agent/src/svn_patch.rs:261-270 | evicts from the oldest on until the value fits, and never runs out of entries before |
| LruCache.Cache.Clear | crates/winrisef-agent/src/svn_patch.rs:276-280 | forgets everything |
| LruCache.Cache.ClearWhere | crates/winrisef-agent/src/svn_repository.rs:201-214 | forgets exactly the selected keys, in whatever order they are visited, and keeps order and bytes exact |
| Protocol.NumberOfBigEndian | crates/winrisef-core/src/protocol.rs:43-54 | reading a big-endian number gives back the number written |
| Protocol.BigEndianOfNumber | crates/winrisef-core/src/protocol.rs:56-69 | every byte string is the big-endian form of the number it reads as |
| Protocol.EncodeHello | crates/winrisef-core/src/protocol.rs:43-54 | filling the buffer range by range yields the message layout |
| Protocol.HelloRoundTrip | crates/winrisef-core/src/protocol.rs:42-81 | decoding an encoded hello gives it back; refused are exactly the invalid ones |
| Protocol.HelloAccepted | crates/winrisef-core/src/protocol.rs:56-81 | byte by byte: exactly which 48 bytes are accepted as a hello, what is read from them, and which error comes first |
| Protocol.LaneHeaderAccepted | crates/winrisef-core/src/protocol.rs:136-149 | byte by byte: exactly which 32 bytes are accepted as a lane header, what is read from them, and which error comes first |
| Protocol.ExtentHeaderAccepted | crates/winrisef-core/src/protocol.rs:168-181 | byte by byte: exactly which 16 bytes are accepted as an extent header, and what is read from them |
| Protocol.HelloCanonical | crates/winrisef-core/src/protocol.rs:56-69 | a hello that is accepted is valid and encodes to the same bytes |
| Protocol.LaneHeaderRoundTrip | crates/winrisef-core/src/protocol.rs:124-149 | decoding an encoded lane header gives it back; refused are exactly the invalid ones |
| Protocol.LaneHeaderCanonical | crates/winrisef-core/src/protocol.rs:136-149 | an accepted lane header encodes to the same bytes exactly if the two reserved bytes were zero |
| Protocol.ExtentHeaderRoundTrip | crates/winrisef-core/src/protocol.rs:158-181 | decoding an encoded extent header gives it back; refused are exactly an empty or overflowing extent that is not the terminator |
| Protocol.ExtentHeaderCanonical | crates/winrisef-core/src/protocol.rs:168-181 | an accepted extent header encodes to the same bytes |
| Protocol.ExtentHeaderWritten | crates/winrisef-agent/src/file_webtransport.rs:386-409 | reading the 16 bytes of a native extent header and writing them again gives the same bytes |
| Coverage.CoverageTracker.New | crates/winrisef-core/src/coverage.rs:17-29 | a tracker exists exactly for a positive size and extent, and begins with nothing seen |
| Coverage.CoverageTracker.Record | crates/winrisef-core/src/coverage.rs:31-56 | accepts exactly a whole extent that was not seen before; which error otherwise; the byte counter stays the sum of the extents seen |
| Coverage.CoverageTracker.IsComplete | crates/winrisef-core/src/coverage.rs:58-64 | true exactly if every extent was seen |
| Coverage.RecordedExactly | crates/winrisef-core/src/coverage.rs:31-56 | a list of extents is accepted exactly if each is a whole extent and none comes twice, and what was seen is what the list names |
| Coverage.RecordedBytes | crates/winrisef-agent/src/transfer.rs:362-365 | the payload bytes counted are the bytes of the extents seen |
| Coverage.OrderIrrelevant | crates/winrisef-agent/src/transfer.rs:340-354 | whether extents are accepted does not depend on the order in which lanes deliver them |
| Framing.FramesRoundTrip | crates/winrisef-agent/src/transfer.rs:271-300 | the frames sent are the frames received, and what follows the terminator is left |
| Framing.FramesCanonical | crates/winrisef-agent/src/transfer.rs:401-427 | an accepted stream is the encoding of what was read from it |
| Framing.ExtentsAreSendable | crates/winrisef-agent/src/file_webtransport.rs:20-21 | no extent of a file is mistaken for the terminator or refused as a header, on either kind of lane |
| Framing.MarkerInBytes | crates/winrisef-agent/src/transfer.rs:401-411 | what 16 bytes mean at the beginning of a frame on either kind of lane: an extent, the end, or an error |
| Framing.SendPayload | crates/winrisef-agent/src/transfer.rs:288-297 | the blocks of an extent add up to it, each within the block size |
| Framing.ReceiveFrames | crates/winrisef-agent/src/transfer.rs:401-427 | the loop over headers and chunks of any size reads exactly the frames of the stream |
| Framing.ReceivePayload | crates/winrisef-agent/src/transfer.rs:412-425 | the pieces the network delivers add up to exactly the declared length, or the stream is truncated |
| MemoryTransfer.LaneExtentExact | crates/winrisef-agent/src/transfer.rs:318-330 | the checked arithmetic gives the item's extent, and ends the lane exactly behind its last extent |
| MemoryTransfer.LaneExtentInBytes | crates/winrisef-agent/src/transfer.rs:318-330 | in numbers: item k of a lane is the 16 MiB at 16777216 * (4 k + lane), cut at the end, and none behind it |
| MemoryTransfer.SendLane | crates/winrisef-agent/src/transfer.rs:254-300 | the lane stream is its header, every fourth extent with its payload, and the terminator |
| MemoryTransfer.LaneIsItsFrames | crates/winrisef-agent/src/transfer.rs:274-300 | the stream of a lane is the encoding of its frames |
| MemoryTransfer.LaneRoundTrip | crates/winrisef-agent/src/transfer.rs:372-435 | what a sender puts on a lane is what the receiver reads, with nothing behind it |
| MemoryTransfer.FourLanes | crates/winrisef-agent/src/transfer.rs:356-360 | four accepted streams are the four lanes: the final test of the lane bits cannot fail |
| MemoryTransfer.AcceptsExactly | crates/winrisef-agent/src/transfer.rs:332-370 | four well-formed streams are accepted, in any order of arrival, exactly if together they carry every extent once |
| MemoryTransfer.LanesPartition | crates/winrisef-agent/src/transfer.rs:318-330 | the four lanes of a sender carry every extent exactly once |
| MemoryTransfer.SentIsAccepted | crates/winrisef-agent/src/transfer.rs:224-370 | what four senders send is accepted, for every size, every order of the streams and every order of arrival |
| XmlExport.CdataRoundTrip | crates/winrisef-version-control/src/export.rs:334-336 | reading the CDATA sections (section 2.7 of XML 1.0) around any text gives back the text, including overlapping bracket runs |
| XmlExport.FiveReplacements | crates/winrisef-version-control/src/export.rs:325-332 | the five replacements in a row escape every character once |
| XmlExport.AttrRoundTrip | crates/winrisef-version-control/src/export.rs:325-332 | unescaping the predefined entities (section 4.6 of XML 1.0) undoes the five replacements, and the value ends at its own quote |
| XmlExport.FileElement | crates/winrisef-version-control/src/export.rs:164-170 | a file element is spelled as the format string says, with the three escaped attributes in their places |
| XmlExport.ContentElements | crates/winrisef-version-control/src/export.rs:178-191 | the content elements are spelled as the format strings say |
| XmlExport.WriteXml | crates/winrisef-version-control/src/export.rs:161-197 | the writer's loop produces the document |
| XmlExport.SectionTextReads | crates/winrisef-version-control/src/export.rs:178-191 | an element with a CDATA text reads as this text |
| XmlExport.FileTextReads | crates/winrisef-version-control/src/export.rs:164-193 | one file element reads as its record |
| XmlExport.DocumentRoundTrip | crates/winrisef-version-control/src/export.rs:161-197 | the reader defined here, which takes every character as it stands, gets every record back, whatever its paths and texts contain; a missing old path reads as an empty one |
| Pagination.PageWeighs | crates/winrisef-agent/src/version_control_bridge/pagination.rs:8-13 | the length of a page on the wire is that of its items, the commas between them, the digits of nextSkip and 39 or 40 more |
| Pagination.DigitsRead | crates/winrisef-agent/src/version_control_bridge/pagination.rs:38-42 | reading the digits of a cursor gives the number back |
| Pagination.SizeMonotone | crates/winrisef-agent/src/version_control_bridge/pagination.rs:37-45 | a page with more items is never shorter, although nextSkip may gain digits and true may become false |
| Pagination.LastFitting | crates/winrisef-agent/src/version_control_bridge/pagination.rs:54-64 | the binary search finds the last prefix that fits |
| Pagination.FitPagePrefix | crates/winrisef-agent/src/version_control_bridge/pagination.rs:32-65 | the largest fitting prefix; an error exactly if there are items and the first one alone does not fit |
| Pagination.BoundedPage | crates/winrisef-agent/src/version_control_bridge/pagination.rs:15-30 | the page with this prefix and the cursor that goes with it |
| Pagination.PagesAreExact | crates/winrisef-agent/src/version_control_bridge.rs:361-430 | both services answer with as many items from skip on as were asked for, at least 1 and at most 128 files or 64 commits, cut only where the list ends or where one more item would exceed 61440 bytes; none only if the first item alone does |
| Pagination.DiffFiles | crates/winrisef-agent/src/version_control_bridge.rs:409-436 | a file page is exactly that page, cut to at most 128 files |
| Pagination.ReadHistory | crates/winrisef-version-control/src/repository/history.rs:91-135 | the walk returns the matching commits from `skip` on, at least one if there is one, and at most the limit |
| Pagination.History | crates/winrisef-agent/src/version_control_bridge.rs:352-378 | a history page is exactly that page of the matching commits, cut to at most 64, computed with one commit looked ahead |
| Pagination.HistoryPageIsListPage | crates/winrisef-agent/src/version_control_bridge.rs:369-377 | looking one commit ahead tells exactly whether there are more, so a history page is a page of the matching commits |
| Pagination.ServicesAreHonest | crates/winrisef-agent/src/version_control_bridge.rs:422-435 | every page continues exactly where the last one ended, says truly whether there is more, and moves on if there is |
| Pagination.FollowDeliversAll | crates/winrisef-agent/src/version_control_bridge/pagination.rs:24-29 | following nextSkip until hasMore is false ends and delivers every item once and in order; it fails exactly if some item exceeds the budget alone |
| SvnHistory.History | crates/winrisef-agent/src/svn_repository.rs:311-376 | a page is the matching entries among the next revisions at the cursor, linked to their parents, with the next cursor |
| SvnHistory.PageFacts | crates/winrisef-agent/src/svn_repository.rs:326-338 | a page covers exactly the next entries, as many as were asked for but at least 1 and at most 31, and hasMore is true exactly if older entries exist |
| SvnHistory.FollowDeliversAll | crates/winrisef-agent/src/svn_repository.rs:311-376 | following the cursor delivers the query-filtered log, whatever the page sizes |
| SvnHistory.HistoryIsComplete | crates/winrisef-agent/src/svn_repository.rs:311-376 | from the first page on every matching revision up to the head comes exactly once, in strictly decreasing order |
| SvnHistory.CursorNeverRestarts | crates/winrisef-agent/src/svn_repository.rs:318-323 | while there is more the cursor is not 0, which would start over, and it strictly decreases |
| SvnHistory.ParentsAreOlder | crates/winrisef-agent/src/svn_repository.rs:359-372 | every parent named on a page is an older revision |
| SvnHistory.ParentsAreNearest | crates/winrisef-agent/src/svn_repository.rs:359-372 | an item names as its parent the newest older node, be it on the page or where the next page begins, and none exactly if there is no older node |
| Tickets.DifferenceIsZeroExactlyForEqual | crates/winrisef-agent/src/auth.rs:168-173 | the or of all byte differences is zero exactly for equal tokens |
| Tickets.TicketAuthority.ConsumeLaunchToken | crates/winrisef-agent/src/auth.rs:50-71 | accepted exactly if unused, unexpired and equal; only then it becomes used |
| Tickets.TicketAuthority.IssueTicket | crates/winrisef-agent/src/auth.rs:77-102 | prunes, refuses at 64 pending tickets, and otherwise appends the new one |
| Tickets.TicketAuthority.ConsumeTicket | crates/winrisef-agent/src/auth.rs:104-131 | removes the last ticket with the token, prunes, and accepts exactly if the removed one has not expired |
| Tickets.LaunchAtMostOnce | crates/winrisef-agent/src/auth.rs:64-71 | over all callers the launch token is accepted at most once, and exactly once if a right attempt comes in time |
| Tickets.IssuedExactly | crates/winrisef-agent/src/auth.rs:87-93 | a ticket is issued exactly if fewer than 64 tickets of the store have not expired; while the clock does not go back, exactly if fewer than 64 that were issued and not consumed have not |
| Tickets.AcceptedExactlyWhenAvailable | crates/winrisef-agent/src/auth.rs:77-131 | while the clock does not go back a ticket is accepted exactly if one with its token was issued, not consumed and has not expired |
| Tickets.NeverMoreThanIssued | crates/winrisef-agent/src/auth.rs:77-131 | under any clock the acceptances of a token never exceed its issues, and at most 64 tickets are pending |
| Tickets.AcceptedExactly | crates/winrisef-agent/src/auth.rs:77-131 | under any clock: a ticket issued once expires after 120000 ms, and it is accepted exactly if it was not accepted before, has not expired, and no call since its issue read a time past its expiry; a token never issued is refused |
| Tickets.RefusedAfterClockWentBack | crates/winrisef-agent/src/auth.rs:117-123 | a concrete run with a clock that goes back in which an available ticket is refused because it was pruned |

## Left out

- QUIC, TLS, WebTransport and TCP sessions, timeouts, certificates, metrics, logging and the HTTP request parser; streams
  are byte sequences, channels bounded queues.
- Native dialogs, the registry, firewall scripts, the command line and start-up.
- libgit2, `svn`, JSON and XML libraries: a commit walk is a list with a match function, a log a descending list, an item
  of a page its JSON text.
- Idle and hard expiry of transfers, progress events, and the bookkeeping of selected sources; randomness and clock
  readings are inputs. Locks are not poisoned.
- Dropping a whole connection handler (server shutdown) while it holds a request permit; `PoolBound` covers requests that
  return.
- `finish_session`, `stash_diff`, `native_patches` and `records_from_diff`: list and map transformations over libgit2
  results, which would only add easy members.
- Markdown, JSON and text exports, and the full-context diff; they have no reader to be undone by.
- Control characters that are not in Char (section 2.2 of XML 1.0): the writer puts them out unchanged, the reader of
  `XmlExport` takes them, and a conforming XML processor refuses the document.
- End-of-line handling and attribute-value normalisation of a real XML processor (sections 2.11 and 3.3.3 of XML 1.0): a
  carriage return in a text, or a tab or line break in a path, is changed by such a reader.
- The `ExtentScheduler`, `FileSelection`, `HelloAck` and `TransferResult`: short or single-branch facts.
- `truncate_text`, the limit of 64 refs and the other per-commit renderings; a commit is rendered by a function.
- The contents of buffers beyond their logical length, and the allocation order of buffers.
- PatchOffline.Parse: requires both limits below the largest `usize`, where the saturating sums of the source are exact.
- LruCache.Cache.Insert: requires a byte limit below the largest `usize`, which all three caches have.
- Pagination.FollowDeliversAll: the list must not change while a client follows the cursor; diff sessions and fixed logs
  give that, a repository with new commits does not.
- BlockTransfer.Upload: takes in the whole segment before it writes; how the two sides run at the same time, and what an
  interrupted request leaves inside its own segment, is in `Pipeline` and `TransferProtocol`.
- Tickets.AcceptedExactly: the condition is for a token that was issued once or never; the 16 bytes are random, and what a
  repeated draw would do under a clock that goes back is not described (`Tickets.NeverMoreThanIssued` covers it).
- Tickets.AcceptedExactlyWhenAvailable: for clocks that do not go back, where it also covers repeated tokens;
  `Tickets.AcceptedExactly` covers every clock.
