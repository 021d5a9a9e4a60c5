# Verification of the Skyrim decompression cache and its hooks

A Dafny 4.11 model, with proofs, of the parts of this repository whose
correctness spans several functions, several threads or a crash:

- the on-disk cache format, its validator, and the writer that appends in place
  or replaces a file, under a disk that may keep any subset of the writes since
  the last flush (`ByteCodec`, `CacheFormat`, `Validator`, `CacheDisk`,
  `CacheAppend`, `CacheCommit`, `CacheCalm`, `CacheWriter`, `CacheFlush`,
  `CacheFresh`, `CacheStore`, `CacheSession`);
- admission, flush, reconciliation and eviction under a hard byte cap
  (`Sums`, `Admission`, `AdmissionControl`, `CacheLimit`, `RecordedFlush`);
- the side state of compressed streams, which may switch once from the stock
  decompressor to cached bytes, and their clones (`StreamState`,
  `CompressedStream`, `StreamClone`);
- the shared counters, cursors, tables and handshakes (`CasLoop`, `RangeClaims`,
  `ByteBudget`, `SourceTable`, `SourceSeqlock`, `SourceProbe`, `SingleFlight`,
  `StreamRegistry`, `Worker`, `WarmPrefix`);
- resumable slice delivery in the Fallout 4 inflate hook (`SliceServe`).

`Basics` holds what several modules share.

`dafny verify dfyconfig.toml` checks everything.

## How it is built

Objects that the source updates in place are classes with the same fields, and
its loops are loops. Where threads interleave, a module has a state, a step per
critical section or atomic access, an invariant that every step keeps, and a
theorem over all runs. The two meet in ghost histories: `CacheFile.trail` holds
every storage state a file has been in, `DecompCache.run` every action performed,
`HookedStream.log` every call as its caller saw it; class invariants say what is
true of the whole history, so any sequence of method calls is covered.

File operations, allocations, loads and page faults succeed or fail as
parameters or, on files that are not marked reliable and in the stock
decompressor, nondeterministically; so contracts say both what holds whatever
fails, and what is achieved when nothing does. The checksum is a parameter:
any function from payloads to 32 bits.

## Where the code falls short of its intent

Each of these is a property that is false in one corner. The model keeps the
code as it is, proves the exact condition, and gives a concrete case where the
condition does not itself say which inputs fail.

- A flight that was written but could not be mapped, and is then given up because
  the queue cannot grow, releases charges for bytes that are on disk. The cap can
  then be exceeded (`Admission.UnsafeDropBreaksTheCap`). A drop is harmless if and
  only if what is on disk, what stays charged and what could then still be admitted
  fit the cap, which is computed before it (`Admission.DropFitsIff`; the only-if needs
  an archive that can record); runs whose drops all fit stay within the cap
  (`Admission.HardCap`).
- If the opening directory scan fails, the counted total stays zero while files exist,
  and records are admitted past the cap (`Admission.UncountedStartBreaksTheCap`). Every
  run without drops from an idle start stays within the cap if and only if its files and
  the bytes that could be admitted fit it (`Admission.IdleStaysWithinCapIff`; only-if
  given an archive that can record). A later complete scan repairs the books exactly
  while the cap still holds (`Admission.ScanRepairsIff`).
- After the rollback of a header that had been written, if its flush fails, the next
  append is not crash safe: its payload may reach the disk together with that header
  (`CacheCommit.UnsettledAppendMayMix`). A rollback from before the header write leaves
  a safe file safe, whichever of its steps fail. An append is crash safe up to its
  rollback if and only if every crash image of the file it found decodes to its records
  (`CacheStore.AppendFile`). In every state that loads and appends reach, that is if and
  only if what was flushed last is accepted and nothing issued since touches its
  header, used index slots or payloads (`CacheStore.SettledIffCalm`,
  `CacheSession.Session`); the next flush that succeeds restores it.
- A fresh file whose flush was skipped because a load was signalled is renamed all the
  same, and a crash may leave nothing of it; it survives if and only if it was flushed
  (`CacheStore.NewFileIsSettledIff`).
- If bookkeeping throws, the call is passed to the decompressor while the side state
  keeps its old cursor, so a byte can be delivered twice
  (`CompressedStream.BypassRepeats`, `CompressedStream.BypassAfterCacheRepeats`). That
  is right, for this call and all later ones, if and only if no cursor is known, or the
  call is a read of nothing, one without a buffer, or one with cursor and decompressor
  both at the end; or a seek of unknown mode, one from the beginning or the end to the
  cursor, or a relative one that leaves the decompressor at the cursor, by nothing or
  against an end of the payload at which the cursor stands
  (`CompressedStream.HookedStream.ReadBypassed`, `SeekBypassed`, `Expose`).
- An exception inside an eviction pass loses the demand the pass took over
  (`CacheLimit.ThrowDropsADemand`): exactly the demands above those recorded meanwhile
  (`CacheLimit.ThrowLosesExactly`).
- A clone of a cache-backed stream is handed out at the stale decompressor
  position if and only if its parent's state cannot be looked up, or its own state
  cannot be published after its decompressor could not be moved
  (`StreamClone.DoClone`, `StreamClone.CloneStrands`).
- A rejected admission fits after its eviction if and only if it and the then
  pending bytes fit the cap together (`CacheLimit.MetDemandFitsIff`).
- A fresh file for an archive of more than 1,000,000 entries is written and then
  always rejected (`CacheFresh.FreshAccepted`).
- A partial first slice whose share of the packed size is less than one byte leaves
  the stream looking reset, and is delivered again; the next call continues if and only
  if the first consumed input (`SliceServe.TinyFirstSliceRepeats`,
  `SliceServe.FirstTwoCalls`, `SliceServe.FirstSliceConsumes`).
- A chunk delivered whole counts all its input as consumed but leaves the input pointer
  where it was; the slices move both together (`SliceServe.SliceState.Begin`,
  `SliceServe.DeliverSpelled`).
- An expired negative answer is taken for refresh by one reader only while it is in the
  table; of one in the overflow every lookup misses (`SourceTable.Table.Find`).
- Retirement erases a stream's map entry before it marks the state, so the
  thread-local shortcut can still answer with it in between; a hit agrees with the map
  if and only if no such retirement is under way
  (`StreamRegistry.ShortcutAgreesWithMap`, `StreamRegistry.ShortcutSeesErasedState`).

## Model

| member | source | states |
|---|---|---|
| CacheFormat.HeaderRoundTrip | Skyrim/src/CacheFormat.h:27-37 | decoding an encoded header gives the header back, for every header |
| CacheFormat.HeaderExact | Skyrim/src/CacheFormat.h:27-48 | encoding a decoded header gives back exactly the 44 bytes it came from |
| CacheFormat.HeaderLayout | Skyrim/src/CacheFormat.h:27-37 | the header is 44 bytes with its fields little-endian at these positions |
| CacheFormat.EntryRoundTrip | Skyrim/src/CacheFormat.h:39-49 | decoding an encoded index entry gives the entry back |
| CacheFormat.EntryLayout | Skyrim/src/CacheFormat.h:39-49 | index entry i is the 20 bytes at 44 + 20 i, with its fields little-endian at these positions |
| CacheFormat.WellFormedRepresents | Skyrim/src/CacheFormat.h:209-261 | a well-formed file is exactly its header, its index and its payloads end to end, with distinct offsets and legal sizes, and the valid size is where they end |
| CacheFormat.RepresentsWellFormed | Skyrim/src/CacheFormat.h:209-261 | conversely, any good header with good records laid out that way is well formed and decodes to those records |
| CacheFormat.RepresentsFrame | Skyrim/src/CacheFormat.h:219-254 | two files that agree up to the end of the payloads decode to the same records |
| CacheFormat.EntryExact | Skyrim/src/CacheFormat.h:39-49 | encoding a decoded index entry gives back exactly the 20 bytes it came from |
| CacheFormat.RepresentsExact | Skyrim/src/CacheFormat.h:219-254 | and conversely: two files with the same header and records agree on every byte of header, used index slots and payloads |
| CacheFormat.PrefixStable | Skyrim/src/DecompCache.cpp:1075-1094 | if a file with a tail is accepted, its first `validSize` bytes alone are strictly accepted with the same header and records; tail recovery relies on it |
| CacheFormat.TableConcat | Skyrim/src/DecompCache.cpp:413-435 | the offset-to-payload map of two record lists after one another is the union of their maps |
| CacheFormat.TableLookup | Skyrim/src/DecompCache.cpp:413-435 | with distinct offsets, looking up a record's offset gives that record's payload |
| Validator.RepeatsSurviveSorting | Skyrim/src/CacheFormat.h:255-260 | sorting and looking at neighbours finds a duplicate exactly when the unsorted offsets have one |
| Validator.HasDuplicate | Skyrim/src/CacheFormat.h:255-260 | the sort and adjacent search report a duplicate if and only if two offsets are equal |
| Validator.CheckHeader | Skyrim/src/CacheFormat.h:182-207 | no error if and only if the header is good for the expected archive; otherwise the first failing test is named |
| Validator.CheckEntries | Skyrim/src/CacheFormat.h:219-254 | no error if and only if every entry is contiguous, bounded and, in full mode, checksummed; otherwise the first bad entry and its fault |
| Validator.EntryErrorsMatter | Skyrim/src/CacheFormat.h:222-254 | an entry error means the file is not valid |
| Validator.Validate | Skyrim/src/CacheFormat.h:163-269 | no error if and only if the declarative predicate holds; the returned header, data start and valid size are those of the file; each error code explains a real defect; all sums stay within 64 bits |
| CacheDisk.ReplayMayRemain | Skyrim/src/DecompCache.cpp:698-716 | what readers see now is one of the images a crash may leave |
| CacheDisk.SparedRemains | Skyrim/src/DecompCache.cpp:671-708 | whatever subset and part of the in-flight writes a crash keeps, writes that touch only free slots and the tail leave header, committed index and committed payloads unchanged |
| CacheDisk.SwitchRemains | Skyrim/src/DecompCache.cpp:710-725 | around the commit point a crash leaves the old or the new header, and the full or the cut length, and nothing else |
| CacheDisk.CacheFile.Truncate | Skyrim/src/DecompCache.cpp:672 | the file is cut or extended, in flight until the next flush; on failure nothing changed; a reliable file does not fail |
| CacheDisk.CacheFile.WriteChunk | Skyrim/src/DecompCache.cpp:689-696 | one write call: unless the file is reliable it may fail part way, but the 44-byte header write is all or nothing |
| CacheDisk.CacheFile.Flush | Skyrim/src/DecompCache.cpp:698 | a successful flush makes exactly the visible bytes durable |
| CacheDisk.CacheFile.ReplaceBy | Skyrim/src/DecompCache.cpp:556-562 | an atomic rename replaces contents and durable copy together, or nothing |
| CacheAppend.FlushKeepsNeverThird | Skyrim/src/DecompCache.cpp:718-725 | flushing cannot create an outcome that a crash could not have left before |
| CacheAppend.UncommittedIsSafe | Skyrim/src/DecompCache.cpp:671-708 | while every crash image keeps the committed part, every storage state is crash safe |
| CacheAppend.DecodesOldIff | Skyrim/src/DecompCache.cpp:671-708 | an image is accepted and decodes to exactly the old records if and only if header, committed index slots and committed payloads are there byte for byte |
| CacheAppend.UncommittedIff | Skyrim/src/DecompCache.cpp:671-708 | so every crash image decodes to the old records if and only if every crash image keeps the committed part |
| CacheAppend.SparedAfter | Skyrim/src/DecompCache.cpp:671-708 | if every crash image keeps the committed part, that stays so under any further operations on the tail, free slots, or the header it has |
| CacheAppend.SparingJoins | Skyrim/src/DecompCache.cpp:671-725 | stretches of operations and flushes that spare the old entries join to one |
| CacheAppend.SparingVisible | Skyrim/src/DecompCache.cpp:671-725 | readers keep seeing the committed part byte for byte |
| CacheAppend.SparingUncommitted | Skyrim/src/DecompCache.cpp:671-725 | and so does every crash image, if it did before |
| CacheAppend.CutForgetsAdded | Skyrim/src/DecompCache.cpp:671-672 | a file that decodes to old plus new, cut to the old end, decodes to neither |
| CacheAppend.CutNeedsUncommitted | Skyrim/src/DecompCache.cpp:671-672 | if the file is crash safe right after the tail was cut, every crash image decoded to the old records before |
| CacheAppend.NewHeaderDecodesAll | Skyrim/src/DecompCache.cpp:710-716 | once payloads and index are staged, the new header makes the file strictly valid and decode to old plus new |
| CacheAppend.NewHeaderNeedsPayloads | Skyrim/src/DecompCache.cpp:718-725 | the new header over a file cut to its old length is rejected, never misread |
| CacheAppend.SwitchingImage | Skyrim/src/DecompCache.cpp:710-725 | an accepted crash image around the commit point is exactly old or exactly old plus new |
| CacheAppend.SwitchingIsNeverThird | Skyrim/src/DecompCache.cpp:718-725 | undoing the header switch can leave a rejected file but never a third content |
| CacheAppend.ForwardSwitchIsSafe | Skyrim/src/DecompCache.cpp:710-716 | on the forward path every crash image around the commit point is accepted |
| CacheAppend.WriteAt | Skyrim/src/DecompCache.cpp:689-696 | a chunked, cancellable write issues only pieces of its data at their places, and all of them if it succeeds |
| CacheCommit.WritePayload | Skyrim/src/DecompCache.cpp:689-696 | one payload lands right behind the bytes already there, and every state on the way spares the committed part |
| CacheCommit.WritePayloads | Skyrim/src/DecompCache.cpp:687-697 | all added payloads are in place behind the old end, and every state on the way spares the committed part |
| CacheCommit.BuildIndex | Skyrim/src/DecompCache.cpp:674-685 | the new index entries are contiguous from the old end and match the records |
| CacheCommit.WriteIndex | Skyrim/src/DecompCache.cpp:700-708 | the index slots are filled and flushed, and every state on the way spares the committed part |
| CacheCommit.SwitchHeader | Skyrim/src/DecompCache.cpp:710-716 | the commit: crash safe at every moment, with nothing but the new header in flight, and on success the file is strictly valid, durable and holds old plus new |
| CacheCommit.Rollback | Skyrim/src/DecompCache.cpp:718-725 | from a safe disk or around the commit point, every state of the rollback is old, old plus new, or rejected; before the commit point it is always old; each step is an undoing operation or the flush |
| CacheCommit.UndoSafe | Skyrim/src/DecompCache.cpp:718-725 | undoing operations on top of any interrupted state cannot produce a third content |
| CacheCommit.RolledSpares | Skyrim/src/DecompCache.cpp:718-725 | a rollback from before the header write spares the committed part throughout, whichever of its steps fail |
| CacheCommit.RolledSwitch | Skyrim/src/DecompCache.cpp:718-725 | a rollback of a written header leaves that header in flight until a flush succeeds |
| CacheCommit.RollbackMayReject | Skyrim/src/DecompCache.cpp:718-725 | the rejection really can happen: a crash that keeps the new header and the cut length |
| CacheCommit.UnsettledAppendMayMix | Skyrim/src/DecompCache.cpp:718-725 | a concrete crash after a rollback whose flush failed and the first writes of the next append: the file is accepted with a third content |
| CacheCalm.CalmDecodes | Skyrim/src/DecompCache.cpp:668-728 | if what was flushed last is accepted and nothing issued since touches its committed part, every crash image decodes to its records |
| CacheCalm.FlushedIsPlain | Skyrim/src/DecompCache.cpp:698 | of a flushed file the converse holds too |
| CacheCalm.SparingIsPlain | Skyrim/src/DecompCache.cpp:671-725 | and staging and undoing keep the converse: if all crash images agree, that shows in the operations |
| CacheCalm.OneRemains | Skyrim/src/DecompCache.cpp:671-725 | a crash may keep any one of the operations in flight, or none |
| CacheCalm.SwitchIsUnsettled | Skyrim/src/DecompCache.cpp:710-716 | with a new header in flight over the staged file the crash images do not agree on any records |
| CacheCalm.SwitchingIff | Skyrim/src/DecompCache.cpp:710-725 | around the commit point every crash image has the old records if and only if the new header was not written since the last flush |
| CacheCalm.RolledIsPlain | Skyrim/src/DecompCache.cpp:718-725 | whatever a rollback leaves, the converse holds of it, and it spares the committed part, or has the new header in flight, or is flushed |
| CacheCalm.RolledVisible | Skyrim/src/DecompCache.cpp:718-725 | after a rollback readers see the old records, or old plus new, or nothing; from before the header write always the old ones |
| CacheWriter.MissingDistinct | Skyrim/src/DecompCache.cpp:635-663 | the records still to be written are good records with distinct offsets |
| CacheWriter.AddedIsGood | Skyrim/src/DecompCache.cpp:635-663 | old records followed by the missing ones have distinct offsets and legal sizes |
| CacheWriter.RetryAddsNothing | Skyrim/src/DecompCache.cpp:635-657 | retrying a commit whose remap failed finds everything on disk: every pending payload with its size and hash, so nothing is added and the decoded records are unchanged |
| CacheWriter.CompatibleIff | Skyrim/src/DecompCache.cpp:636-655 | pending payloads are compatible with a file if and only if every record with a pending offset has the pending size and checksum and bytes that still hash to it; then the bytes under every such offset hash to what the pending ones do |
| CacheWriter.RottenIsIncompatible | Skyrim/src/DecompCache.cpp:639-651 | a concrete record whose bytes rotted under an intact index entry is not taken for the payload |
| CacheWriter.AppendedTable | Skyrim/src/DecompCache.cpp:635-657 | the map decoded after an append is exactly the old map joined with the pending one, if and only if no pending payload contradicts the file |
| CacheFlush.BuildLookup | Skyrim/src/DecompCache.cpp:412-435 | the in-memory index has one entry per file entry, at its offset |
| CacheFlush.MapCommittedFile | Skyrim/src/DecompCache.cpp:374-441 | a file is mapped if and only if it can be and passes strict validation; each offset of its index then yields its payload bytes |
| CacheFlush.Classify | Skyrim/src/DecompCache.cpp:622-657 | no conflict if and only if every record with a pending offset has the pending size and checksum and bytes that still hash to it; then exactly the missing records remain, and known valid are exactly the offsets known before and the pending ones found with their payload on disk |
| CacheFlush.Found | Skyrim/src/DecompCache.cpp:636-655 | a pending payload is taken as already there exactly if some record has its offset, size and checksum and bytes that hash to it |
| CacheFlush.StageTail | Skyrim/src/DecompCache.cpp:671-698 | cutting the tail is the first operation; cutting and writing the payloads keeps the committed part intact, at every moment on a safe disk |
| CacheFlush.StageAll | Skyrim/src/DecompCache.cpp:671-708 | everything before the header: crash safe throughout if and only if every crash image of the file it found decoded to the old records; staged and durable on success |
| CacheFlush.StageAndSwitch | Skyrim/src/DecompCache.cpp:668-716 | staging and commit point: crash safe throughout if and only if every crash image of the file it found decoded to the old records; a failure leaves the committed part spared or the new header in flight |
| CacheFlush.CommitAppend | Skyrim/src/DecompCache.cpp:668-728 | the whole append: every storage state up to the rollback is crash safe if and only if every crash image of the file it found decoded to the old records; then later states never show a third content, and success, which a reliable file guarantees, leaves only images that decode to old plus new; a rollback from before the header write leaves the visible records and the crash images old, one of a written header leaves that header in flight or is flushed, and readers see old, old plus new, or a rejected file |
| CacheFlush.TrailIsPlain | Skyrim/src/DecompCache.cpp:668-728 | in every storage state of an append the crash images agree only if that shows in the operations, if it was so before |
| CacheFresh.FindDuplicate | Skyrim/src/DecompCache.cpp:497-502 | reports a duplicate exactly when two pending offsets are equal |
| CacheFresh.FreshIndex | Skyrim/src/DecompCache.cpp:504-520 | the fresh index is contiguous from the data start, and is refused exactly when the file would pass 64 bits |
| CacheFresh.FilledRepresents | Skyrim/src/DecompCache.cpp:510-551 | header, index and payloads written so make exactly the pending records |
| CacheFresh.WriteTemp | Skyrim/src/DecompCache.cpp:532-554 | the temporary file, when complete, holds the whole new generation |
| CacheFresh.FreshAccepted | Skyrim/src/DecompCache.cpp:476-565 | the finished file is strictly valid and decodes to the pending records if and only if the archive has at most 1,000,000 entries |
| CacheFresh.WriteFreshFile | Skyrim/src/DecompCache.cpp:476-565 | replacement happens whole or not at all, on a reliable file if and only if it is allowed and there are between one and the archive's number of distinct offsets; a mapped result serves precisely the pending payloads, and is refused only if mapping is, or above 1,000,000 entries |
| CacheStore.PreparePending | Skyrim/src/DecompCache.cpp:454-474 | the prepared records are the pending payloads with their checksums, up to where the flush is cancelled |
| CacheStore.ReadForAppend | Skyrim/src/DecompCache.cpp:579-663 | an append in place is chosen if and only if the file can be opened and read, no reset is asked for, it is accepted for this archive, every record with a pending offset has the pending size and hash and bytes that still hash to it, and its index has room; known valid are exactly the offsets known before and those found on disk |
| CacheStore.MergeableIff | Skyrim/src/DecompCache.cpp:622-657 | the same condition on the pending payloads themselves, for every accepted file |
| CacheStore.PlanForIsValid | Skyrim/src/DecompCache.cpp:674-685 | the old and the missing records together are good, and the checked 64-bit cursor cannot overflow for any file of a legal size |
| CacheStore.SettledIffCalm | Skyrim/src/DecompCache.cpp:668-728 | all crash images decode to the visible records if and only if what was flushed last is accepted and nothing since touches its committed part |
| CacheStore.TailWritesAreSettled | Skyrim/src/DecompCache.cpp:1075-1094 | in particular after a flush, and while only the tail was cut or overwritten |
| CacheStore.NewFileIsSettledIff | Skyrim/src/DecompCache.cpp:553-565 | a replacement survives a crash if and only if its flush was not skipped |
| CacheStore.AppendInPlace | Skyrim/src/DecompCache.cpp:668-728 | the append, stated of the records of the file before and after |
| CacheStore.CutKeepsSettled | Skyrim/src/DecompCache.cpp:1075-1094 | cutting the tail of a settled file leaves it settled |
| CacheStore.AppendFile | Skyrim/src/DecompCache.cpp:567-734 | an append is tried if and only if the file opens, is readable, accepted and to be kept, every persisted payload at a pending offset has the pending size and its own hash equals the pending one, and there is room; on a reliable file it succeeds, and otherwise the file is replaced unless cancelled, locked or refused; after an append the file is strictly valid and holds precisely old plus missing records; after a replacement precisely the pending ones; after a rollback the old ones, or old plus missing, or it is rejected, and the old ones and a settled disk as before if the header was not written; the states up to a rollback are all crash safe if and only if the disk was settled, and after it a settled file is never misread; a result is mapped unless mapping fails, serves each payload, and known valid are exactly the offsets known before and all pending ones |
| CacheStore.LoadCacheFile | Skyrim/src/DecompCache.cpp:1003-1135 | a file with an uncommitted tail is served exactly like its committed prefix, whether or not the tail can be cut, and a settled file stays settled; a rejected file is left alone; it is served if and only if it can be opened and mapped and is accepted |
| CacheStore.RecoverTail | Skyrim/src/DecompCache.cpp:1075-1094 | cutting the tail and flushing, each of which may fail, keeps the records and a settled disk settled |
| CacheSession.MissingIsTruthful | Skyrim/src/DecompCache.cpp:635-663 | payloads of the archive added to a file of such payloads make a file of such payloads |
| CacheSession.AppendPayloads | Skyrim/src/DecompCache.cpp:567-734 | whatever an append does, under whatever failures, an accepted file holds nothing but payloads of the archive, and a mapped result leads every offset, among them all pending ones, to its payload; without failures the result is mapped |
| CacheSession.LoadPayloads | Skyrim/src/DecompCache.cpp:1003-1135 | so does a load |
| CacheSession.Session | Skyrim/src/DecompCache.cpp:567-1135 | over any sequence of loads and appends, from any flushed file or crash image: in every storage state crash images agree only if that shows in the operations; at the end they all decode to the visible records if and only if the disk is calm; and nothing but payloads of the archive is held or served |
| CacheSession.CrashOnCalm | Skyrim/src/DecompCache.cpp:567-1135 | a crash on a calm disk leaves an accepted file of payloads from which the next session can start |
| RecordedFlush.RecordedFlightsAreGood | Skyrim/src/DecompCache.cpp:1290-1317 | in every reachable state of recording and flushing, the payloads in flight have distinct offsets and legal sizes, which is what the writer relies on |
| RecordedFlush.CaptureAndFind | Skyrim/src/DecompCache.cpp:1145-1237 | a payload captured from a stream, appended to the file and looked up in the mapped result is the payload, which is what attaching it relies on; without failures it is found if and only if it was captured |
| Admission.CarrierPays | Skyrim/src/DecompCache.cpp:1319-1332 | the unwritten entry that reserved header and index covers them on top of all payloads of a fresh file |
| Admission.WriteIsPaidFor | Skyrim/src/DecompCache.cpp:1731-1745 | no write makes the disk grow by more than the charges it releases |
| Admission.OffsetsConcat | Skyrim/src/DecompCache.cpp:1839-1842 | putting a flight behind the queue keeps offsets distinct |
| Admission.EnqueueKeepsArchive | Skyrim/src/DecompCache.cpp:1380-1406 | queuing a reserved entry keeps the archive invariant |
| Admission.WriteKeepsArchive | Skyrim/src/DecompCache.cpp:1731-1745 | a written but unmapped flight keeps the archive invariant |
| Admission.RequeueKeepsArchive | Skyrim/src/DecompCache.cpp:1799-1842 | a requeued flight keeps the archive invariant, including who pays for header and index |
| Admission.CommitKeepsArchive | Skyrim/src/DecompCache.cpp:1765-1797 | a commit keeps the archive invariant |
| Admission.TransferPays | Skyrim/src/DecompCache.cpp:1818-1832 | what a dropped flight hands to a survivor covers the header and index |
| Admission.DropKeepsArchive | Skyrim/src/DecompCache.cpp:1803-1838 | the allocation-failure rollback keeps the archive invariant |
| Admission.RemoveKeepsArchive | Skyrim/src/DecompCache.cpp:2556-2589 | deleting a file that is not mapped keeps the archive invariant: one buffered entry still pays for the next header and index |
| Admission.RemoveIsBooked | Skyrim/src/DecompCache.cpp:2556-2589 | its bytes cover the charges of everything that was written into it, which counts as uncommitted again |
| Admission.StepKeepsArchive | Skyrim/src/DecompCache.cpp:1596-1852 | every critical section keeps the archive invariant |
| Admission.StepIsBooked | Skyrim/src/DecompCache.cpp:1765-1842 | every critical section books exactly the charges it moves, and the disk outgrows released charges only by what a dropped flight had written |
| Admission.StepKeepsSound | Skyrim/src/DecompCache.cpp:1596-1852 | archive invariants and conservation survive every action, drops included |
| Admission.AdmitsIffFree | Skyrim/src/DecompCache.cpp:1340-1377 | a record is admitted if and only if its bytes are at most the free bytes, the least of what both caps leave beside pending and files |
| Admission.StepKeepsSafeIff | Skyrim/src/DecompCache.cpp:1803-1838 | files, uncommitted charges and free bytes stay within the cap under an action if and only if the action is not a drop that does not fit |
| Admission.UnwrittenDropFits | Skyrim/src/DecompCache.cpp:1803-1838 | giving up a flight of which nothing reached the disk always fits |
| Admission.FreeCanBeCharged | Skyrim/src/DecompCache.cpp:1318-1379 | if some archive can record, a run without drops charges all free bytes |
| Admission.StaysWithinCapIff | Skyrim/src/DecompCache.cpp:1318-1379 | every run without drops from sound books stays within the cap if and only if files, uncommitted charges and free bytes fit it; only-if given an archive that can record |
| Admission.DropFitsIff | Skyrim/src/DecompCache.cpp:1803-1838 | so a drop is harmless, for every continuation without another, if and only if it fits, which is computed from the state before it |
| Admission.ScanRepairsIff | Skyrim/src/DecompCache.cpp:2481-2554 | a complete scan makes the books safe, whatever was counted before, if and only if the cap still holds |
| Admission.IdleIsSafeIff | Skyrim/src/DecompCache.cpp:963-981 | an idle cache starts with safe books if and only if its files and the free bytes fit the cap; if all files were counted, if and only if the files do |
| Admission.IdleStaysWithinCapIff | Skyrim/src/DecompCache.cpp:889-981 | so every run without drops from an idle cache, counted or not, stays within the cap if and only if that holds; only-if given an archive that can record |
| Admission.UncountedStartBreaksTheCap | Skyrim/src/DecompCache.cpp:2538-2545 | a concrete start whose scan failed, so that the total is zero while a file fills the cap: the first record is admitted past the cap |
| Admission.ChargesAreConserved | Skyrim/src/DecompCache.cpp:1378-1406 | after any run, `m_pendingBytes` is exactly queued plus in-flight plus held plus committed charges, and buffered offsets are the disjoint union of queue and flight |
| Admission.HardCap | Skyrim/src/DecompCache.cpp:1318-1379 | from any idle start whose files and free bytes fit the cap, after any run in which every drop fits, file bytes plus charges of uncommitted entries are at or under the cap |
| Admission.UnsafeDropBreaksTheCap | Skyrim/src/DecompCache.cpp:1803-1838 | a concrete possible run in which a written, unmapped flight is dropped and the cap is then exceeded |
| AdmissionControl.DecompCache.constructor | Skyrim/src/DecompCache.cpp:963-981 | starts from the files there are, mapped or stale, with empty queues and whatever total the scan gave |
| AdmissionControl.DecompCache.WithinTheCap | Skyrim/src/DecompCache.cpp:1318-1379 | in every state any sequence of the methods below reaches from such a start, the cap and conservation hold |
| AdmissionControl.DecompCache.Judge | Skyrim/src/DecompCache.cpp:1300-1377 | each refusal for exactly its reason, on the size plus 44 + 20 entries if no usable file is mapped and nothing is buffered, and on the size alone otherwise; a refusal by the cap raises the headroom demand to the complete pending plus new bytes |
| AdmissionControl.DecompCache.HoldCharge | Skyrim/src/DecompCache.cpp:1324-1379 | reserves the payload, and 44 + 20 entries exactly if no usable file is mapped and nothing is buffered |
| AdmissionControl.DecompCache.QueueHeld | Skyrim/src/DecompCache.cpp:1388-1406 | the entry, with its charge, goes to the end of the queue and its offset is buffered |
| AdmissionControl.DecompCache.ReturnHeld | Skyrim/src/DecompCache.cpp:1380-1403 | a failed insertion returns the reservation and leaves nothing behind |
| AdmissionControl.DecompCache.RecordDecompressed | Skyrim/src/DecompCache.cpp:1281-1413 | queues if and only if size, duplicate and both cap tests pass, on the charge spelled out as above, and memory suffices; the charge is exactly the rise of the pending bytes; otherwise accounting is unchanged |
| AdmissionControl.ScanFiles | Skyrim/src/DecompCache.cpp:2504-2535 | the scan's sum is the bytes of all files |
| AdmissionControl.DecompCache.ReconcileDiskAccounting | Skyrim/src/DecompCache.cpp:2481-2554 | a complete scan moves committed reservations into the total in one step; an incomplete one changes nothing |
| AdmissionControl.DecompCache.EvictArchive | Skyrim/src/DecompCache.cpp:2673-2709 | a usable idle archive loses its file, its mapping and nothing else |
| AdmissionControl.DecompCache.RemoveUnownedFiles | Skyrim/src/DecompCache.cpp:2556-2589 | deletes exactly the chosen files that no archive has mapped, and nothing else |
| AdmissionControl.DecompCache.EvictInOrder | Skyrim/src/DecompCache.cpp:2670-2709 | exactly the usable idle archives among the candidates looked at lose their file, as far as it can be deleted; the estimate is the total less the bytes freed, was above the target before the last candidate, and looking stops only at the target, a load or the end |
| AdmissionControl.DecompCache.EvictDown | Skyrim/src/DecompCache.cpp:2653-2706 | the same with one scan after it if anything was evicted |
| AdmissionControl.DecompCache.BringDown | Skyrim/src/DecompCache.cpp:2619-2706 | first unowned files go and a scan follows; if that was not enough idle archives go; without a load and with a complete scan the files end at the target or nothing evictable is left |
| AdmissionControl.DecompCache.EnforceSizeLimit | Skyrim/src/DecompCache.cpp:2591-2732 | for every outcome of scans, deletions and loads: exactly which files go, what the total is, and whether the demand is put back, namely for a load or if the total ends above its target; without loads and with complete scans the files end at the target or nothing evictable is left |
| AdmissionControl.DecompCache.RetireInvalid | Skyrim/src/DecompCache.cpp:1617-1664 | exactly the chosen invalid generations with nothing buffered are deleted; queues are untouched |
| AdmissionControl.DecompCache.MakeRoom | Skyrim/src/DecompCache.cpp:1606-1664 | room is made before the queues are taken if a demand stands or the cap is reached; every archive with a queue keeps it and its state, and condemned idle generations go |
| AdmissionControl.DecompCache.TakeQueues | Skyrim/src/DecompCache.cpp:1672-1722 | every queue becomes the flight, in order; the flight is to replace the file exactly if the archive is invalid, unmapped or stale |
| AdmissionControl.DecompCache.WriteFlight | Skyrim/src/DecompCache.cpp:567-734 | exactly the entries not on disk yet are written and marked, and the file grows by their sizes; it is replaced, header and index included, exactly when it must or is told to |
| AdmissionControl.DecompCache.ReplaceFile | Skyrim/src/DecompCache.cpp:476-565 | a replaced file is header, index and the whole flight |
| AdmissionControl.DecompCache.AppendFlight | Skyrim/src/DecompCache.cpp:659-734 | an appended file grows by exactly the entries neither written before nor found in it |
| AdmissionControl.DecompCache.InvalidateArchive | Skyrim/src/DecompCache.cpp:1239-1260 | a failing mapping is condemned and its file stays accounted for |
| AdmissionControl.Release | Skyrim/src/DecompCache.cpp:1778-1782 | the commit loop removes exactly the flight's offsets and adds exactly its charges and its excess |
| AdmissionControl.DecompCache.CommitFlight | Skyrim/src/DecompCache.cpp:1765-1797 | offsets leave the buffer, charges become committed reservations, and the archive is mapped and valid |
| AdmissionControl.DecompCache.RequeueFlight | Skyrim/src/DecompCache.cpp:1839-1842 | the flight rejoins the queue behind it with its charges, and nothing else changes |
| AdmissionControl.DecompCache.DropFlight | Skyrim/src/DecompCache.cpp:1803-1838 | offsets are released for recapture, and exactly the charge beyond the payloads moves to the first survivor if one needs header and index |
| AdmissionControl.DecompCache.FlushArchive | Skyrim/src/DecompCache.cpp:1738-1842 | commits exactly when written, mapped and not stale; else requeues, or gives up without memory |
| AdmissionControl.DecompCache.FlushToDisk | Skyrim/src/DecompCache.cpp:1596-1852 | for every archive with a queue, from its state before and its fortune: it ends committed, with nothing buffered and a valid mapped file unless the size limit then takes it, exactly if no load came, the write and the mapping succeeded and an invalid, unmapped or stale file was replaced or the mapping did not fail meanwhile; else given up without memory; else requeued entry by entry; archives without a queue are as before or lose their file, condemned ones always; after it, without loads and with complete scans, nothing is reserved and the files fit the cap or nothing evictable is left |
| AdmissionControl.DecompCache.Tidy | Skyrim/src/DecompCache.cpp:1844-1852 | after the flights only unowned files and idle usable archives lose their files, and only under a cap and outside loads |
| CacheLimit.DecideIsTheBoundedWish | Skyrim/src/CacheLimitPolicy.h:65-90 | the limit is the configured MiB without overflow, clamped to a quarter of memory, and that quarter when nothing is configured; unavailable exactly below four bytes |
| CacheLimit.MetDemandFitsIff | Skyrim/src/CacheLimitPolicy.h:49-63 | once the total is at the demand's target, the rejected entry fits beside the pending bytes if and only if both fit the cap together |
| CacheLimit.HeadroomIsLeast | Skyrim/src/CacheLimitPolicy.h:49-63 | no smaller headroom guarantees the admission |
| CacheLimit.StandingUntilMet | Skyrim/src/DecompCache.cpp:2591-2730 | under any interleaving of recorders, passes, loads and exceptions, a demand stands until some pass ends at or under its target, or throws while no waiting demand covers it |
| CacheLimit.DemandIsNeverDropped | Skyrim/src/DecompCache.cpp:1350-1375 | so a rejected admission stays demanded until there was room for it, if it can fit beside the pending bytes at all, or a pass threw it away |
| CacheLimit.ThrowLosesExactly | Skyrim/src/DecompCache.cpp:2591-2610 | a pass that throws loses exactly the demands above those recorded meanwhile |
| CacheLimit.StandsIff | Skyrim/src/DecompCache.cpp:2591-2732 | a demand arises only from a recorder, and goes only with a pass that ends at its own target or throws, when nothing recorded meanwhile covers it |
| CacheLimit.ThrowDropsADemand | Skyrim/src/DecompCache.cpp:2591-2610 | a concrete demand that is lost so |
| StreamState.ProgressIsExact | Skyrim/src/CompressedReadPolicy.h:23-40 | progress is accepted exactly when a known cursor advances by what was read within request, cursor width and declared size |
| StreamState.NativeStream.Read | Skyrim/src/Hooks.cpp:1254-1278 | the assumed stock read: payload bytes from its position, possibly short or failing |
| StreamState.NativeStream.Seek | Skyrim/src/Hooks.cpp:1005-1024 | the assumed stock seek: clamps, or fails in place |
| StreamState.CompressedStreamState.constructor | Skyrim/src/Hooks.cpp:806-811 | a new state knows its cursor and has no cache data and no capture |
| StreamState.CompressedStreamState.ClearCaptureBuffer | Skyrim/src/Hooks.cpp:848-859 | buffer and charge are returned exactly |
| StreamState.CompressedStreamState.ResetCaptureAfterSeek | Skyrim/src/Hooks.cpp:1043-1051 | a capture may restart only from byte zero |
| StreamState.CompressedStreamState.BeginCapture | Skyrim/src/Hooks.cpp:1053-1081 | begins if and only if the whole entry fits the budget and memory; no charge remains otherwise |
| StreamState.CompressedStreamState.AppendCapture | Skyrim/src/Hooks.cpp:1083-1128 | the buffer stays the payload prefix; a completed capture is the prefix of the declared size and leaves with its charge; anything that does not fit ends the capture |
| StreamState.CompressedStreamState.TryAttachCachedEntry | Skyrim/src/Hooks.cpp:1130-1184 | attaches exactly under the listed conditions and never detaches |
| StreamState.CompressedStreamState.ServeCachedRead | Skyrim/src/Hooks.cpp:1186-1252 | serves the next min(requested, remaining) payload bytes, or fails with the cursor unmoved |
| CompressedStream.HookedRefinesUnhooked | Skyrim/src/Hooks.cpp:1130-1252 | over a sound decompressor the answers, bytes and positions of any hooked run are those of an unhooked stream given the same calls, leaving out calls refused without effect |
| CompressedStream.HookedStream.CallersCannotTell | Skyrim/src/Hooks.cpp:1450-1773 | that holds after any sequence of the methods below, and no stock read or seek follows attachment but by calls that bypass the hooks harmlessly |
| CompressedStream.HookedStream.constructor | Skyrim/src/Hooks.cpp:1026-1041 | a stream that existed before the hooks starts without side state, wherever it stands |
| CompressedStream.HookedStream.Open | Skyrim/src/Hooks.cpp:1290-1317 | a successful open is a new generation at zero with an empty capture, a failed one leaves the decompressor anywhere; old state and charge are gone |
| CompressedStream.HookedStream.Close | Skyrim/src/Hooks.cpp:1319-1326 | state and charge are gone |
| CompressedStream.HookedStream.QueryCursor | Skyrim/src/Hooks.cpp:1005-1024 | the queried cursor is the native position, within the declared size, and asking moves nothing |
| CompressedStream.HookedStream.GetOrCreateState | Skyrim/src/Hooks.cpp:1026-1041 | a created state knows the native position or knows that it does not |
| CompressedStream.HookedStream.UpgradeIdentity | Skyrim/src/Hooks.cpp:1600-1629 | an identity change keeps cursor and position in step and returns the old capture's charge |
| CompressedStream.HookedStream.Attach | Skyrim/src/Hooks.cpp:1130-1184 | attaching does not move the position the caller knows |
| CompressedStream.HookedStream.StockRead | Skyrim/src/Hooks.cpp:1254-1278 | a stock read is an honest answer at the native position |
| CompressedStream.HookedStream.ReadBlind | Skyrim/src/Hooks.cpp:1630-1649 | without a known cursor the stock read answers, and capture is off |
| CompressedStream.HookedStream.ReadCached | Skyrim/src/Hooks.cpp:1658-1667 | an attached stream is answered from cache without moving the decompressor |
| CompressedStream.HookedStream.PlanCapture | Skyrim/src/Hooks.cpp:1669-1704 | a read extends or begins the capture exactly when the cursor continues it |
| CompressedStream.HookedStream.FollowRead | Skyrim/src/Hooks.cpp:1711-1733 | the side cursor equals the native one after every stock read, or is unknown |
| CompressedStream.HookedStream.ExtendCapture | Skyrim/src/Hooks.cpp:1735-1773 | what is handed to `RecordDecompressed` is the whole payload of the declared size, exactly when the last byte arrives |
| CompressedStream.HookedStream.ReadNative | Skyrim/src/Hooks.cpp:1669-1773 | stock read, cursor and capture together: an honest answer and an exact budget; the whole payload is handed over if and only if, outside a load, while building, with archive, memory and both limits kept, the read ends a capture continued from zero at the declared size |
| CompressedStream.HookedStream.DoRead | Skyrim/src/Hooks.cpp:1544-1773 | every branch answers honestly and keeps the invariant; a stream is served from cache if it is attached, or under the conditions spelled out, at the cursor the hooks know, wherever the decompressor is; otherwise the whole payload is handed over if and only if the same conditions as above hold of this read, and nothing ever in a load, without building, without archive or above a limit |
| CompressedStream.HookedStream.ReadPrepared | Skyrim/src/Hooks.cpp:1630-1773 | the same once the side state is there: it attaches exactly under the attachment conditions, and hands over exactly under those of learning |
| CompressedStream.LearnNext | Skyrim/src/Hooks.cpp:1669-1773 | one read of a stream being learned from its first byte: handed over exactly with the last byte |
| CompressedStream.LearnThrough | Skyrim/src/Hooks.cpp:1290-1773 | a caller that opens a stream and reads it in pieces of any size: the whole payload is handed over if and only if all of it was received, and nothing else ever is |
| CompressedStream.HookedStream.SeekCached | Skyrim/src/Hooks.cpp:1485-1513 | a cached seek answers as the stock one at the cursor the hooks know, and restarts capture state |
| CompressedStream.HookedStream.SeekAndFollow | Skyrim/src/Hooks.cpp:1515-1541 | the side cursor follows the stock seek; a no-op seek keeps the capture; an impossible position loses the cursor |
| CompressedStream.HookedStream.DoSeek | Skyrim/src/Hooks.cpp:1450-1542 | every branch answers honestly and keeps the invariant |
| CompressedStream.IdleIff | Skyrim/src/Hooks.cpp:1561-1580 | the listed reads and seeks are exactly those answered alike at both positions whose caller stays |
| CompressedStream.HookedStream.ReadBypassed | Skyrim/src/Hooks.cpp:1561-1580 | the stock read with the side state untouched: when the decompressor answers in full, answer, position and decompressor are all right if and only if no cursor is known, or nothing is read, there is no buffer, or both stand at the end; then the stream invariant holds on |
| CompressedStream.HookedStream.SeekBypassed | Skyrim/src/Hooks.cpp:1459-1465 | the same for the stock seek: if and only if no cursor is known, the mode is unknown, it is absolute to the cursor, or it is relative and leaves both where the cursor is |
| CompressedStream.HookedStream.ReportCursor | Skyrim/src/Hooks.cpp:1600-1667 | from a known cursor a stream can go on to report exactly that cursor, wherever the decompressor is |
| CompressedStream.HookedStream.Expose | Skyrim/src/Hooks.cpp:1561-1580 | so for every stream and every call that is not harmless, the answer or the position the stream then reports differs from those of an unhooked stream |
| CompressedStream.BypassRepeats | Skyrim/src/Hooks.cpp:1561-1580 | from an open: a bypassed read delivers the first byte, if any, and the next read, served from cache, returns it again |
| CompressedStream.BypassAfterCacheRepeats | Skyrim/src/Hooks.cpp:1561-1580 | from an open: a read served from cache returns the first byte and a bypassed one delivers it again, if any |
| StreamClone.InheritState | Skyrim/src/Hooks.cpp:1387-1412 | a clone's state shares the payload exactly when the identity matches, knows a cursor exactly then or when its decompressor is there, and captures only from zero |
| StreamClone.CloneKnown | Skyrim/src/Hooks.cpp:1367-1427 | a clone that is handed out stands where the parent's caller is unless it strands, and is served from cache exactly when its state shares the payload; one that can do neither is dropped, and only then |
| StreamClone.DoClone | Skyrim/src/Hooks.cpp:1328-1448 | the same for all branches, with the exact condition under which a clone strands at the stale native position; the parent is undisturbed |
| StreamClone.CloneStrands | Skyrim/src/Hooks.cpp:1435-1447 | a concrete clone, from a lookup that fails or a state that cannot be published, whose next read can only repeat the byte the parent has had, where the parent goes on |
| CasLoop.NextIsSequential | Skyrim/src/StreamCursor.h:38-84 | one load or swap extends a sequential history |
| CasLoop.Linearises | Skyrim/src/StreamCursor.h:38-84 | compare-and-swap loops take effect one at a time under any interleaving and spurious failures |
| RangeClaims.ClaimsTile | Skyrim/src/StreamCursor.h:38-84 | claims are contiguous, disjoint, inside the entry and of size min(requested, remaining) at their linearisation point |
| RangeClaims.ClaimsCover | Skyrim/src/StreamCursor.h:38-84 | together they cover exactly what the cursor passed over |
| RangeClaims.InvalidClaimsNeverWrite | Skyrim/src/StreamCursor.h:44-56 | an invalid range never moves the cursor |
| RangeClaims.ConcurrentClaimsTile | Skyrim/src/StreamCursor.h:38-84 | all of that for any threads, requests and interleavings |
| RangeClaims.ClaimRange | Skyrim/src/StreamCursor.h:38-84 | one caller's loop returns the claim of the cursor value at which its swap succeeded |
| RangeClaims.ClampSeekClamps | Skyrim/src/StreamCursor.h:128-175 | a seek is valid exactly for a cursor within a possible range, and then the mathematical clamp of the wanted position, with no overflow |
| ByteBudget.CounterIsExact | Skyrim/src/AtomicByteBudget.h:11-39 | the counter is what was reserved and not released, never above the limit, and requests are refused exactly when they would pass it |
| ByteBudget.ConcurrentBudget | Skyrim/src/AtomicByteBudget.h:11-39 | the same under any interleaving |
| ByteBudget.AtomicByteBudget.TryReserve | Skyrim/src/AtomicByteBudget.h:13-25 | reserves if and only if it fits at the point where it takes effect |
| ByteBudget.AtomicByteBudget.Release | Skyrim/src/AtomicByteBudget.h:27-39 | releases if and only if that much is held |
| ByteBudget.NextIsExact | Skyrim/src/Hooks.cpp:1043-1128 | beginning, completing, recording and clearing captures keep the counter equal to the charges; a capture is charged exactly if it fits and its buffer can be allocated, and each charge moves or goes as stated |
| ByteBudget.ChargesAreConserved | Skyrim/src/Hooks.cpp:1043-1128 | in every interleaving the counter equals live charges plus completed ones in flight |
| SourceTable.Table.Walk | Skyrim/src/Hooks.cpp:266-310 | the probe loop ends at the key, at an empty slot or after all slots, and then the key is in no slot |
| SourceTable.Table.Store | Skyrim/src/Hooks.cpp:346-378 | a stored key stays reachable by probing and is in one place only |
| SourceTable.Table.Find | Skyrim/src/Hooks.cpp:254-328 | agrees with the map: a hit if and only if the key is on record for this backing stream with a positive answer or one not expired; exactly a lookup of an expired one outside the overflow takes the refresh and gives the others the old answer |
| SourceTable.Table.Insert | Skyrim/src/Hooks.cpp:330-393 | if a positive answer for this key and backing stream is on record nothing changes; in every other case exactly this key gets the new stream, answer and saturated deadline |
| SourceTable.HitsStay | Skyrim/src/Hooks.cpp:254-393 | over any sequence of lookups and inserts, once a lookup hits an archive it goes on hitting that archive while its source sees the same backing stream |
| SourceTable.InsertThenFind | Skyrim/src/Hooks.cpp:254-393 | what was inserted is found: a positive answer always, a negative one until its deadline, never for another backing stream |
| SourceSeqlock.NextKeepsInv | Skyrim/src/Hooks.cpp:268-381 | each access keeps: nothing is read before the key is stored, and an unchanged generation means copied fields are current |
| SourceSeqlock.LookupsAreAtomic | Skyrim/src/Hooks.cpp:268-381 | of one slot, from before the first insert, under any interleaving: a lookup misses only while nothing is published, a returned pair was published together and is the latest, and positive answers stay |
| SourceSeqlock.PublishesIff | Skyrim/src/Hooks.cpp:346-381 | between two inserts a pair can be published, and then is what the slot says, unless it would replace a positive answer for the same backing stream |
| SourceSeqlock.TornWithoutRecheck | Skyrim/src/Hooks.cpp:284-287 | the interleaving that would tear a pair is caught by the second generation check |
| SourceProbe.EmptySlotMeansAbsent | Skyrim/src/Hooks.cpp:266-310 | an empty slot behind slots of other keys means that the key is nowhere, under concurrent inserts |
| SourceProbe.FullCircleMeansOverflow | Skyrim/src/Hooks.cpp:304-328 | a whole round of other keys means that only the overflow can have it |
| SourceProbe.ReadKeepsInv | Skyrim/src/Hooks.cpp:266-310 | an access of a lookup to its slot keeps the table invariant |
| SourceProbe.WriteKeepsInv | Skyrim/src/Hooks.cpp:346-381 | so does each store of the writer |
| SourceProbe.NextKeepsInv | Skyrim/src/Hooks.cpp:254-393 | every move of every lookup and of the writer keeps it |
| SourceProbe.LookupsAreLinearizable | Skyrim/src/Hooks.cpp:254-393 | under any interleaving of lookups over all slots and the overflow with inserts, each returns what the table, as one map, said of its key at one moment between start and return |
| SourceProbe.InsertsIff | Skyrim/src/Hooks.cpp:346-389 | wherever probing led, an insert goes ahead if and only if the table, as one map, has no positive answer of this backing stream for its key |
| SourceProbe.PositiveAnswersStay | Skyrim/src/Hooks.cpp:254-393 | under any interleaving no positive answer is forgotten or replaced for the same backing stream |
| SingleFlight.NextKeepsInv | Skyrim/src/DecompCache.cpp:278-319 | one step keeps: busy means exactly one computing caller |
| SingleFlight.AtMostOneComputesAndAllAgree | Skyrim/src/DecompCache.cpp:278-319 | at most one caller computes, all that return agree, and valid needs a match or the commit's mark |
| SingleFlight.VerdictIff | Skyrim/src/DecompCache.cpp:278-319 | a settled verdict, and what any caller returns, is valid if and only if the commit had verified the entry, or its checksum matches and the one computation could read it |
| SingleFlight.VerdictsAreFinal | Skyrim/src/DecompCache.cpp:278-319 | valid and invalid are absorbing |
| StreamRegistry.NextKeepsInv | Skyrim/src/Hooks.cpp:881-985 | publish, replace and retire keep the registry invariant |
| StreamRegistry.PublishAnswers | Skyrim/src/Hooks.cpp:904-923 | a publication hands out the state that is there, and puts the new one in only if there is none |
| StreamRegistry.TryReplaceIff | Skyrim/src/Hooks.cpp:925-941 | a replacement takes place if and only if the expected state is in the map, and then no thread is answered with that; else nothing changes |
| StreamRegistry.ReplaceAnswers | Skyrim/src/Hooks.cpp:943-955 | an unconditional replacement retires what was there, and no thread is answered with it |
| StreamRegistry.FindAnswers | Skyrim/src/Hooks.cpp:881-902 | a lookup past the shortcut is answered with what the map has |
| StreamRegistry.RetiredStaysGone | Skyrim/src/Hooks.cpp:957-985 | over any run a retired state is never in the map or answered again |
| StreamRegistry.ShortcutAgreesWithMap | Skyrim/src/Hooks.cpp:881-902 | a once-published state is in the map, retired or being retired; one live state per stream; a hit of the shortcut agrees with the map if and only if no retirement of that stream is between erasure and mark |
| StreamRegistry.ShortcutSeesErasedState | Skyrim/src/Hooks.cpp:957-972 | the window between erasure and mark is real |
| Worker.NextKeepsInv | Skyrim/src/DecompCache.cpp:1887-1927 | no step loses a wake-up or owed work |
| Worker.NothingIsLostFromStart | Skyrim/src/DecompCache.cpp:2376-2395 | in every reachable state the worker is never blocked with its condition true and no notification due, owed passes are requested, taken, or covered by the end of a load, and a requested warm-up is not taken for done |
| Worker.OwedFlushStarts | Skyrim/src/DecompCache.cpp:2416-2440 | an owed flush starts within the stated number of moves of the worker |
| Worker.OwedWarmStarts | Skyrim/src/DecompCache.cpp:2441-2449 | so does an owed warm-up |
| Worker.OwedWorkStarts | Skyrim/src/DecompCache.cpp:2416-2457 | outside loads, in any interleaving with requests, notifications, timeouts and failing passes, six moves of the worker are enough for every owed pass to start, and it can always move |
| Worker.RequestsAreServed | Skyrim/src/DecompCache.cpp:1887-1927 | outside loads six moves of the worker start the pass that any request, end of a load or interrupted warm-up asked for |
| Worker.OwedUntilStarted | Skyrim/src/DecompCache.cpp:2416-2457 | what is owed stays owed until a pass starts |
| Worker.LoadsSuspend | Skyrim/src/DecompCache.cpp:2376-2395 | until a load ends no pass starts, nothing owed is taken for done, and no running pass makes the cache complete |
| Worker.CompleteIff | Skyrim/src/DecompCache.cpp:2131-2335 | the cache counts as complete from a pass that ended with nothing requested and no load, until a request, an interrupted or a failing pass |
| WarmPrefix.RangeTestIsExact | Skyrim/src/CacheWarmPolicy.h:11-20 | warm means: not empty and inside both committed bytes and warmed prefix, without overflow |
| WarmPrefix.BoundaryIsNext | Skyrim/src/DecompCache.cpp:139-149 | the first step reaches the next page boundary and everything before it shares a page |
| WarmPrefix.TouchMappedPages | Skyrim/src/DecompCache.cpp:130-181 | one byte of every page of the range is read and nothing outside it |
| WarmPrefix.MappedView.Warm | Skyrim/src/DecompCache.cpp:2122-2174 | across interrupted, failed and resumed passes every page of the prefix has been read, nothing beyond the committed bytes; a pass stops short only for a cause |
| WarmPrefix.MappedView.WarmEntriesAreTouched | Skyrim/src/DecompCache.cpp:1218-1233 | an entry that passes the range test has every page touched |
| SliceServe.SliceState.Continue | Fallout4/src/Hooks.cpp:2303-2356 | the next slice, its proportional input, and stream end on the last |
| SliceServe.SliceState.Begin | Fallout4/src/Hooks.cpp:2418-2495 | a chunk that fits is delivered whole with all input counted but the input pointer left where it was, otherwise its first slice |
| SliceServe.SliceState.Inflate | Fallout4/src/Hooks.cpp:2285-2500 | state of another stream or of a reset one is dropped, live state continues, otherwise a cached chunk begins if and only if 64 bytes of input are there and the indexed size is theirs up to two bytes, otherwise the stock function runs untouched |
| SliceServe.DeliverSpelled | Fallout4/src/Hooks.cpp:2303-2356 | one delivery on every counter: as many bytes as fit, and input in proportion or, with the last byte, up to the packed size, but never more than there is |
| SliceServe.ProductFits | Fallout4/src/Hooks.cpp:2327-2333 | the 64-bit proportion cannot overflow |
| SliceServe.SliceKeepsProportion | Fallout4/src/Hooks.cpp:2326-2336 | a slice keeps consumed input within the proportion of delivered output |
| SliceServe.DeliveryIsExact | Fallout4/src/Hooks.cpp:2303-2342 | after any calls the output is the chunk up to the cursor, as much as the buffers allowed, input in proportion until the end |
| SliceServe.FirstSliceConsumes | Fallout4/src/Hooks.cpp:2471-2480 | a first slice consumes input exactly when there is some and its share is at least one byte |
| SliceServe.ResumableOnceStarted | Fallout4/src/Hooks.cpp:2292-2298 | then the state is never taken for stale before the end |
| SliceServe.WholeDelivery | Fallout4/src/Hooks.cpp:2294-2356 | the slices are the chunk, only the last ends it, and the input consumed ends at the packed size when there is enough |
| SliceServe.Underway | Fallout4/src/Hooks.cpp:2292-2298 | before its last call a delivery is neither done nor taken for stale |
| SliceServe.NextSlice | Fallout4/src/Hooks.cpp:2303-2356 | one more call through the hook is one more step of the delivery |
| SliceServe.StreamChunk | Fallout4/src/Hooks.cpp:2285-2500 | a caller that passes buffers until stream end gets the chunk through the hook, with the right return codes and the packed size consumed as far as its last input allows |
| SliceServe.FirstTwoCalls | Fallout4/src/Hooks.cpp:2292-2356 | after a partial first slice the next call continues at the cursor if and only if that slice consumed input; otherwise it begins again or leaves the call to the stock function, by its input |
| SliceServe.TinyFirstSliceRepeats | Fallout4/src/Hooks.cpp:2292-2298 | two calls of the hook on a concrete chunk whose first slice consumes nothing: the first byte is delivered twice |

## Left out

- AdmissionControl.DecompCache.EnforceSizeLimit: the order of eviction candidates (by last use) is a parameter, and unowned files of no known archive appear only as the bytes they add to a scan.
- AdmissionControl.DecompCache.ReconcileDiskAccounting: a scan sees all files at one instant, and its saturation at 2^64 - 1 bytes is not modelled.
- CompressedStream.HookedStream.DoRead: calls on one stream are sequential, so the branches for a state retired meanwhile are not taken; races with closing or destroying the stream belong to the engine's contract.
- CompressedStream.HookedStream.Attach: assumes that a cache entry found for the archive and offset with the declared size is this stream's payload; for captured payloads of the declared size `RecordedFlush.CaptureAndFind` proves it.
- StreamClone.DoClone: a clone handed out by the stock function is assumed to be a compressed stream like its parent; one with another vtable is left to the stock code.
- StreamState.NativeStream.Seek: a failed stock seek is assumed to leave the position; stock code is otherwise free to be short or fail.
- SourceSeqlock.LookupsAreAtomic: generations do not wrap at 2^64, an answer and its deadline are one store, and accesses are sequentially consistent; weaker memory orders are not modelled anywhere.
- Worker.NothingIsLostFromStart: stop requests and an exception that ends the worker are not modelled; prefaulting is enabled.
- Admission.HardCap: bytes of temporary files, of files of other processes and of uncommitted file tails are outside the claim; they appear only as extra bytes of a scan.
- Checksum arithmetic (XXH32): an arbitrary function, since collisions are not a provable claim.
- Win32 files, mappings, locks and structured exceptions: replaced by operations that may fail.
- Archive header parsing and the declared-size memo: the entry count and the declared size are inputs.
- Vtable patching, signature scans, detours and field offsets: they rest on memory the files do not show.
- Settings, statistics, logging, benchmarking and messages: plumbing.
- The Fallout 4 cache, archive parser and stream reader: simpler relatives of what is modelled.
