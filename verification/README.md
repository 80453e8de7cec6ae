# Sparse stems: storage, playback and their protocols

A Dafny model of how a stem gets from a sparse package or a FLAC chunk into an audio ring, and proofs of what the
code promises on the way. Everything the data plane does is compared with one object: the dense source, the byte
sequence `DensePcm.Dense(index, packed)` in which the intervals of an index carry the packed bytes and the rest is silence.

The parts, and the results they lead to:

1. **Sparse data plane** (`CanonicalJson`, `DensePcm`, `SparsePcm`, `SparseWindow`, `SparseMarker`, `SparseIngest`,
   `SparseManifest`, `SparseMapping`, `SparseVerify`, `SparseVerifyWorker`, `SparseInstall`, `SparseCommit`,
   `CommittedSource`). A decode of the manifest's chunks, cut anywhere, is mapped to spans that ingest never rejects; the
   coalesced index is the one the manifest implies; ingest, both verifiers and every window read agree on the dense source;
   the running size of the marker is the exact length of its JSON; and through every failure, cancellation and crash a
   complete marker stands beside the data it describes. `SparseInstall.InstallVerifyRead` composes these end to end.
2. **Package format** (`KeyOrder`, `JsonReader`, `ManifestJson`, `SparseFormat`, `SparsePackage`). The canonical JSON printer
   has an inverse, puts every object in key order, and prints two values alike exactly when they have the same canonical
   form; a manifest is admitted exactly from its canonical bytes; a package round-trips in both directions.
3. **Playback pump** (`PcmSamples`, `PumpSignal`, `PumpSource`, `PumpOrder`, `PumpBounds`, `PcmPump`, `SparsePump`).
   `Pump.Valid` holds after every pass, read completion, deadline, ring movement, seek and close, in any order. It implies
   that every generation plays the dense signal from its clamped seek target on, and nothing read for an older generation.
4. **SHA-256** (`Sha256Words`, `Sha256`, `Sha256Compress`, `Sha256Stream`). The JavaScript compression over doubles and the
   C compression compute the function of FIPS 180-4, and the incremental digest does not depend on how the message was cut.
5. **Byte cursors** (`ResponseCursor`, `FlacMetadata`, `FiniteSource`, `PackageBody`). What the decoder gets, what is hashed
   and where the cursor ends do not depend on how the body was chunked (RFC 9639, sections 8.1 and 8.2 for the metadata), from
   one metadata block up to the whole payload of a package.
6. **Transports and schedulers** (`FlacInputSlot`, `FlacDecodeJob`, `StemAdmission`, `FlacWorkerPool`,
   `SparseVerifyTransport`, `SparseVerifyPool`, `OpfsWriters`, `NamedLocks`). The slot, the decode job, the progress protocol
   and the locks are state machines: an invariant of every step (`ApplyInv`), hence of every run (`RunInv`), hence safety in
   every reachable state. The queues and pools are classes whose invariant every operation keeps.

Two promises turned out false of the code, and are stated with the exact condition under which they hold:

- Jobs queued in the verification pool can be stranded: they wait, the pool is open, and no Worker and no continuation is
  left that could start them. When the construction of a Worker throws, `dispatch` settles the job at the head and returns
  (src/stems/sparse-verify-worker-pool.ts:203-224). `VerifyPool.Dispatch` states when this happens, in terms of the pool before
  the call: no Worker, nothing on its way out, at least two jobs waiting, and no Worker can be constructed for the head.
  `VerifyPool.Continue` strands a job after the last Worker failed; `VerifyPool.Run` leaves a stranded one stranded exactly when
  the construction for the head fails again; `VerifyPool.Abort` strands none. `SparseVerifyPool.StrandingRun` reaches such a
  pool by its own operations.
- The open-writer count of the OPFS client can fall short. A writer whose Worker could not be constructed releases what it
  never acquired (src/stems/opfs-worker-client.ts:98-105); if another writer has acquired in the same generation by then,
  the count is short or the Worker goes under it. `WriteClient.ConstructionFailed` states that the invariant survives if and
  only if the generation is over or nobody has acquired in it; `OpfsWriters.ShortCount` is two writers for whom it does not.

Where a check of the source cannot fail, that is proved as well: the metadata and marker bounds
(`SparsePcm.IntervalBoundUnreachable`, `SparsePcm.IndexBoundUnreachable`, `SparseMarker.MarkerBoundUnreachable`), the "render
boundary" error of the pump (`PumpSource.Source.QuantumInside`), the host occupancy guard and the credit overflow
(`FlacDecodeJob.CreditSafety`), "stale ack", "not monotonic" and "overlapping jobs" (`SparseVerifyTransport.AckSafety`), the
response position check before a chunk (`PackageBody.ReadNext`), and the decrement in the failure branch of the OPFS client's
`acquire` (`OpfsWriters.WriteClient.Resume`).

Conventions. Bytes are `int` in [0, 256); numbers are unbounded, with the safe-integer and 32-bit limits of the source written
out. Exceptions are `Result` or `Option` values. What the surroundings do (quota, cancellation, a torn write, a Worker that
cannot be constructed, a signal that fires) are parameters of operations or steps of a state machine, so each result
holds for all of it. A BLAKE3 digest is a parameter `blake3: seq<Byte> -> string` applied to everything fed.

## Model

| member | source | states |
|---|---|---|
| CanonicalJson.SortLength | src/stems/canonical-json.ts:2-17 | Sorting the members of an object never changes the length of what is printed, so lengths can be accounted field by field. |
| CanonicalJson.ObjectLength | src/stems/canonical-json.ts:2-17 | The printed object is as long as its members, the commas between them and two braces, in whatever order they were given. |
| JsonReader.RoundTrip | src/stems/canonical-json.ts:2-17 | Reading what the canonical printer prints gives the same value back, with the members of every object, at every depth, in key order. |
| JsonReader.PrintInjective | src/stems/canonical-json.ts:2-17 | Two values print the same text if and only if they have the same canonical form: the encoding is canonical. |
| KeyOrder.KeyLessMeans | src/stems/canonical-json.ts:9 | A key comes before another exactly when it has the smaller code unit at the first difference, or ends there. |
| KeyOrder.SortInOrder | src/stems/canonical-json.ts:9 | Sorting puts the members of an object in key order. |
| KeyOrder.CanonOrdered | src/stems/canonical-json.ts:2-12 | The canonical form has the members of every object, at every depth, in key order. |
| KeyOrder.PrintReordered | src/stems/canonical-json.ts:2-12 | Objects with distinct keys and the same members print the same text, whatever order the members are given in, here and further down. |
| KeyOrder.PrintCanon | src/stems/canonical-json.ts:2-12 | A value and its canonical form print the same text. |
| KeyOrder.SortKeeps | src/stems/canonical-json.ts:8-10 | Sorting loses and invents no member. |
| DensePcm.CoalesceKeeps | src/stems/sparse-store.ts:1054-1088 | Coalescing a span onto a valid index keeps it ordered, gapless in the file, free of touching neighbours, and moves its end and its bytes by the span. |
| DensePcm.DenseInside | src/stems/sparse-pcm.ts:250-277 | Every byte of a frame inside an interval is the packed byte at the interval's offset. |
| DensePcm.DenseGap | src/stems/sparse-pcm.ts:250-277 | Frames between intervals are zero bytes. |
| DensePcm.DenseTail | src/stems/sparse-pcm.ts:250-277 | Frames behind the last interval are zero bytes. |
| SparsePcm.ScanIntervals | src/stems/sparse-pcm.ts:164-188 | The validation loop accepts exactly the intervals that are ordered, inside the source and packed back to back, stops at the first that is not, and its running totals are the packed size and the metadata size. |
| SparsePcm.ValidateSparsePcmIndex | src/stems/sparse-pcm.ts:137-212 | An index is accepted if and only if its shape, count, intervals and all three declared sizes fit; the size error never occurs. |
| SparsePcm.EncodedBytes | src/stems/sparse-pcm.ts:192-195 | The encoded size computed from a prefix, a suffix and the interval sizes is exactly the length of the index's canonical JSON. |
| SparsePcm.IntervalBoundUnreachable | src/stems/sparse-pcm.ts:183-186 | Intervals that pass the other checks never exceed the metadata bound. |
| SparsePcm.IndexBoundUnreachable | src/stems/sparse-pcm.ts:192-198 | A valid index never exceeds the bound on its encoding. |
| SparseWindow.FirstIntersecting | src/stems/sparse-pcm.ts:214-224 | The binary search finds the first interval that ends behind the frame: everything before it ends at or before the frame. |
| SparseWindow.ReadSparsePcmWindow | src/stems/sparse-pcm.ts:230-278 | A window of an admitted index is the slice of the dense source at those frames; the read is refused exactly for an index that was not admitted, a file of another size or a window out of range, and fails as short exactly when the window touches an interval and the file read brings too little. |
| SparseWindow.ReadWindow | src/stems/sparse-pcm.ts:247-277 | Zero fill, one contiguous packed read and the copies per interval rebuild the dense slice; without an interval in the window nothing is read, so nothing can be short. |
| SparseMarker.ProspectiveExact | src/stems/sparse-store.ts:1451-1469 | The prospective marker size is the length of the canonical JSON of the marker that would be written now. |
| SparseMarker.MarkerBoundUnreachable | src/stems/sparse-store.ts:1065 | With bounded file names the marker of a valid index never exceeds its bound. |
| SparseIngest.AppendValid | src/stems/sparse-store.ts:1048-1091 | An admitted span keeps index and file valid and moves the end to the end of the span. |
| SparseIngest.CoveredAppend | src/stems/sparse-store.ts:1066-1091 | The dense bytes after a span are those before it, the gap as zeros, then the span, whether it opened an interval or lengthened one. |
| SparseIngest.HashZeros | src/stems/sparse-store.ts:1412-1431 | A gap feeds exactly its number of zero bytes in blocks, refuses unsafe ranges before feeding anything, and a cancelled gap has fed the whole blocks before the cancellation. |
| SparseIngest.Ingest.CheckSpan | src/stems/sparse-store.ts:1052-1065 | A span is rejected exactly when it is out of order, out of range, badly sized or opens an interval too many; otherwise the running interval bytes are those of the coalesced index. |
| SparseIngest.Ingest.ProcessSpan | src/stems/sparse-store.ts:1048-1091 | The first failing check decides the outcome; success appends to index, file, hash and accounting together; any failure leaves index and totals alone, and only a failed write touches the file, with a prefix of the span. |
| SparseIngest.Ingest.AccountingExact | src/stems/sparse-store.ts:1054-1065 | At every point of the run the size check measures exactly the marker that would be written. |
| SparseIngest.Ingest.Finish | src/stems/sparse-store.ts:1094-1099 | The end of the stream succeeds exactly when it is not cancelled, an asserted index equals the derived one, and the dense source has the declared identity; then exactly the dense source was hashed. |
| SparseIngest.Ingest.DeriveIndex | src/stems/sparse-store.ts:1097 | The derived index always validates. |
| SparseIngest.RunFile | src/stems/sparse-store.ts:1048-1093 | The packed file of a run is its spans end to end. |
| SparseIngest.RunDense | src/stems/sparse-store.ts:1048-1096 | The dense bytes of a run are its spans laid on the timeline with silence between them, whatever they were coalesced into. |
| SparseManifest.IndexedValid | src/stems/sparse-pcm.ts:78-121 | The index of any prefix of placed manifest intervals is valid, ends where they end and packs their bytes. |
| SparseManifest.DeriveSparsePcmIndex | src/stems/sparse-pcm.ts:78-121 | Deriving succeeds exactly for the packed size the manifest implies, and gives a valid index with one interval for each of the manifest's. |
| SparseMapping.SparsePull.MapNextBlock | src/stems/sparse-resolver.ts:170-197 | Every span handed out extends the run accepted so far; a block outside the intervals occurs only when the decode does not match the manifest. |
| SparseMapping.SparsePull.NextSpan | src/stems/sparse-resolver.ts:211-324 | Each pull makes progress by one span, ends, or fails; it fails only for a decode that does not match, or for a cancellation, a failed decode, a misplaced response or trailing bytes. |
| SparseMapping.SparsePull.Drain | src/stems/sparse-resolver.ts:211-324 | Unless something goes wrong around it, pulling to the end succeeds if and only if the decoded blocks cover the declared chunks, however they were cut; the spans are all admissible, concatenate to the packed PCM, and coalesce to the manifest's index. |
| SparseMapping.PackedGrows | src/stems/sparse-resolver.ts:161-168 | Packed positions of intervals grow strictly, so a packed position belongs to one interval. |
| SparseVerify.SparseVerifyExpectedCounts | src/stems/sparse-verify-worker-protocol.ts:100-120 | The counting loop gives the reads and zero updates of every interval and gap in pieces, and their sum. |
| SparseVerify.ExpectedCountsSafe | src/stems/sparse-verify-worker-protocol.ts:100-120 | The expected counts of a valid index never leave the safe integers. |
| SparseVerify.VerifyLocal | src/stems/sparse-store.ts:1562-1594 | The local verifier decides exactly when no read fails or is short and no cancellation stops it, and then accepts exactly the files whose dense source has the declared identity. |
| SparseVerifyWorker.UnpackPacked | src/stems/sparse-verify-worker-protocol.ts:122-165 | The intervals the Worker unpacks are those the host packed. |
| SparseVerifyWorker.WorkerStart | src/stems/sparse-verify-worker-protocol.ts:122-165 | A start message is admitted exactly when its numbers, sizes and intervals are consistent. |
| SparseVerifyWorker.WorkerInterval | src/internal/engine-web-sparse-verify-worker.ts:148-159 | The pieces read at the interval's own offset are exactly its packed bytes, and the payload cursor never leaves its bound. |
| SparseVerifyWorker.Walk | src/internal/engine-web-sparse-verify-worker.ts:142-161 | Walking the intervals feeds the covered bytes with their silence in order, and stops exactly at the first read or gap that is disturbed. |
| SparseVerifyWorker.WorkerVerify | src/internal/engine-web-sparse-verify-worker.ts:125-193 | On an admitted request the Worker reports the digest of the dense source, exactly the expected counts and its own byte counts, or stops exactly because a read fails or is short or the signal fires; its consistency checks never fail. |
| SparseVerifyWorker.VerifyOnWorker | src/stems/sparse-store.ts:1486-1605 | A verification the Worker finishes decides exactly by the identity of the dense source, and it is declined exactly for an index too large for the message. |
| SparseInstall.PackageLaid | src/stems/sparse-resolver.ts:170-324 | The packed PCM of a matching decode fills the manifest's intervals exactly. |
| SparseInstall.Install | src/stems/sparse-store.ts:1014-1126 | Ingest never rejects a mapped span; an install that succeeds holds the packed PCM under the index the manifest implies, with the declared identity; with no trouble from storage, decoder or signal it succeeds for every complete decode with that identity. |
| SparseInstall.InstallVerifyRead | src/stems/sparse-store.ts:371-442 | Whatever happened during the install, a source it installed is never refused: the local verifier confirms it exactly when nothing stops it, the Worker never decides against it, and any window read from it is the slice of the declared source. |
| SparseCommit.RunInv | src/stems/sparse-store.ts:1014-1126 | The commit invariant holds after every step of every run with failures, cancellations, failed removals and crashes anywhere. |
| SparseCommit.CommitSafety | src/stems/sparse-store.ts:1101-1125 | Whenever a complete marker is present its data file is closed, has the marker's size and was proved for that index; a committed transaction has its marker; a cleanup whose removals worked leaves nothing. |
| SparseCommit.DataOutlivesMarker | src/stems/sparse-store.ts:1027-1030 | No step removes a closed data file while an entry of the marker is there. |
| SparseCommit.CommitStays | src/stems/sparse-store.ts:1101-1125 | Once committed, marker and data never change again. |
| CommittedSource.VerifyCommitted | src/stems/sparse-store.ts:1486-1605 | After any run of the commit, a complete marker stands beside complete data of its size; verification never decides against it, and confirms it whenever nothing stops it. |
| ManifestJson.ReadManifestOf | src/stems/sparse-format.ts:159-271 | Every JSON object that spells a well-formed manifest, with its keys in any order, reads as that manifest. |
| ManifestJson.CanonDescribes | src/stems/sparse-format.ts:273-275 | The object written for a manifest spells it, with the keys of every object in canonical order. |
| ManifestJson.ChunkSums | src/stems/sparse-format.ts:204-235 | The running sums over placed chunks stay far below the safe range. |
| SparseFormat.ValidateIntervals | src/stems/sparse-format.ts:184-202 | The running endpoints of the loop decide exactly whether every interval is placed. |
| SparseFormat.ValidateChunks | src/stems/sparse-format.ts:204-235 | The running endpoints of the loop decide exactly whether every chunk is placed. |
| SparseFormat.ValidateManifest | src/stems/sparse-format.ts:159-271 | One pass accepts exactly the objects that spell a well-formed manifest for the payload size. |
| SparsePackage.ReaderInverts | src/stems/sparse-format.ts:330-354 | There is a parser that inverts the printer, so what is assumed of `JSON.parse` below is met. |
| SparsePackage.PrintAscii | src/stems/sparse-format.ts:273-275 | The canonical text is ASCII, so its bytes are its characters. |
| SparsePackage.HeaderExact | src/stems/sparse-format.ts:310-327 | A header is admitted with a length exactly when it is the header of that length and the length is within bounds. |
| SparsePackage.ManifestExact | src/stems/sparse-format.ts:330-354 | Bytes admit a manifest if and only if they are its canonical encoding and it is well-formed and fits the payload. |
| SparsePackage.ManifestUnique | src/stems/sparse-format.ts:330-354 | Two different byte strings never admit the same manifest, and one never admits two. |
| SparsePackage.BytesInjective | src/stems/sparse-format.ts:362-364 | The encoding of a well-formed manifest determines it. |
| SparsePackage.PackageRoundTrip | src/stems/sparse-format.ts:367-394 | Parsing a serialized package gives the manifest, the payload start and the payload length back. |
| SparsePackage.PackageCanonical | src/stems/sparse-format.ts:367-394 | Whatever parses as a package is the serialization of its manifest and payload: a package has one encoding. |
| PcmSamples.SampleFaithful | src/stems/pump.ts:355-381 | Every byte pattern is a sample in range, and the sample determines the bytes. |
| PcmSamples.SampleRange | src/stems/pump.ts:355-381 | The floats lie in [-1, 1) and scale back to the integers. |
| PcmSamples.WindowPlanes | src/stems/pump.ts:284-297 | De-interleaving a part of a window gives the samples of the whole stem at those frames. |
| PcmSamples.Deinterleave | src/stems/pump.ts:355-381 | The planes are filled with exactly the samples of the chunk and untouched behind it; a mismatched shape or short window is refused without writing. |
| PumpSignal.AlignedBounds | src/stems/pump.ts:259 | An aligned window is whole quanta and more than half of windowFrames, so a drained window always qualifies for read-ahead. |
| PumpSignal.HeardSignal | src/stems/pump.ts:284-297 | The chunks of a generation, one behind the other, are the dense signal from the seek target to the cursor. |
| PumpSignal.EndMarked | src/stems/pump.ts:293-295 | endOfRegion marks the chunk that reaches the end of the stem and no other. |
| PumpOrder.ArrangedSorted | src/stems/pump.ts:226-229 | The list of sources is a permutation in comparator order with ties in the order of the round. |
| PumpOrder.TotalInTurn | src/stems/pump.ts:158-164 | A round's total does not depend on the source it starts with. |
| PumpSource.Source.CanWrite | src/stems/pump.ts:212-218 | A drained window gives way to the next one, and the answer is whether there are frames to write and room for them. |
| PumpSource.Source.QuantumInside | src/stems/pump.ts:284-288 | The window reaches as far as the next quantum, so the "render boundary" error is unreachable. |
| PumpSource.Source.WriteOne | src/stems/pump.ts:284-297 | A granted turn commits one chunk of this generation at the cursor with the dense samples there, and moves the cursor by it; otherwise nothing changes. |
| PumpSource.Source.StartRead | src/stems/pump.ts:231-241 | A read starts at the end of the window, or at the cursor without one, only when it is needed. |
| PumpSource.Source.Settle | src/stems/pump.ts:251-280 | Only a read of the running generation with the right size fills a slot; any other changes no window. |
| PumpSource.Source.Seek | src/stems/pump.ts:187-194 | The source moves to the clamped target with no window and opens a new region; a pending read keeps its slot. |
| PumpSource.Source.ServedMeansStocked | src/stems/pump.ts:224-249 | A source the scheduler has served and that waits for no read has frames to write. |
| PumpSource.Source.FootprintBound | src/stems/pump.ts:121-126 | Both windows and the read in flight stay within the announced bound of two windows per source. |
| PcmPump.OpenPump | src/stems/pump.ts:79-137 | A pump opens exactly for sources with distinct, non-empty ids, admissible shapes and rings, a window size in range and byte bounds that are safe integers; it starts in a valid state at frame zero with the bounds it announces. |
| PcmPump.Pump.ScheduleReads | src/stems/pump.ts:224-249 | Afterwards four reads run or every source is served, and every source that got a read precedes every one that still wants one in the order of need. |
| PcmPump.Pump.Walk | src/stems/pump.ts:230-248 | The scheduler's walk starts reads only along its order and stops only at four reads or the end. |
| PcmPump.Pump.Bounded | src/stems/pump.ts:121-126 | Never more than four reads are in flight, and all windows and reads together stay within the announced bound. |
| PcmPump.Pump.ScratchBounded | src/stems/pump.ts:127-130 | The reads in flight, whichever sources they belong to, never ask for more bytes than the announced read scratch. |
| PumpBounds.ChosenTop | src/stems/pump.ts:127-130 | Any k of the window sizes come to no more than the k first in descending order. |
| PcmPump.Pump.PassBegin | src/stems/pump.ts:147-157 | A pass sleeps only while a read is in flight and a source lacks a window: waiting never deadlocks. |
| PcmPump.Pump.IdleMeansStocked | src/stems/pump.ts:149-157 | With no read left to wait for, every unfinished source has frames to write. |
| PcmPump.Pump.Round | src/stems/pump.ts:158-164 | Every source gets one turn, starting with the round-robin source; it commits the dense samples of what was due behind everything it had committed, and the counts returned are the totals of what the sources moved. |
| PcmPump.Pump.PassWrite | src/stems/pump.ts:158-168 | A pass moves every source by what was due, adds exactly that to what it has committed, returns the totals, passes the first turn on, and saturates the scheduler again. |
| PcmPump.Pump.SettleRead | src/stems/pump.ts:251-280 | Whatever seeks came in between, a read fills a window only in its own generation, and its failure is recorded only then. |
| PcmPump.Pump.ReadDone | src/stems/pump.ts:242-246 | A settled read leaves the list and the scheduler is saturated again. |
| PcmPump.Pump.Expire | src/stems/pump.ts:252-255 | A deadline records the first failure of a running pump and nothing else. |
| PcmPump.Pump.SeekFrames | src/stems/pump.ts:183-195 | A seek moves every source to the clamped target under the next generation and opens a region there; on a closed pump it does nothing. |
| PcmPump.Pump.Close | src/stems/pump.ts:197-206 | Closing drops every window and leaves a valid pump in which reads settle into nothing. |
| PcmPump.Pump.PlaysTheStem | src/stems/pump.ts:147-297 | In every reachable state and every generation, a source has played the dense signal from its seek target on, without gap, overlap or stale bytes, and marked exactly its end. |
| SparsePump.SparseRead | src/stems/pump.ts:251-280 | With an admitted sparse asset only a short file read fails the pump, and a current read that brings all leaves the source with frames to write. |
| Sha256Words.Sum4Denotes | src/stems/sha256.ts:201-238 | A sum of four words in doubles is exact, and one `>>> 0` at its end is 32-bit addition throughout. |
| Sha256Words.Sum5Denotes | src/stems/sha256.ts:201-238 | The same for the five terms of a round. |
| Sha256Words.Add4Reversed | native/sha256.c:82 | The C code's order of adding the schedule's terms gives the same word. |
| Sha256Compress.CompressJs | src/stems/sha256.ts:201-238 | The JavaScript compression of any number of blocks is the function of FIPS 180-4, section 6.2.2. |
| Sha256Compress.CompressC | native/sha256.c:69-119 | The C compression is the same function, built with vectors or without. |
| Sha256Compress.LoadVectors | native/sha256.c:37-66 | The shuffled vector loads give the same sixteen big-endian words as the portable ones. |
| Sha256.FoldJoin | src/stems/sha256.ts:144-172 | Compressing blocks in batches is compressing them in one go. |
| Sha256Stream.PaddedParts | src/stems/sha256.ts:174-195 | The padded message is whole blocks: the message, the one bit, the fewest zeros, the length (FIPS 180-4, section 5.1.1). |
| Sha256Stream.LengthExact | src/stems/sha256.ts:184-187 | Below 2^64 bits the two length words are the length. |
| Sha256Stream.IncrementalSha256.Update | src/stems/sha256.ts:144-172 | Appending a chunk continues the message, with any split between block buffer and direct batches, on every backend. |
| Sha256Stream.IncrementalSha256.Digest | src/stems/sha256.ts:174-195 | The digest is that of everything appended, however it was cut; a second one is refused. |
| ResponseCursor.Cursor.NextBody | src/stems/sparse-response.ts:227-268 | Taking the next view never loses a byte of the rest of the body. |
| ResponseCursor.Cursor.ReadExact | src/stems/sparse-response.ts:269-295 | An exact read gives the next bytes of the body across any number of views, moves the position by them, and fails of itself only on a short body. |
| ResponseCursor.Cursor.ReadChunk | src/stems/sparse-response.ts:296-305 | A borrowed input is the next bytes of the body; one is live at a time. |
| ResponseCursor.Cursor.AssertEof | src/stems/sparse-response.ts:309-312 | The end of the payload is confirmed exactly when the body is over. |
| FlacMetadata.MetadataScanner.AcceptHeader | src/stems/native-flac-metadata.ts:109-152 | The scanner accepts exactly the legal block headers at its offset and moves behind the block. |
| FlacMetadata.WalkFindsAudio | src/stems/native-flac-metadata.ts:109-152 | Over any legal list of at most 128 written blocks the walk ends exactly behind the last one. |
| FlacMetadata.UnpackPack | src/stems/native-flac-metadata.ts:52-106 | Each STREAMINFO field is read from the bits RFC 9639, section 8.2 puts it in. |
| FlacMetadata.DescriptionParses | src/stems/native-flac-metadata.ts:52-106 | The description handed to the decoder parses to the same stream information and is marked last. |
| FlacMetadata.AudioFound | src/stems/decoder-byte-source.ts:230-261 | For every encoded chunk with legal metadata the audio is found to be what follows the last block. |
| FiniteSource.Source.ReadBytes | src/stems/sparse-resolver.ts:102-127 | The chunk's reader delivers the next bytes of the declared extent and never one behind it. |
| FiniteSource.Source.Pull | src/stems/decoder-byte-source.ts:191-214 | Every pull gives the next bytes in order and hashes them once; within the extent it fails of itself only on a short body. |
| FiniteSource.Source.WalkMetadata | src/stems/decoder-byte-source.ts:237-249 | The walk stays aligned with the scanner and stops exactly where the audio starts, or fails because there is no such place. |
| FiniteSource.Source.Prepare | src/stems/decoder-byte-source.ts:230-261 | Preparing consumes the metadata and no audio, and fails of itself exactly for an encoding that is short, malformed, without audio or without a usable size. |
| FiniteSource.Source.Read | src/stems/decoder-byte-source.ts:263-267 | The decoder gets the bytes behind the metadata in order, and the end is announced with the last one. |
| FiniteSource.Source.Finish | src/stems/decoder-byte-source.ts:269-280 | Finishing succeeds exactly when the declared bytes have the declared SHA-256, and leaves the cursor at the byte behind the chunk. |
| PackageBody.ReadChunk | src/stems/sparse-resolver.ts:102-127 | Whatever the decoder asks for, a chunk that verifies had its declared bytes, digest and audio, the decoder got the beginning of that audio, and the response stands behind the chunk; on a sound response it fails only for a chunk that is short or not genuine. |
| PackageBody.ReadNext | src/stems/sparse-resolver.ts:258-303 | The response stands at the admitted place of every chunk when its turn comes, so the check of the position never fails. |
| PackageBody.ReadPayload | src/stems/sparse-resolver.ts:211-324 | Reading all chunks succeeds on a sound response exactly when the body is genuine chunks, one behind the other, with nothing behind them. |
| FlacInputSlot.ApplyInv | src/stems/flac-input-slot.ts:44-117 | Every atomic step of producer or consumer keeps the slot invariant. |
| FlacInputSlot.SlotSafety | src/stems/flac-input-slot.ts:44-117 | In every interleaving the bytes read plus the unread slot are the bytes published, an end of file is reported only after the last chunk was read out, and a refill is requested only for an empty slot. |
| FlacDecodeJob.ApplyInv | src/stems/flac-resolver.ts:555-687 | Every step of host, Worker, consumer and command lane keeps the decode invariant, over any number of jobs. |
| FlacDecodeJob.CreditSafety | src/stems/flac-output-credits.ts:4-36 | Credits held, PCM on the way, blocks queued or checked out and credits on the way back are two while the job is live and never more than two in any reachable state; the host holds no more than those, and no protocol fault of either side occurs. |
| StemAdmission.LineMoves | src/stems/flac-admission.ts:206-219 | Serving or passing over the head of a line keeps everybody in strict order of arrival. |
| StemAdmission.LineLeaves | src/stems/flac-admission.ts:172-177 | Leaving a line anywhere keeps the order and removes exactly that waiter. |
| StemAdmission.BoundedStemAdmission.Acquire | src/stems/flac-admission.ts:160-182 | A call is granted at once below the limit, queued at it, and rejected when closed or aborted. |
| StemAdmission.BoundedStemAdmission.AdmitNext | src/stems/flac-admission.ts:206-219 | Waiters are admitted from the head in order, aborted ones passed over, until the limit is reached or nobody waits. |
| StemAdmission.BoundedStemAdmission.Release | src/stems/flac-admission.ts:194-204 | A lease released twice counts once; a release hands its place to the first live waiter. |
| StemAdmission.BoundedStemAdmission.Leave | src/stems/flac-admission.ts:172-177 | An aborted waiter leaves the queue, wherever it stands, and nobody else does. |
| FlacWorkerPool.WorkerPool.Drain | src/stems/flac-worker-pool.ts:283-309 | Jobs start in the order they came, each with an idle Worker or a construction, until every Worker is busy and no construction may start; a closing pool starts none. |
| FlacWorkerPool.WorkerPool.Settle | src/stems/flac-worker-pool.ts:283-309 | The end of every continuation leaves the whole pool invariant: reservations owned, constructions counted, no job lost, nobody waiting beside room, the close resolved exactly when nothing is left. |
| FlacWorkerPool.WorkerPool.Run | src/stems/flac-worker-pool.ts:215-281 | A job is refused exactly by a closing pool or a fired signal; in a retained epoch it is queued, without one it asks for its own reservation. |
| FlacWorkerPool.WorkerPool.Granted | src/stems/flac-worker-pool.ts:311-356 | A granted construction yields a live Worker, or gives its reservation back when it fails or the epoch is closing. |
| FlacWorkerPool.WorkerPool.JobEnds | src/stems/flac-worker-pool.ts:403-446 | The Worker survives exactly when its job ended with an acknowledged reset and the epoch is still retained. |
| FlacWorkerPool.WorkerPool.Returns | src/stems/flac-worker-pool.ts:303-352 | A construction stops being counted only after the first job of its Worker, and then jobs move up. |
| FlacWorkerPool.WorkerPool.OneShotAborted | src/stems/flac-worker-pool.ts:221-254 | A one-shot job whose signal fires while it waits leaves the line for a reservation, and nothing else changes. |
| FlacWorkerPool.WorkerPool.Retain | src/stems/flac-worker-pool.ts:187-213 | A new epoch starts unless the last one is still draining. |
| FlacWorkerPool.WorkerPool.BeginClose | src/stems/flac-worker-pool.ts:463-489 | The end of an epoch rejects every queued job, aborts every wait and terminates every idle Worker, and resolves when nothing is left. |
| FlacWorkerPool.WorkerPool.WithinLimit | src/stems/flac-worker-pool.ts:283-356 | Live Workers and constructions never exceed the limit, and the active reservations are exactly those of live Workers, granted constructions and one-shot jobs. |
| SparseVerifyTransport.AckSafety | src/stems/sparse-verify-worker-pool.ts:294-352 | In every run, with job ids shared among slots and increasing, at most one report or acknowledgement of the job is on its way, no "stale", "not monotonic" or "overlapping" error occurs, and every job settles once, in order, with its own id and generation. |
| SparseVerifyPool.VerifyPool.Advance | src/stems/sparse-verify-worker-pool.ts:203-224 | One step of dispatch starts the head on a free slot or a new one within the width, waits when all are busy, or gives up exactly when no slot is free, there is room, and the Worker cannot be constructed. |
| SparseVerifyPool.VerifyPool.Dispatch | src/stems/sparse-verify-worker-pool.ts:203-211 | Jobs start in order until every Worker up to the width is busy or a construction fails for a queued job. It leaves jobs stranded if and only if it finds no Worker, nothing on its way out and at least two jobs waiting, and no Worker can be constructed for the first of them. |
| SparseVerifyPool.VerifyPool.Run | src/stems/sparse-verify-worker-pool.ts:158-180 | A job is refused exactly by a closed pool and queued behind the others otherwise; afterwards jobs are stranded exactly when they were before and no Worker can be constructed for the first of them. |
| SparseVerifyPool.VerifyPool.Continue | src/stems/sparse-verify-worker-pool.ts:381-395 | A failed job settles once; then jobs move up, or the pool closes when its Worker could not be terminated. Jobs are left stranded exactly when this was the last thing left, two or more wait, and no Worker can be constructed for the first. |
| SparseVerifyPool.StrandingRun | src/stems/sparse-verify-worker-pool.ts:203-224 | A pool of width one, three jobs, a Worker that fails and a construction that fails leave the third job stranded in a valid pool. |
| SparseVerifyPool.VerifyPool.Abort | src/stems/sparse-verify-worker-pool.ts:354-366 | An aborted job settles from the queue or gives up its slot; any other is left alone. No job is stranded by it, and jobs stranded before stay so unless the last one left. |
| SparseVerifyPool.VerifyPool.AllSettled | src/stems/sparse-verify-worker-pool.ts:416-420 | When nothing waits, runs or leaves, every job has settled exactly once. |
| OpfsWriters.WriteClient.Acquire | src/stems/opfs-worker-client.ts:132-180 | An acquisition reuses the Worker or constructs one, and is counted in its generation; a failed construction counts nothing. |
| OpfsWriters.WriteClient.Resume | src/stems/opfs-worker-client.ts:164-180 | An acquisition fails after its wait exactly when its generation is over, so the decrement of that branch is dead. |
| OpfsWriters.WriteClient.Release | src/stems/opfs-worker-client.ts:219-226 | A release of an older generation changes nothing, and one of this generation ends it only when it was the last holder. |
| OpfsWriters.WriteClient.ConstructionFailed | src/stems/opfs-worker-client.ts:98-105 | Releasing after a failed construction keeps the invariant if and only if the generation is over or nobody has acquired in it. |
| OpfsWriters.ShortCount | src/stems/opfs-worker-client.ts:98-105 | Two writers in one turn reach a client whose count is short of its holders. |
| OpfsWriters.WriteClient.IdleFires | src/stems/opfs-worker-client.ts:233-245 | The idle timer tears the Worker down only when nobody holds it. |
| OpfsWriters.WriteClient.Fail | src/stems/opfs-worker-client.ts:266-276 | A failure rejects everything pending, once, and ends the generation. |
| OpfsWriters.WriteClient.Receive | src/stems/opfs-worker-client.ts:303-323 | A reply settles its pending request; replies of an older generation or to a settled request change nothing. |
| OpfsWriters.WriteClient.SettlesOnce | src/stems/opfs-worker-client.ts:282-323 | Every request settles exactly once unless it is still pending. |
| NamedLocks.ApplyInv | src/stems/lock.ts:30-101 | Every step of either entry point keeps the chain invariant. |
| NamedLocks.MutualExclusion | src/stems/lock.ts:30-101 | In every run at most one call holds the name, everyone before it is through, and the map keeps the name meanwhile. |
| NamedLocks.NameKept | src/stems/lock.ts:30-101 | The map keeps the name, under the tail of the last call, as long as any call holds it or waits, and forgets it only when all are through. |
| NamedLocks.NoOvertaking | src/stems/lock.ts:82-101 | An aborted waiter never lets its successors in before the current holder releases. |
| NamedLocks.GatesSettle | src/stems/lock.ts:30-101 | Once everyone before it has opened its gate, the next waiting call may enter. |

## Left out

- BLAKE3 is a function of the concatenated updates; its implementation is not part of this model.
- JSON values are null, integers, strings, arrays and objects; strings are printable ASCII without quote and backslash, and other manifest text is rejected. Booleans, fractions, escapes, lone surrogates and the depth of `JSON.parse` are not modelled.
- Option decoding, exact-key checks of options, error texts and error mapping, progress events and millisecond metrics.
- HTTP, Request policy, retries and the response's Content-Length handling; the body is a list of views that may end in a failure.
- The FLAC codec: the decoder is a list of blocks per chunk. The PCM digest of a chunk is not part of this model.
- The Effect runtime, scopes and interruption order; their effects are the cancellations and failures the steps may take.
- SparseMapping.SparsePull.NextSpan: takes the decoded blocks of each chunk as given; that a misplaced response and trailing bytes do not occur on a sound body is proved in PackageBody.
- SparseCommit.CommitSafety: a torn marker is an incomplete entry; that an incomplete marker never decodes as a complete one is not part of this model.
- PcmPump.OpenPump: does not model the matching of sparse assets to sources.
- PumpSource.Source.WriteOne: the ring is an occupancy, a capacity and the chunks committed; its memory layout and atomics are not part of this model.
- PcmSamples.SampleRange: floats are reals; both scales are powers of two, so the single-precision division is exact.
- pumpUntilBlocked and the self-driving pump are not modelled: they only repeat passes.
- FlacWorkerPool.WorkerPool.Run: the module cache, reset handshake and watchdogs are steps that may succeed or fail at any time.
- SparseVerifyPool.VerifyPool.Advance: any free slot may be taken, where the source takes the oldest; job ids and generations are unbounded.
- SparseVerifyTransport.AckSafety: cancel messages are not modelled, since an aborted job terminates its Worker.
- OpfsWriters.WriteClient.Deadline: deadlines may fire at any time; that one carries no generation and may end a later one is kept as the source has it.
- NamedLocks.MutualExclusion: only the fallback chain; the platform's Web Locks and the combination of locks of a stem are not modelled.
- The memory-budget arithmetic of flacAdmissionWidth, flacPipelineWidths and fundedWarmWidth is not modelled: the limits they compute are parameters.
- The dense store, its Worker client, sessions, console, feed and capability tables.
