# bucket: a verified model of the download core

This project models the download core of `bucket`, a command-line client for the Drop game
distribution server, in Dafny. The client downloads a game version as follows:

- The server's manifest maps each file to a chunk: its permissions, one length and one
  checksum per range, and the version name.
- **Planning.** The planner turns every range of every file into a *drop*: a file, a start
  offset, a length and a checksum. It packs the drops into *buckets*, per version. A bucket
  stays below a byte-size target (63 MB) and holds at most 255 drops. A drop at or above the
  target travels alone.
- **Transfer.** For each bucket, the client sends one request naming the drops. The response
  carries a `Content-Lengths` header, which lists the drops' lengths, and a body holding the
  drops' bytes back to back.
- **Demultiplexing.** A pipeline with one writer per drop reads the body once. It writes each
  drop's slice into its file at the drop's offset, and feeds the same bytes to an MD5 context.
- **Digests.** Digests that differ from the manifest checksums are only logged.

The modules follow the source files:

| module | file | what it holds |
|---|---|---|
| `Results` | `results.dfy` | `Option` and `Result` |
| `Models` | `models.dfy` | the record types of `src/models.rs`, and `ChunkBody::create` |
| `Planner` | `planner.dfy` | `generate_buckets`, as an imperative method over the two maps of open buckets. It is proved against `PlanItems`, a fold of one placement step `Place`. |
| `ResponseChecks` | `response_checks.dfy` | the `Content-Lengths` check, `str::split` and `usize` parsing, and the digest comparison |
| `FileImage` | `file_image.dfy` | the file-system effect of the pipeline, as a pure function (`DemuxFiles`) over a map from path to bytes |
| `DownloadInternals` | `download_internals.dfy` | `DropWriter` and `DropDownloadPipeline` as classes over a `Disk` and a `ByteSource` |
| `BucketTransfer` | `bucket_transfer.dfy` | the body of `download_game_bucket` after the HTTP exchange |

I/O failures are nondeterministic: any open, read, write, seek or flush may fail, and a failure
aborts the operation that met it. Each failure raises a ghost fault count on the disk or the
body it struck, so the contracts can say that an operation fails exactly when one of its steps
failed. MD5 and hex encoding are function parameters, left
uninterpreted. The response header arrives as a string and the body as a `ByteSource`.

The header check rejects only *extra* entries: a header with fewer entries than drops passes,
and the missing lengths are never compared (`ShortHeaderScenario`), although the error message
at src/download.rs:174 speaks of an invalid number of entries. An entry that does not parse as a `usize`
reads as 0, so a non-numeric entry passes against a zero-length drop (`NonNumericScenario`).

## Model

| member | source | states |
|---|---|---|
| `Models.CreateChunkBody` | src/models.rs:117-130 | The request carries the context token, and entry `i` names drop `i`'s file and range index, one entry per drop in drop order. |
| `Models.RequestedFiles` | src/models.rs:121-127 | One request entry per drop, in order, with the drop's filename and index. |
| `Models.RequestedFilesAppend` | src/models.rs:121-127 | Building the entries commutes with concatenating drop lists: order is kept and nothing is merged or dropped. |
| `Models.EmptyRequest` | src/models.rs:117-130 | A bucket without drops requests no files. |
| `Planner.FileDropsTile` | src/download.rs:32-44 | A file's drops tile it: the first starts at 0, each starts where the previous one ends, and the last ends at the sum of the file's lengths. |
| `Planner.FileDropsOrdered` | src/download.rs:32-44 | Two drops of one file never overlap and come in increasing offset order. |
| `Planner.MakeDrop` | src/download.rs:35-44 | Drop `i` carries range `i`'s length and checksum, the chunk's permissions, the file's path and the index `i`. The first drop starts at 0, and each later one starts where drop `i - 1` ends. |
| `Planner.FileItems` | src/download.rs:34-43 | Drop `i` of a file is built from range `i`, tagged with the chunk's version. |
| `Planner.Place` | src/download.rs:46-79 | Placing a drop keeps the sealed buckets as a prefix and adds at most one. A drop of at least the target is sealed alone, with its version, and the open buckets and their sizes are left untouched. |
| `Planner.PlaceGrows` | src/download.rs:58-79 | A drop that does not trigger a seal is appended to its version's open bucket (created empty on first use), and the size grows by its length. |
| `Planner.PlaceSeals` | src/download.rs:67-79 | When the open bucket is non-empty and would reach the target, or already holds the maximum, it is sealed and a new bucket holding only the drop replaces it. |
| `Planner.PlaceKeepsBounds` | src/download.rs:46-79 | Placing a drop keeps every sealed bucket sound and every open bucket below the target and the maximum count, with its running size equal to its byte count. |
| `Planner.SealKeepsBounds` | src/download.rs:67-79 | The sealing branch keeps the bounds. |
| `Planner.GrowKeepsBounds` | src/download.rs:78-79 | The appending branch keeps the bounds: the check before it guarantees the appended bucket stays below both limits. |
| `Planner.PlanBounds` | src/download.rs:26-81 | Every state the placement fold reaches has sound sealed buckets (non-empty, and either one oversized drop or at most 255 drops totalling under 63 MB) and bounded open buckets. |
| `Planner.PlaceConserves` | src/download.rs:46-79 | Placing a drop adds exactly that drop, with its version, to the sealed and open buckets together; nothing is lost or duplicated. |
| `Planner.PlanConserves` | src/download.rs:26-81 | After the fold, the sealed and open buckets together hold exactly the placed drops, each with its version, as a multiset. |
| `Planner.FlushConserves` | src/download.rs:83-87 | Flushing the open buckets after the sealed ones holds exactly the drops of both. |
| `Planner.FlushSound` | src/download.rs:83-87 | Every flushed bucket is a non-empty bounded open bucket, so it is sound. |
| `Planner.FlushDone` | src/download.rs:83-87 | Once every version is visited, the flush is complete, sound and lossless. |
| `Planner.FlushStep` | src/download.rs:83-87 | Visiting one version appends its bucket exactly when it is non-empty, and keeps the flush invariant. |
| `Planner.PlaceDrop` | src/download.rs:46-79 | The loop body over the two maps computes exactly `Place`. |
| `Planner.PackFile` | src/download.rs:32-80 | The inner loop over one file's ranges fails exactly when the chunk has fewer checksums than ranges (the indexing panic), with the file and the index. Otherwise it equals the fold over that file's drops. |
| `Planner.FlushOpen` | src/download.rs:83-87 | The final loop keeps the sealed buckets as a prefix and appends each non-empty open bucket exactly once. The result is sound and holds exactly the drops of both. |
| `Planner.GenerateBuckets` | src/download.rs:17-90 | Planning fails exactly when some chunk lacks a checksum. Otherwise every bucket is sound, the sealed buckets come first in placement order, and the result holds every manifest drop exactly once, tagged with its version. |
| `Planner.ScenarioTwoLargeRanges` | src/download.rs:67-79 | Ranges of 40 MB and 30 MB of one file: the first is sealed alone, the second stays open, starting at offset 40 MB. |
| `ResponseChecks.Split` | src/download.rs:171 | `str::split` on ',' yields at least one piece, none containing the separator. |
| `ResponseChecks.SplitJoin` | src/download.rs:171 | Splitting loses nothing: the pieces join back to the header. |
| `ResponseChecks.JoinSplit` | src/download.rs:171 | Pieces without the separator split back out of their join. |
| `ResponseChecks.ParseUsize` | src/download.rs:172 | A parsed value fits in a `usize`, and the text is an optional '+' followed by digits only. |
| `ResponseChecks.ParseDecimal` | src/download.rs:172 | Every `usize` written in decimal, with or without a leading '+', parses back to itself. |
| `ResponseChecks.ParseRejects` | src/download.rs:172 | The empty string, '+' alone and values past `usize::MAX` do not parse. |
| `ResponseChecks.ReadLength` | src/download.rs:172 | An entry's value never exceeds `usize::MAX`. An entry that does not parse reads as 0, and a non-zero value comes only from an optional '+' followed by digits. |
| `ResponseChecks.UnparsableScenarios` | src/download.rs:172 | "-5", " 5" and "abc" read as length 0. |
| `ResponseChecks.AcceptedScenarios` | src/download.rs:172 | "+17" reads as 17 and "007" as 7. |
| `ResponseChecks.CheckContentLengths` | src/download.rs:170-179 | The check passes exactly when the header has no more entries than drops and each entry reads as its drop's length. An extra entry is reported as a count error, after all earlier entries agreed. The first disagreeing entry is reported with the drop's filename, expected length, raw text and parsed value. |
| `ResponseChecks.HeaderForAgrees` | src/download.rs:170-179 | A header listing every drop's own length in decimal passes the check. |
| `ResponseChecks.NoDropsRejected` | src/download.rs:171-175 | A bucket without drops fails whatever the header says, since splitting always yields an entry. |
| `ResponseChecks.HeaderPrefixAgrees` | src/download.rs:171-179 | Removing entries from the end of an agreeing header keeps it agreeing, so short headers pass. |
| `ResponseChecks.ShortHeaderScenario` | src/download.rs:171-179 | With drops of 10 and 20 bytes, header "10" passes. |
| `ResponseChecks.WrongLengthScenario` | src/download.rs:176-178 | With drops of 10 and 20 bytes, header "10,30" fails. |
| `ResponseChecks.ExtraEntryScenario` | src/download.rs:173-175 | With drops of 10 and 20 bytes, header "10,20,5" fails. |
| `ResponseChecks.NonNumericScenario` | src/download.rs:172-178 | With one zero-length drop, header "x" passes. |
| `ResponseChecks.DigestMismatches` | src/download.rs:188-195 | Drop `k` is reported exactly when its hex digest differs from its checksum. The reports are drop indices, each once, in increasing order. |
| `FileImage.WriteAt` | src/download_internals.rs:35-40 | A write of no bytes leaves the file's length unchanged. Otherwise the file becomes as long as the longer of its old content and the write's end. |
| `FileImage.WriteAtBytes` | src/download_internals.rs:35-40 | Byte by byte, the written range holds the new bytes, and the rest holds the old content or zero padding past the old end. |
| `FileImage.WriteAtAppend` | src/download_internals.rs:78-95 | Two consecutive writes, the second starting where the first ended, equal one write of both: packet-by-packet copying equals writing the drop whole. |
| `FileImage.Opened` | src/download_internals.rs:20-26 | Opening with create and without truncate adds the path with empty content when absent, and keeps every existing file's bytes. |
| `FileImage.OpenAllFiles` | src/download_internals.rs:61-67 | Opening the drops' files adds exactly their paths, keeps every old file's content, and makes every new file empty. |
| `FileImage.DropBytes` | src/download_internals.rs:71-96 | Drop `k`'s slice of the stream has exactly the drop's length. |
| `FileImage.OffsetTotal` | src/download_internals.rs:71-96 | The stream position after the last drop is the bucket's total length. |
| `FileImage.DemuxKeys` | src/download_internals.rs:71-96 | The pass touches exactly the given files and the drops' destinations. |
| `FileImage.LastCover` | src/download_internals.rs:71-96 | Finds the last drop covering a byte of a file, the one whose write wins, or reports that none covers it. |
| `FileImage.End` | src/download_internals.rs:71-96 | The furthest end of a non-empty drop into a file: every such drop ends at or before it, and one ends exactly there. |
| `FileImage.DemuxStep` | src/download_internals.rs:73-95 | Each drop's write is the only change its step makes, and only to its own file. |
| `FileImage.DemuxAt` | src/download_internals.rs:71-96 | After the pass, a file is as long as the longer of its old content and its furthest drop. Each byte comes from the last drop covering it, or is the old byte, or is a zero of the padding. |
| `FileImage.LastCoverDisjoint` | src/download_internals.rs:71-96 | With disjoint ranges, each byte of a drop's range was last written by that drop. |
| `FileImage.DemuxPlacesByte` | src/download_internals.rs:71-96 | With disjoint ranges, byte `i` of a drop's range holds byte `i` of its slice. |
| `FileImage.DemuxPlacesDrop` | src/download_internals.rs:71-96 | With disjoint ranges, each file holds its drop's slice exactly at `[start, start + length)`. |
| `FileImage.DemuxKeepsUntouched` | src/download_internals.rs:21 | Bytes that no drop covers keep their old content, so the file is never truncated. |
| `FileImage.DemuxIdempotent` | src/download_internals.rs:71-96 | Repeating the pass over the same stream changes nothing, so re-downloading a bucket is harmless. |
| `FileImage.ConcatSlices` | src/download_internals.rs:71-96 | Round trip: cutting a concatenation of byte ranges by drops of those lengths gives back each range. |
| `DownloadInternals.Disk.constructor` | src/download_internals.rs:20-21 | The disk starts with the given files. |
| `DownloadInternals.ByteSource.constructor` | src/download.rs:181 | The body starts at position 0 with no reads made. |
| `DownloadInternals.ByteSource.Read` | src/download_internals.rs:80-82 | A read of `n` bytes may fail and leave the cursor. Otherwise it returns between 1 and `n` bytes (0 when `n` is 0), copies them into the buffer and advances the cursor past them. Every call is recorded with what it returned. It fails only when its own step failed: the fault count rises by one exactly on failure. |
| `DownloadInternals.DropWriter.Fresh` | src/download_internals.rs:22-25 | A new writer is on its path at offset 0 with nothing hashed. |
| `DownloadInternals.DropWriter.New` | src/download_internals.rs:20-26 | Opening creates the file when absent and never truncates. A failure leaves the disk as it was. |
| `DownloadInternals.DropWriter.WriteAll` | src/download_internals.rs:35-40 | An empty write does nothing. Otherwise the hasher takes the bytes first, and then the file receives them at the position, which advances; a failed file write leaves file and position. It fails only when its own step failed: the fault count rises by one exactly on failure. |
| `DownloadInternals.DropWriter.Seek` | src/download_internals.rs:49-51 | Seeking moves only the position, and hashes nothing. It fails only when its own step failed: the fault count rises by one exactly on failure. |
| `DownloadInternals.DropWriter.Finish` | src/download_internals.rs:28-31 | Finishing fails when the flush fails. Otherwise it yields the MD5 of every byte hashed. It fails only when its own step failed: the fault count rises by one exactly on failure. The files are left as they are. |
| `DownloadInternals.DropDownloadPipeline.Assemble` | src/download_internals.rs:62-66 | The pipeline holds the source, the drops and the writers it was given. |
| `DownloadInternals.DropDownloadPipeline.New` | src/download_internals.rs:61-67 | Construction opens one distinct fresh writer per drop, on its path, in drop order. The first failed open ends it, with the earlier files left created. It fails only when its own step failed: the fault count rises by one exactly on failure. |
| `DownloadInternals.DropDownloadPipeline.OpenWriters` | src/download_internals.rs:64 | The `try_collect` opens the drops' files in order and stops at the first failure. It fails only when its own step failed: the fault count rises by one exactly on failure. |
| `DownloadInternals.DropDownloadPipeline.Copy` | src/download_internals.rs:69-99 | On success, `copy` returns true, advances the body by the bucket's total length, and leaves writer `k` having hashed exactly drop `k`'s slice. The files become the pure pass `DemuxFiles` over the body. It fails exactly when one of its reads, writes or seeks failed, as the disk's and the body's fault counts show. |
| `DownloadInternals.DropDownloadPipeline.CopyNextDrop` | src/download_internals.rs:71-96 | One turn of the outer loop extends the progress invariant by one drop. It fails exactly when one of its reads, writes or seeks failed, as the disk's and the body's fault counts show. |
| `DownloadInternals.DropDownloadPipeline.CopyDrop` | src/download_internals.rs:72-95 | Seeks only when the start is non-zero: a seek failure is possible only for a drop with a non-zero start. It advances the body by the drop's length, hashes exactly those bytes, writes them at the drop's start, and changes no other writer. It fails exactly when one of its reads, writes or seeks failed, as the disk's and the body's fault counts show. |
| `DownloadInternals.DropDownloadPipeline.Pump` | src/download_internals.rs:78-95 | The inner loop reads and writes until the drop's length has passed. Its reads are paced: each asks for the smaller of 16384 and what remains, and the first is made even for an empty drop. It fails exactly when one of its reads or writes failed, and only with a read or write error. |
| `DownloadInternals.DropDownloadPipeline.PumpPacket` | src/download_internals.rs:79-86 | One read and the write of what it returned keep the inner loop's invariant, and the remaining count strictly falls unless it is already 0. It fails exactly when its read or its write failed. |
| `DownloadInternals.DropDownloadPipeline.Finish` | src/download_internals.rs:106-109 | On success, `finish` yields one digest per writer, in order: the MD5 of what that writer hashed. The first failed flush ends it. It fails exactly when a flush failed, and it leaves the files as they are. |
| `DownloadInternals.PumpAdvance` | src/download_internals.rs:79-86 | One read and one write keep the value-level state of the inner loop. |
| `DownloadInternals.PacedSnoc` | src/download_internals.rs:79-83 | One more read of the size `copy` asks for keeps the reads paced. |
| `DownloadInternals.PacedAsks` | src/download_internals.rs:79 | No read asks for more than the 16384-byte buffer, nor for more than the drop still lacks. |
| `DownloadInternals.EmptyDropReads` | src/download_internals.rs:78-95 | A zero-length drop makes exactly one read, which asks for nothing and gets nothing. |
| `DownloadInternals.DropWithin` | src/download_internals.rs:71-96 | Each drop ends within the bucket's total length. |
| `DownloadInternals.CopyEnds` | src/download_internals.rs:96-98 | After the last drop, the body is past the bucket's bytes and the files are the whole pass. |
| `DownloadInternals.NextDropReady` | src/download_internals.rs:72-75 | Before a drop is copied, its file is open and the body holds its bytes. |
| `DownloadInternals.CopyStep` | src/download_internals.rs:71-96 | After a drop is copied, the writer has hashed exactly its slice, and the files are the pass over one more drop. |
| `BucketTransfer.DownloadGameBucket` | src/download.rs:160-199 | The request names every drop. A disagreeing header fails before the body is read or any file is touched, and a header rejection happens only when the header disagrees. On success, the header agreed, and every drop's bytes landed in the opened files as `DemuxFiles` says. Drops whose digest differs from the checksum are only reported, never turned into an error: with an agreeing header and no I/O failure, the result is success, and an I/O error is returned only after an I/O step failed. The body must hold the bucket's bytes only when the header agrees. |
| `BucketTransfer.RunPipeline` | src/download.rs:181-186 | On success, the pipeline opens, copies and finishes. The files are the pass over the body, and digest `k` is the MD5 of drop `k`'s slice. It fails exactly when an open, read, write, seek or flush failed. |
| `BucketTransfer.HonestStreamDigests` | src/download.rs:181-186 | When the body is the drops' bytes back to back, each digest is the MD5 of that drop's own bytes. |
| `BucketTransfer.HonestStreamNoMismatch` | src/download.rs:188-195 | When every checksum is the hex MD5 of the bytes sent for its drop, the report list is empty. |
| `BucketTransfer.HonestStreamPlaces` | src/download.rs:181-186 | With disjoint ranges and a body of the drops' bytes back to back, each drop's file holds exactly those bytes at its range. |

## Left out

- `download` (src/download.rs:92-158) is not modelled: the thread pool, the per-version context requests, the retry loop (whose failure arm panics on the first error), the timing and the progress output. It is concurrency, HTTP and console I/O.
- The HTTP request and its status check (src/download.rs:161-168) are outside the model: the response arrives as its header string and its body. A missing or non-ASCII `Content-Lengths` header panics in the source and is not modelled.
- `create_dir_all` calls in `generate_buckets`, and `Path::join`, are not modelled: a path is the pair of install directory and relative path.
- MD5 and hex encoding are uninterpreted function parameters, so digests are compared only as values.
- `BufWriter` buffering is not modelled: each `write_all` reaches the file whole, and a flush only fails or succeeds. `DropWriter::write` hashes the whole buffer even when the inner writer accepts fewer bytes, so a short write would hash bytes twice. The 1 MiB buffer never makes such a write here, and the model writes whole.
- `last_bump` and `BUMP_SIZE` (src/download_internals.rs:77-90) have no effect on the data and are not modelled.
- `DownloadInternals.DropDownloadPipeline.Copy`: requires that the body holds at least the bucket's total length. On a short body the source's loop would spin on end-of-stream reads of 0 bytes, and that behaviour is not modelled.
- `BucketTransfer.DownloadGameBucket`: inherits that requirement, but only when the header agrees with the drops; a disagreeing header is rejected whatever the body holds.
- `usize` overflow in offsets and running sizes is not modelled; lengths are unbounded naturals. Header values are bounded by `usize::MAX` as `str::parse` bounds them.
- The manifest is a hash map, and open buckets are flushed in hash-map order. Both orders are left free: the manifest is a sequence in any order, and the flush order is chosen nondeterministically.
- State after an I/O error is only partly specified: the files written before the failure are not described, since the whole run aborts on any error.
- The model does not prove that the planner's buckets have disjoint ranges. `DemuxPlacesDrop` and `BucketTransfer.HonestStreamPlaces` take disjointness as a premise, and `Planner.FileDropsOrdered` proves it within one file.
- `DownloadInternals.DropDownloadPipeline.Copy`: does not restate the read pacing across drops; `Pump` states it for each drop's reads.
- `debug_skip_checksum`, `main.rs`, the authentication handshake, serde and clap are not part of this model.
