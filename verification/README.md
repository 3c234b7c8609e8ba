# A verified model of the S3 endpoint's upload and storage path

The endpoint receives object bodies (plain or aws-chunked, possibly signed chunk by
chunk), checks them against the checksums that came with them, stages them, lets upload
processors replace them, and publishes them as two files, bytes and metadata. Multipart
uploads collect part files under a session and assemble them. Signed requests are
authenticated by a canonical form of their path and query, and routed by the path and
query as sent.

The modules, by component:

| component | modules |
|---|---|
| byte strings and their parsing | `Bytes`, `TextProofs` |
| aws-chunked: one-shot decoder, streaming parser, signatures | `AwsChunked`, `ChunkSignatures`, `StreamingSpec`, `StreamingProofs`, `FramingProofs`, `SignatureProofs`, `SigningProofs`, `ChunkEncoder` |
| checksums and receiving a body | `Checksums`, `UploadBody`, `UploadProofs`, `ClientUploads` |
| two-file object store | `Names`, `FileSystem`, `ObjectStore`, `ObjectStoreProofs` |
| processors, measuring, PutObject | `Staging`, `PutObject` |
| multipart uploads | `Multipart`, `MultipartStore`, `MultipartRuns`, `Interleaving` |
| canonical request against routing | `Percent`, `PercentProofs`, `Target`, `TargetProofs`, `Query`, `QueryProofs`, `Operations`, `OperationTable`, `RequestMeaning` |
| ListParts pages and byte ranges | `Paging`, `Ranges` |

How the world is represented:

- Text is its UTF-8 bytes. `usize` and `u64` bounds are written out; so are saturating
  sums.
- SHA, HMAC, MD5, CRC and base64 are function-valued parameters, so every result holds
  whatever they compute. Where base64 must invert, `LawfulBase64` says so; where the
  object digest must be collision-free, `Injective` says so; where hashing and signing
  must lose nothing, `LosesNothing` says so.
- The directory tree is a map from names to contents with a fault oracle: each operation
  takes one tick, and `fails` says which ticks fail. A crash is an oracle that fails from
  some tick on. Results quantify over the oracle.
- In the multipart store a fault is an argument of the call that meets it. For
  concurrency, each access through a map guard is one atomic step and calls may be
  delayed, failed or dropped between steps.
- Random identifiers are required to be unused; whole runs draw them themselves.
- A request body is its frames, possibly ending in a stream error; the writer of the
  temporary file has its own fault oracle.

Main results: `FramingProofs.AcceptedUnderEveryFraming`,
`StreamingProofs.StreamingRefinesOneShot`, `SignatureProofs.SignedAcceptance`,
`SigningProofs.SameSignaturesSameUpload`, `ChunkEncoder.SignedBodySurvivesEveryFraming`,
`UploadBody.WriteUploadBody`, `ClientUploads.Send`, `ObjectStore.FileObjectStore.CommitStagedObject`,
`ObjectStoreProofs.RunStore`, `ObjectStoreProofs.CommitCrashReopen`,
`MultipartStore.FileMultipartStore.CompleteUpload`, `MultipartRuns.RunUploads`,
`MultipartRuns.CompleteThenRestart`, `Interleaving.CreatedUploadIsExclusive`,
`Interleaving.SerialHistoriesPickOne`, `QueryProofs.CanonicalQueryIsCompleteInvariant`,
`QueryProofs.CanonicalQueryText`, `OperationTable.OperationIsRead`,
`RequestMeaning.SameCanonicalRequestSameMeaning`, `Paging.PagingIsExact`,
`Ranges.RangesReassemble`.

Five places where the code promises less than one might read into it, each with a
witness and the exact condition:

- A crash between the two renames of an overwrite leaves new bytes under old metadata
  (`ObjectStoreProofs.TornOverwrite`). A commit is safe against crashes at every moment
  exactly when there is nothing to tear: no object under the key, or one whose metadata
  or bytes the commit repeats (`ObjectStoreProofs.CommitIsCrashSafe`).
- An abort and a completion of one upload may both report success
  (`Interleaving.AbortAndCompletionMayBothSucceed`), because an abort that saw the upload
  open writes its state back unconditionally. While no completion claims the upload
  beside a pending abort this never happens (`Interleaving.SerialHistoriesPickOne`), and
  from every such claim it can (`Interleaving.RacingClaimMayLose`). Two completions never
  both succeed.
- An upload that is open in memory can be forgotten by a restart
  (`MultipartRuns.ForgottenUpload`): after a failed completion exactly when it has expired,
  or the claim was written to its session file and giving it back was not
  (`MultipartRuns.CompleteThenRestart`).
- A trailer value may hold a line feed (`SigningProofs.LineFeedInsideAValue`), which the
  signed text does not tell from the end of its line. A trailer signature determines the
  trailers among those with one-line values, and among all that can be read exactly if at
  most one trailer is signed (`SigningProofs.WhenTrailersAreDetermined`).
- A part commit whose session cannot be written undoes itself with steps whose own
  failures are ignored. The upload stays sound exactly when the step that matters works
  or the new bytes fit the old record (`MultipartStore.FileMultipartStore.CommitPart`).

## Model

| member | source | states |
|---|---|---|
| `AwsChunked.DecodeAwsChunkedBody` | src/body/aws_chunked.rs:21-50 | The cursor loop yields, on every buffer, the payload, trailers or error of the recursive grammar `Decode` that all streaming results are stated against |
| `AwsChunked.ReadTrailers` | src/body/aws_chunked.rs:52-71 | The trailer loop reads exactly the trailer section of the grammar: same names, values, duplicates and malformed lines |
| `AwsChunked.ReadCrlfLine` | src/body/aws_chunked.rs:73-85 | Returns the text before the first CR LF if it is UTF-8 and leaves the cursor just after it, or moves nothing |
| `AwsChunked.DecodeStable` | src/body/aws_chunked.rs:21-50 | Bytes appended to an accepted body change neither payload nor trailers: the decoder looks at nothing after the final trailer |
| `StreamingProofs.StepLocal` | src/body/upload.rs:468-541 | A parser step depends only on the bytes it consumes, whatever follows them in the buffer |
| `StreamingProofs.FailureIsFinal` | src/body/upload.rs:468-541 | No later frame rescues a refused body; only the over-long-line error can depend on how the body was cut |
| `StreamingProofs.DrainSplit` | src/body/upload.rs:456-545 | Pushing two frames one after the other is pushing their concatenation: same configuration or same error, except over-long lines and bytes after the end |
| `StreamingProofs.RunIsOnePush` | src/body/upload.rs:258-295 | A run over any list of frames that finishes equals one push of the frames it pulled |
| `StreamingProofs.StreamingRefinesOneShot` | src/body/upload.rs:258-295 | For every list of frames, with or without a verifier: if streaming finishes, the one-shot decoder on all frames together, even ones never pulled, returns exactly the bytes written and the same trailers |
| `FramingProofs.EveryFramingAccepts` | src/body/upload.rs:456-584 | A body acceptable from some parser configuration is accepted from it under every division into frames, with the payload and trailers the one-shot decoder gives |
| `FramingProofs.LongLineCut` | src/body/upload.rs:569-584 | For any accepted body holding a control line over 16383 bytes there is a cut at which the parser refuses it |
| `FramingProofs.AcceptedUnderEveryFraming` | src/body/upload.rs:456-584 | A body is accepted with payload d and trailers t however it is cut, if and only if the one-shot decoder consumes it whole with that result, its chunk extensions are well formed, no control line exceeds 16383 bytes, and d fits the limit |
| `ChunkEncoder.ChunkLineParses` | src/body/upload.rs:603-644 | A chunk header line, `size` or `size;chunk-signature=` and 64 lower-case hexadecimal digits, is read back as that size and that signature |
| `ChunkEncoder.BodyDecodes` | tests/multipart.rs:4788-4799 | Decoding undoes encoding for any chunks, signed or not, whose data may contain CR LF, and any trailer lines |
| `ChunkEncoder.EncodedBodySurvivesEveryFraming` | tests/multipart.rs:4788-4799 | Every framing of an encoded body within the limit is accepted with the original chunks, data and signatures, and trailers |
| `ChunkEncoder.SignedBodySurvivesEveryFraming` | src/body/upload.rs:674-731 | Every body that a client signs chunk by chunk from the seed, with the trailer signature where the mode wants it, is accepted however it is framed, with its data and trailers |
| `ChunkEncoder.TrailerLineReadsBack` | tests/multipart.rs:4798-4798 | A trailer line `name: value` reads back as that name and value |
| `ChunkSignatures.VerifyExtendsChain` | src/body/upload.rs:685-705 | The stateful check accepts a chunk exactly when its signature is the one computed from the seed and all chunks so far, and then carries the right signature on |
| `SigningProofs.AcceptedChunkSignature` | src/body/upload.rs:685-705 | A chunk is accepted exactly if it carries the signature, under the signing key, of the six lines algorithm, date, scope, previous signature, hash of nothing and hash of its own data |
| `SigningProofs.AcceptedTrailerSignature` | src/body/upload.rs:707-731 | Trailers match exactly if they carry, under their own name, the signature of the five lines algorithm, date, scope, last chunk signature and hash of the trailer lines |
| `SigningProofs.TrailerLinesInOrder` | src/body/upload.rs:714-718 | The hashed trailer text is one `name:value` line for each signed trailer, in bytewise order of the names |
| `SigningProofs.SameSignaturesSameChunks` | src/body/upload.rs:685-705 | Chunks chained from one seed under the same signatures are the same chunks, if hashing and signing lose nothing: no data can be exchanged under its signature |
| `SigningProofs.SameSignatureSameTrailers` | src/body/upload.rs:707-731 | Trailers with one-line values accepted after the same chunks under one signature are the same trailers |
| `SigningProofs.WhenTrailersAreDetermined` | src/body/upload.rs:714-718 | Among all trailers that can be read, the signed text determines one-line trailers if and only if at most one is signed |
| `SigningProofs.LineFeedInsideAValue` | src/body/upload.rs:529-540 | A concrete body line that is read as one trailer whose value holds a line feed |
| `SigningProofs.SameSignaturesSameUpload` | src/body/upload.rs:258-295 | Two accepted uploads from one seed, however framed, whose chunks carry the same signatures have the same chunks; with one trailer signature and one-line values, the same trailers |
| `SignatureProofs.WrittenBytesAreChained` | src/body/upload.rs:456-545 | At the end of every run over every prefix of frames, finished or refused, the chunks behind the bytes handed to the writer link from the seed signature |
| `SignatureProofs.SignedAcceptance` | src/body/upload.rs:674-731 | A signed body is accepted if and only if it is accepted unsigned, all its chunks including the closing one are chained from the seed, and in trailer mode the trailer block is signed after them; the payload is the same |
| `SignatureProofs.AcceptedBodyIsClosed` | src/body/upload.rs:483-492 | For every division into frames, an accepted body's chain ends with the zero-length chunk, so the end of the body is signed too |
| `SignatureProofs.TrailerOrderIrrelevant` | src/body/upload.rs:513-528 | Any rearrangement of accepted trailer lines gives the same trailers |
| `SignatureProofs.TrailerSectionOrderIrrelevant` | src/body/upload.rs:707-731 | The verdict on a trailer section, signature included, does not depend on the order of its lines |
| `Checksums.ValidateDeclaredTrailers` | src/body/checksum.rs:426-488 | Accepts exactly when every declared name is a distinct supported checksum that arrived, and every checksum trailer that arrived was declared |
| `Checksums.ParseChecksumRequest` | src/body/checksum.rs:113-138 | Accepts exactly the requests with no unsupported, duplicated, undeclared or unreadable checksum and a served SDK algorithm; the expectations are the decoded values of exactly the supplied checksums |
| `UploadBody.WriteBodyChunk` | src/body/upload.rs:381-412 | If the write works, the writer gains the chunk and every enabled digest, the MD5 and the byte count are those of all bytes written; if it fails, part of the chunk may be there and the caller is told |
| `UploadBody.ParseAwsChunkHeader` | src/body/upload.rs:603-644 | The extension loop reads size and signature as the header grammar says, with the same error for each malformed header |
| `UploadBody.AwsChunkedUploadParser.ReadLine` | src/body/upload.rs:569-584 | Takes the first line out of the buffer, waits, or refuses, and a waiting call leaves the buffer alone |
| `UploadBody.AwsChunkedUploadParser.PushAndWrite` | src/body/upload.rs:456-545 | One push performs exactly the parser steps that the buffer and the frame allow; the bytes in the writer are the payload of the chunks logged, and the digests are of those bytes; after a failed write they are a prefix of the payload an unfailing push logs; a parser that already ended gives its trailers for an empty frame and refuses any other |
| `UploadBody.SuppliedIsEnabled` | src/body/upload.rs:361-379 | In an acceptable request every supplied checksum, header or trailer, was enabled before the body was read |
| `UploadBody.LazyVerdictIsEager` | src/body/checksum.rs:140-190 | Comparing with lazily enabled digests gives the verdict that computing all digests of the bytes would give: no comparison ever uses a default value |
| `UploadBody.WriteAwsChunkedUploadBody` | src/body/upload.rs:258-308 | Unless a write fails, succeeds exactly when the run finishes and the decoded length is declared and right, the bytes written are the run's payload even on failure, and a stream error is reported only if the body had not finished; after a failed write the bytes written are a prefix of that payload |
| `UploadBody.WritePlainBody` | src/body/upload.rs:124-138 | Succeeds exactly when no write fails, the stream does not break, and the frames together have the declared length, if any, and fit the limit; then all of them were written |
| `UploadBody.CheckDigests` | src/body/upload.rs:140-176 | Passes exactly when the checksum request is acceptable and every supplied checksum and fixed SHA-256 is that of the bytes written |
| `UploadBody.WriteUploadBody` | src/body/upload.rs:98-176 | Unless a write fails, an upload is accepted if and only if its body arrived whole and everything the client claimed about it is true of the bytes written; whatever its payload hash header announces about signatures is so: in the signed modes a signing context is there and the bytes came in chunks chained from it and closed by an empty one, in the trailer mode with signed trailers, in the unsigned mode without asking for any; reported size, MD5 and checksums are those of the same bytes; a failed write is never accepted |
| `ClientUploads.Send` | src/body/upload.rs:98-176 | A request built from the header text up, plain or chunked, signed or not, its checksum in a header, a trailer or nowhere, its body framed at will, is accepted unless a write fails, and exactly its data is written |
| `ClientUploads.RequestIsRead` | src/body/upload.rs:752-787 | The headers of such a request are read as its framing, its payload hash mode and its length |
| `ClientUploads.TrueRequest` | src/body/checksum.rs:113-138 | A request whose one checksum is true is acceptable and genuine, for each algorithm and place |
| `UploadProofs.ArrivedWithinLimit` | src/body/upload.rs:309-335 | Whatever arrived is within the limit, for every limit below the largest u64 |
| `UploadProofs.ArrivedIsDecoded` | src/body/upload.rs:258-295 | What arrives from an aws-chunked request is what the one-shot decoder finds in the concatenated frames |
| `UploadProofs.ArrivedAsDeclared` | src/body/upload.rs:189-211 | An accepted body has the length its headers declare in decimal, at most one payload hash header, and chunked framing exactly where the announced mode wants it |
| `UploadProofs.ChecksumsByName` | src/body/checksum.rs:33-44 | By their header names: each checksum of an accepted upload is the digest of that algorithm over the data |
| `UploadProofs.AcceptableByName` | src/body/checksum.rs:313-424 | By their header names: no unsupported checksum, none stated twice or in both places, each decoding to the digest length of its algorithm |
| `UploadProofs.SdkAlgorithmIsSupplied` | src/body/checksum.rs:353-383 | A named SDK algorithm, in any case, comes with the checksum header or trailer of that name |
| `Names.ParseBucket` | src/s3/types.rs:18-30 | Accepts exactly the non-empty names without separators or control characters, unchanged |
| `Names.ParseKey` | src/s3/types.rs:53-62 | Accepts exactly the non-empty keys without control characters, unchanged |
| `Names.StorageKeyInjective` | src/storage/object.rs:315-321 | Bucket, NUL, key determines bucket and key, because a bucket holds no control byte |
| `FileSystem.Disk.RemoveFileIfExists` | src/storage/fs_util.rs:17-23 | Succeeds unless the operation itself fails; afterwards the file is gone and nothing else changed |
| `FileSystem.Disk.BackupExistingFile` | src/storage/fs_util.rs:28-34 | Reports whether there was a file, and if so links it under the backup name |
| `FileSystem.Disk.RemoveBackupFile` | src/storage/fs_util.rs:37-42 | Removes the backup only if one was made |
| `FileSystem.Disk.RollbackPublishedFile` | src/storage/fs_util.rs:45-50 | If its steps work the previous file, or absence, is back; whatever fails, no other file is touched, and a first-time file is gone or nothing has changed |
| `ObjectStore.FileObjectStore.CommitStagedObject` | src/storage/object.rs:85-137 | With at most one failing file operation in the commit the pair of files is wholly the previous one or wholly the new one, according to which operation failed, and no temporary remains; Ok implies new; other keys are untouched; a first-time commit is all or nothing under every fault pattern; and the pair after a crash is given operation by operation |
| `ObjectStore.FileObjectStore.HeadObject` | src/storage/object.rs:143-166 | Shows exactly the visible metadata: an orphaned half is absent |
| `ObjectStore.FileObjectStore.OpenObject` | src/storage/object.rs:171-184 | Shows exactly the visible pair of metadata and bytes |
| `ObjectStore.FileObjectStore.DeleteObject` | src/storage/object.rs:189-202 | Under every fault the key is as it was or gone, Ok means gone, and no other file changes |
| `ObjectStore.CleanupStaleTempFiles` | src/storage/object.rs:220-228 | Removes every file under tmp and nothing else |
| `ObjectStore.CleanupOrphanedObjectFiles` | src/storage/object.rs:230-270 | Removes exactly the bytes that have no metadata |
| `ObjectStore.CleanupOrphanedMetadataFiles` | src/storage/object.rs:272-312 | Removes exactly the metadata that has no bytes |
| `ObjectStore.Reopen` | src/storage/object.rs:31-42 | Opening the store leaves exactly the paired files |
| `ObjectStore.ReopenIsIdempotent` | src/storage/object.rs:31-42 | A second reopen changes nothing |
| `ObjectStoreProofs.CommitRepresents` | src/storage/object.rs:85-137 | A committed pair of files represents the table with that entry set: keys with other digests, orphans and temporaries do not show |
| `ObjectStoreProofs.DeleteRepresents` | src/storage/object.rs:189-202 | Files without the key's metadata represent the table without that entry |
| `ObjectStoreProofs.RunStore` | src/storage/object.rs:85-218 | Over any sequence of commit, delete, head and open, from any files that represent a table, with at most one failing file operation in each request: every reply is that of a plain map from (bucket, key) to (metadata, bytes), or a failure after which the map is the one before the request or the one it would have made, and the files represent it; without faults all replies are the map's |
| `ObjectStoreProofs.CommitCrashReopen` | src/storage/object.rs:107-137 | After a crash at any operation of a commit and a reopen, the key shows what the crash table says, every other key shows what it did, bytes and metadata are in bijection, tmp is empty, and another reopen changes nothing |
| `ObjectStoreProofs.CommitIsCrashSafe` | src/storage/object.rs:107-137 | The key is wholly old or wholly new after a crash at every moment of its commit if and only if the commit is first-time or repeats the metadata or the bytes |
| `ObjectStoreProofs.CrashIsAtomicUnlessTorn` | src/storage/object.rs:116-121 | Only a crash between the two renames can show anything else |
| `ObjectStoreProofs.TornOverwrite` | src/storage/object.rs:116-121 | Overwriting one byte by another, crashed between the renames, shows the new byte under the old metadata |
| `ObjectStoreProofs.DeleteCrashReopen` | src/storage/object.rs:189-202 | After a crash at any operation of a delete and a reopen, the key is as before or entirely gone, and the files are paired |
| `Staging.ReplaceWith` | src/storage/temp.rs:83-92 | On success the staged file is the replacement and the replacement name is free again; it fails only if the replacement is missing or an operation fails |
| `Staging.ProcessStagedUpload` | src/middleware.rs:223-263 | The staged bytes after success are the left fold of the processors' Keep and Replace decisions; without faults it fails exactly when one refuses, and then the staged file is gone |
| `Staging.SummarizeStagedUpload` | src/body/upload.rs:46-91 | For every buffer size and short-read pattern, size and all six digests are those of the whole file; it fails exactly when an access fails |
| `Staging.RecomputedDescribes` | src/body/checksum.rs:278-289 | Checksums recomputed after processing decode to the digests of the processed bytes |
| `Staging.EchoDescribes` | src/body/checksum.rs:291-311 | Checksums echoed from a request that matched decode to the digests of the bytes received |
| `Staging.RecomputedRecords` | src/body/checksum.rs:278-289 | Recomputing keeps exactly the checksum names that the request supplied |
| `Staging.ETagsDetermine` | src/s3/types.rs:96-107 | An ETag determines the MD5 and, of a multipart object, the number of parts; the two forms never coincide, and both are quoted |
| `PutObject.Put` | src/handlers/put_object.rs:66-162 | A put sets out to publish the fold of the processors over a body that arrived whole and matched its checksums, with size, ETag and checksums of those bytes: success shows exactly that; a failed commit shows that or what was there, if the key is new or at most one operation failed; a refusal before the commit changes no published file; if no file operation fails, every acceptable body that fits is published; other keys are untouched |
| `Multipart.AscendingIsSorted` | src/handlers/multipart.rs:542-552 | A list whose neighbours ascend is ascending throughout, so it names no part twice |
| `Multipart.ValidateParts` | src/storage/multipart.rs:323-338 | Passes exactly when every requested part exists with the given ETag and every part but the last has the minimum size |
| `Multipart.CopyPart` | src/storage/multipart.rs:348-372 | For every buffer size and short-read pattern the output gains exactly the part file, and every enabled completion digest has been fed exactly the output so far, none of them enabled late; it fails exactly when an access fails |
| `Multipart.AssembleParts` | src/storage/multipart.rs:343-380 | The output is the concatenation of the requested part files in order, with the MD5s in the same order and the sum of sizes; without faults it fails only because that sum exceeds the limit, a sum past u64 being an outcome of its own |
| `Multipart.SizesAddUp` | src/storage/multipart.rs:374-374 | The sum of recorded part sizes is the length of the assembled bytes |
| `Multipart.BuildObject` | src/storage/multipart.rs:323-448 | Without faults it succeeds exactly on completable requests; what is staged is the fold of the processors over the requested parts, and the metadata is fixed field by field |
| `Multipart.CompletedDescribes` | src/storage/multipart.rs:423-448 | The metadata of a completed object is true of its bytes: checksums always, size and plain ETag after processors, and otherwise size equal to the sum of part sizes and an ETag over the MD5s of the part files and their count |
| `MultipartStore.FileMultipartStore.CreateUpload` | src/storage/multipart.rs:84-106 | A new upload is open and empty in memory and on disk, or not there at all; other uploads are untouched |
| `MultipartStore.FileMultipartStore.PersistSession` | src/storage/multipart.rs:537-554 | The session file is replaced whole or not at all |
| `MultipartStore.FileMultipartStore.CommitPart` | src/storage/multipart.rs:190-263 | For every fault the result names the step that failed; on success session, session file and part file all hold the new part, including when a part number is uploaded again, and otherwise memory is as before, and so are the files unless the undoing failed; every open upload stays sound if and only if no undoing was needed, its decisive step worked, or the new bytes fit the old record |
| `MultipartStore.SoundAfterUndo` | src/storage/multipart.rs:245-258 | Which of the two ignored undo steps decides: the rename for a replaced part, the removal for a new one; when it fails the upload is sound only if the new bytes are there and fit the old record |
| `MultipartStore.FileMultipartStore.AbortUpload` | src/storage/multipart.rs:269-287 | Succeeds exactly on open uploads when nothing fails, and then nothing of the upload remains; once the abort is recorded a failed deletion leaves it aborted, in memory and for restarts |
| `MultipartStore.FileMultipartStore.BeginCompletion` | src/storage/multipart.rs:482-499 | Claims exactly the open uploads; parts in memory and on disk are as before, and the session file says Completing exactly if it could be written |
| `MultipartStore.FileMultipartStore.RestoreOpen` | src/storage/multipart.rs:501-518 | Gives the upload back open with its parts, and the session file says so exactly if it could be written |
| `MultipartStore.FileMultipartStore.CompleteUpload` | src/storage/multipart.rs:294-307 | On success the object visible under the upload's key is the requested parts in order through the processors, with its metadata, and the session is gone; on failure the sessions are exactly as before and the part files too, before the commit no published file changed, and a failed commit shows the old object or the new one if the key is new or at most one operation failed; while the object store's disk works every completable request succeeds; what the session file says afterwards is given for every fault; other keys and uploads are untouched |
| `MultipartRuns.PerformUpload` | src/storage/multipart.rs:84-307 | Each request, whatever fails in it, gets a reply that the uploads before it admit and changes sessions and part contents exactly as that reply says; every open upload stays sound: memory, session file and part files agree in number, size and MD5 |
| `MultipartRuns.RunUploads` | src/storage/multipart.rs:84-307 | Over every sequential run of create, part, abort and complete on a new store, with any faults whose undo steps work: the replies and the uploads form a history, and at its end the sessions and the part contents of every open upload are exactly what the acknowledged requests made them, all sound |
| `MultipartRuns.LoadSessions` | src/storage/multipart.rs:556-590 | The loop over directories takes up exactly the sessions whose file says Open and that have not expired |
| `MultipartRuns.ExpiryIsByAge` | src/storage/multipart.rs:618-627 | An upload expires just after it has reached the configured age, stays expired, and never expires without one |
| `MultipartRuns.RestartKeepsOpenUploads` | src/storage/multipart.rs:556-627 | An open upload survives a restart exactly when its session file says Open and it has not expired, and then unchanged and sound |
| `MultipartRuns.CompleteThenRestart` | src/storage/multipart.rs:294-307 | An upload whose file said Open, after a completion and a restart: a failed completion loses it exactly if it has expired or the claim was written and giving it back was not, and otherwise it is back unchanged; a successful one brings it back exactly if nothing of the success reached its files |
| `MultipartRuns.ForgottenUpload` | src/storage/multipart.rs:491-512 | A concrete completion, naming a missing part, after which the upload is open and yet lost by a restart |
| `Interleaving.CompletionIsExclusive` | src/storage/multipart.rs:294-307 | From any exclusive state, every interleaving of completions, aborts and part commits, with calls failing or dropped midway, stays exclusive: an open upload has no completion in flight, no two are in flight together, no two return Ok |
| `Interleaving.CreatedUploadIsExclusive` | src/storage/multipart.rs:482-518 | Every history of a created upload is exclusive, so at most one completion ever returns Ok |
| `Interleaving.SuccessIsFinal` | src/storage/multipart.rs:453-469 | Once a completion has returned Ok the upload is never open again, whatever is still in flight |
| `Interleaving.SerialHistoriesPickOne` | src/storage/multipart.rs:269-287 | Over every history of any number of concurrent calls in which no completion claims the upload while an abort is past its snapshot, an abort and a completion never both report success |
| `Interleaving.RacingClaimMayLose` | src/storage/multipart.rs:482-490 | From every world where a completion can claim the upload beside such an abort, both can go on to report success |
| `Interleaving.OtherHistoriesMayPickBoth` | src/storage/multipart.rs:269-287 | Every history that is not of that kind could, from some moment on, have ended in a double success |
| `Interleaving.AbortAndCompletionMayBothSucceed` | src/storage/multipart.rs:269-287 | A concrete history in which an abort and a completion both report success |
| `Percent.ComputeCanonicalUri` | src/auth.rs:356-382 | The index loop computes the canonical form, escape by escape |
| `Percent.DecodeOfEncode` | src/auth.rs:547-566 | Percent-decoding undoes the SigV4 encoding of any bytes |
| `Percent.CanonicalUriDecodesTheSame` | src/auth.rs:356-382 | The canonical form decodes to the same bytes as the path |
| `Percent.CanonicalUriIsIdempotent` | src/auth.rs:356-382 | Canonicalising twice is canonicalising once |
| `Percent.CanonicalUriDistributesOverSlash` | src/auth.rs:356-382 | Canonicalising a path is canonicalising its segments, for any split at a slash |
| `Percent.CanonicalUriSplits` | src/auth.rs:356-382 | The first slash of the canonical form is that of the path, and both sides are canonical forms of the path's sides |
| `PercentProofs.EncodeByte` | src/auth.rs:554-566 | Byte by byte: letters, digits and the four marks stay, every other byte becomes `%` and two upper-case digits |
| `PercentProofs.CanonicalByte` | src/auth.rs:356-382 | In a path the same, with slashes left alone and well-formed escapes not escaped again |
| `PercentProofs.EscapesInEitherCase` | src/auth.rs:356-382 | An escape is decoded in upper and in lower case, and comes out of the canonical form in upper case |
| `Target.CanonicalResolvesTheSame` | src/s3/target.rs:36-91 | A path and its canonical form resolve to the same bucket and key, or the same error, in path style and behind a virtual host, and have the same route |
| `Target.SameCanonicalUriSameTarget` | src/s3/target.rs:36-91 | Two paths with one canonical form address the same object or fail alike |
| `TargetProofs.TargetRoundTrip` | src/s3/target.rs:36-91 | The path a client makes of a valid bucket and key addresses exactly them, in path style and behind a virtual host |
| `TargetProofs.PathStyleTarget` | src/s3/target.rs:77-91 | A path-style path resolves exactly to the decoded text before its second slash as bucket and after it as key, if both are valid names |
| `TargetProofs.ResolvedPathStyle` | src/s3/target.rs:77-91 | Every path that resolves is of that form |
| `TargetProofs.VirtualHostTarget` | src/s3/target.rs:41-54 | Behind a virtual host the bucket is the host's and the whole path is the key |
| `TargetProofs.PathStyleErrors` | src/s3/target.rs:77-91 | Each refusal is for the first thing wrong: missing key, bucket, then key |
| `TargetProofs.BucketPath` | src/s3/target.rs:58-72 | A bucket path is the bucket with or without a final slash; with a key it is none |
| `TargetProofs.ObjectRoute` | src/handlers/s3.rs:610-631 | An object route has a bucket and a key part, or any path behind a virtual host |
| `Query.SortedIsUnique` | src/auth.rs:402-402 | The sorted arrangement of a multiset of pairs is unique, so sorting forgets exactly the order |
| `Query.ComputeCanonicalQuery` | src/auth.rs:384-408 | The loop over the query computes the sorted, encoded parameters, and refuses exactly the queries with an undecodable name or value |
| `QueryProofs.JoinPairsIsInjective` | src/auth.rs:403-407 | The rendered text determines the sequence of encoded pairs |
| `QueryProofs.CanonicalQueryIsCompleteInvariant` | src/auth.rs:384-408 | Two decodable queries have one canonical form if and only if their decoded (name, value) multisets are equal |
| `QueryProofs.CanonicalQueryIsIdempotent` | src/auth.rs:384-408 | Canonicalising a canonical query changes nothing |
| `QueryProofs.CanonicalQueryText` | src/auth.rs:402-407 | Read as text, a canonical query is encoded `name=value` pieces between ampersands, in bytewise order of names and then of values, decoding to exactly the query's parameters |
| `QueryProofs.SignatureIsLeftOut` | src/auth.rs:393-395 | For presigned requests exactly the parameters named X-Amz-Signature are left out |
| `QueryProofs.QueryRoundTrip` | src/auth.rs:389-401 | A query made of parameters is read as them, in order |
| `QueryProofs.BareName` | src/auth.rs:391-391 | A name without an equals sign is a parameter with no value |
| `Operations.ComputeUniqueFlag` | src/handlers/s3.rs:680-698 | The counting loop accepts a flag exactly when it appears at most once without a value, and refuses undecodable names |
| `Operations.ValuesInParameters` | src/handlers/s3.rs:652-667 | On decodable queries, in either way of signing, the raw lookup of a signed name returns the values of the decoded parameters of that name, in order |
| `Operations.FlagsInParameters` | src/handlers/s3.rs:680-698 | On decodable queries, in either way of signing, the flag count of a signed name is the multiplicity of (name, empty) among the decoded parameters |
| `Operations.SameLookups` | src/handlers/s3.rs:642-698 | Queries with equal signed parameter multisets answer every unique lookup of a signed name alike, repetition errors included |
| `OperationTable.OperationIsRead` | src/handlers/s3.rs:500-608 | For every decodable query: each operation, with its upload id and part number, and each refusal, has its exact condition on verb, route and decoded parameters |
| `OperationTable.UuidIsCanonical` | src/s3/types.rs:173-182 | The hyphenated lower-case text of any 16 bytes is an upload id |
| `OperationTable.CanonicalIsUuid` | src/s3/types.rs:173-182 | Every upload id is the text of 16 bytes |
| `OperationTable.NumberTexts` | src/s3/types.rs:253-262 | Decimal 1 to 10000 are part numbers, zero and larger ones are not |
| `RequestMeaning.SameCanonicalQuerySameOperation` | src/handlers/s3.rs:500-608 | For a fixed method and route, equal canonical queries, with all parameters or without the presigned signature, give the same operation with the same upload id and part number, or the same error |
| `RequestMeaning.SameCanonicalRequestSameMeaning` | src/handlers/s3.rs:500-631 | Two requests that canonicalise alike, signed by header or presigned, address the same target and are the same operation |
| `Paging.ParsePageRequest` | src/handlers/multipart.rs:481-518 | An accepted page size is between 1 and 1000 and the marker is a part number or zero |
| `Paging.PageQueryReadsBack` | src/handlers/multipart.rs:481-518 | The query for any page size and marker, either of which may be missing, is read as exactly those numbers, the size clipped to 1000 and by default 1000, the marker by default 0 |
| `Paging.BadPagesAreRefused` | src/handlers/multipart.rs:491-507 | A page size of zero and a marker past the last part number are refused |
| `Paging.NextPageContinues` | src/handlers/multipart.rs:221-235 | A page and the pages after its marker make up exactly the parts after the page's own marker, and what remains shrinks |
| `Paging.PagesCover` | src/handlers/multipart.rs:221-235 | Following the markers from any marker ends, lists every later part once in order, and only the last page may be short |
| `Paging.PagingIsExact` | src/handlers/multipart.rs:221-235 | From marker 0 the pages list every part exactly once in ascending order, none longer than asked and all but the last full |
| `Ranges.ParseRange` | src/handlers/get_object.rs:185-244 | Every accepted range satisfies start <= end < size |
| `Ranges.StreamRange` | src/handlers/get_object.rs:147-171 | For every file, buffer size and short-read pattern the streamed body is exactly the slice, cut short where the file ends, and as long as the Content-Length says exactly if the file still has the range; it fails only if a read does |
| `Ranges.RequestedRangeIsParsed` | src/handlers/get_object.rs:185-244 | The header for positions a to b within the object is read as exactly that range |
| `Ranges.NumberedRange` | src/handlers/get_object.rs:210-220 | Two numbers are clipped to the object and refused when they start past it or end before they start |
| `Ranges.OpenRange` | src/handlers/get_object.rs:221-230 | A start without an end goes to the end of the object, and is refused past it |
| `Ranges.SuffixRange` | src/handlers/get_object.rs:231-241 | An end without a start is that many last bytes, all of them when there are fewer, and refused when zero |
| `Ranges.SuffixRangeIsTheEnd` | src/handlers/get_object.rs:231-241 | A suffix range of n bytes is the last n bytes, or the whole object when it is shorter |
| `Ranges.RangesReassemble` | src/handlers/get_object.rs:64-87 | Fetching any partition of the object by ranges and concatenating gives the whole object |
| `TextProofs.TextIsValid` | src/body/upload.rs:580-582 | The UTF-8 encoding of any scalar values is accepted as text |
| `TextProofs.ValidIsText` | src/body/upload.rs:580-582 | Whatever is accepted as text is the encoding of scalar values |
| `TextProofs.WhiteHeads` | src/body/upload.rs:534-540 | Trimming takes white-space characters, by their code points, from the front |
| `TextProofs.WhiteTails` | src/body/upload.rs:534-540 | And from the back |
| `TextProofs.NumbersAreRead` | src/body/upload.rs:763-787 | Decimal numbers up to the bound are read, with or without a plus sign, and larger ones are not |

## Left out

- Hash, HMAC, base64, JSON, XML and UUID libraries: foreign code, given as functions, decoded values or unused identifiers. A running digest is represented by the bytes fed to it.
- Signed-header canonicalisation, the string to sign of a request, credentials, clock skew and presigned expiry: short comparisons beside the path and query forms that are modelled.
- `virtual_host_bucket`: whether the Host names a bucket, and which, is a parameter of the routing results.
- HTTP server, router, authorization, hooks, logging, metrics, permits and configuration: wiring with easy claims.
- XML request parsing and response rendering, including the response headers of a range.
- Conditional GET and HEAD: the code evaluates them in its own order, and only that order could be restated.
- `write_part`: a helper without rollback, outside the multipart data invariant.
- Concurrent commits to one object key, concurrent uploads of one part number, and part uploads racing a completion: the code holds no lock across rename and map update; only exclusivity of completions, among themselves and against aborts, is proved under interleaving.
- Power loss and fsync: the repository disclaims them. Crashes of the multipart store are covered only through what a restart reads back.
- Deleting the directories of expired and terminal uploads at startup, and stale multipart temporaries: best-effort removals; which sessions are taken up again is modelled.
- `validate_upload_session_target`: a comparison of bucket, key and owner.
- What the process does on overflow: `size + 2` past `usize` in both decoders, and a sum of part sizes past `u64`, are outcomes of their own (a panic in a checked build), so no result needs a bound on sizes.
- Directories: creating one may fail, otherwise they are implicit in the names below them.
- Deletion of a temporary file when its owner is dropped is modelled where the owner goes away, as an ordinary removal.
- MultipartRuns.RunUploads: asks that the undo steps of part commits work, because the code ignores their failures and promises restoration only where possible; CommitPart says exactly when their failing matters.
- PutObject.Put: says nothing of its own key when a commit that overwrites meets two or more failing operations, because rollback is best effort there.
- MultipartStore.FileMultipartStore.CompleteUpload: the same for the upload's key.
