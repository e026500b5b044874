# Verified model of the object storage server

A Dafny model of the parts of the server whose correctness is hardest to see from
one function: the listing scan and the cursors on top of it, the content-addressed
blob store with its lock-free readers, resumable GCS uploads, the decoder for
aws-chunked bodies, and S3 multipart uploads. `dafny verify dfyconfig.toml` checks
all of it.

| file | models |
|---|---|
| `ByteStrings.dfy` | byte strings, their order, substring search, sorted finite sets |
| `Successor.dfy` | `prefixSuccessor` and the range it bounds |
| `Listing.dfy` | what a listing is: filter, map to entries, drop duplicates |
| `Scan.dfy` | the skip-ahead scan of `ListObjects`, row by row, against that definition |
| `Exactness.dfy`, `TrustedChains.dfy` | the buckets and the requests for which pages, and chains of pages, are right |
| `Progress.dfy`, `Stalling.dfy` | those for which a call panics, and those for which a chain stands still |
| `Paging.dfy`, `PagingUnderChange.dfy`, `S3Cursors.dfy` | chains of pages by token (store, GCS, S3 V2), also over a changing bucket, and by marker (S3 V1) |
| `Types.dfy`, `Cas.dfy` | rows, preconditions, and the atomic changes to tables and blob files |
| `CasRun.dfy` | one bucket as a step machine with failures and crashes; lock-free readers |
| `BucketStore.dfy` | the classes `Bucket` and `BlobWriter` |
| `Resumable.dfy`, `ContentRanges.dfy`, `GcsUpload.dfy` | the offset protocol under all interleavings; its headers; the handlers |
| `Hex.dfy`, `AwsChunked.dfy` | chunk sizes; the decoder, an encoder, and truncated streams |
| `AcceptedStreams.dfy` | the grammar of the inputs that the decoder takes for complete |
| `Multipart.dfy`, `RepeatedParts.dfy` | multipart uploads under all interleavings; requests that name a part twice |
| `MultipartSolo.dfy`, `MultipartServer.dfy` | one handler from start to end, as a run of that machine; the handlers |
| `S3Server.dfy` | S3 list requests with either cursor, and chunked puts |

The state that the source changes in place (`Bucket`, `BlobWriter`, upload sessions,
the chunked reader, a multipart upload) is a class whose methods are proved against
functions on values; the lemmas are about those functions. Where requests run
concurrently, a step machine cuts each operation at the points where others can come
in between. In all step machines an event that is not possible leaves the state
alone, so "for every sequence of events" is "for every run".

Outcomes of I/O are parameters: `Fault` says which system call of an operation
fails, `Body` and `Source` say how a request body ends, and clock readings are passed
in. Checksums are arbitrary functions. Reference counts, files, leaks and generations
need nothing of them; that the store is a plain map holds exactly if no two of the
contents used share a sha256 (`RefinesIffCollisionFree`).

## Where the code differs from what it says

* `prefixSuccessor` is described as the least string above every string with a
  prefix. It converts the bumped byte as a code point, so a byte of 0x80 or more
  becomes two. `RangeExactIffSafe` gives the exact condition for the range to be
  right about all strings: the last byte that is not 0xff is below 0x7f. A listing is
  right on a bucket exactly if the ranges it computes are right about the names there
  (`ListsRightlyIffExact`), and on every bucket of valid names exactly if the request
  is `Trusted` (`TrustedIff`): it is safe, or the name that shows the error has a byte
  or a length that the store refuses. A prefix or delimiter that ends in a character
  outside ASCII is thus listed wrongly on some bucket, unless it holds a byte that
  names cannot have or is about as long as a name can be.
* A skip behind a common prefix can go back, and a client then gets the same page for
  ever. This happens with a high delimiter (`HighDelimiterStalls`), but also with a safe
  one: the prefix "é" with delimiter "/" never gets past the name "ñ/x", which does not
  match at all (`AccentedPrefixStalls`). The guard `StepsForward` on the rows is exact:
  chains over a bucket, and over what is left of it when names go, all end iff every
  name steps forward (`ChainsEndIffForward`); and a request can be held up by a bucket of
  valid names iff one of at most eight names that it determines holds it up (`StallsIff`).
  A single call always ends, because its page fills up.
* A call can also panic: a row in the range of the prefix may be shorter than the prefix,
  which is cut off it without a check (`PanicExample`). `PanicsIffShortRow` and
  `PanicsIff` say for which buckets and for which requests.
* A V1 marker that ends with the delimiter is taken for a common prefix. When the
  marker is an object, names behind it are skipped. `V1MatchesV2IffUnsplit` says
  exactly for which buckets the two chains agree.
* A chunk body that breaks off stays in the writer while the offset does not move.
  `CommitIsExactIffNoSpill` says exactly when the committed content is still right.
* The chunked decoder reports truncation only if the cut falls within a size line;
  elsewhere a cut stream ends like a complete one
  (`CutIsSilentIffBehindASizeLine`). It passes over sizes below zero, takes any two of CR
  and LF behind a chunk, and a bare LF at the end of a line; `AcceptedIffParses` is the
  exact grammar of what it accepts.
* A V1 marker that ends in the delimiter and consists of 0xff bytes only has no successor
  and makes a V1 chain start over. `MarkerResumes` and `V1MatchesV2IffUnsplit` cover it.
* A part number may occur twice in a completion request, and the bytes are then there
  twice (`TwiceNamedTwiceThere`). `JoinedOnceIffRepeatsAreEmpty` says exactly when
  repetitions do not show.
* Commits that ask for the same generation exclude each other for any clock, but for
  one case: generation 0 of an absent name with the clock at zero or before
  (`GuardExcludesIff`).

## Model

| member | source | states |
|---|---|---|
| Successor.ComputePrefixSuccessor | pkg/store/bucket.go:227-234 | the index loop computes the successor function, for every byte string |
| Successor.SafeRange | pkg/store/bucket.go:225-234 | for a safe prefix, a name has the prefix iff it lies in [prefix, successor), unbounded if the successor is empty |
| Successor.RangeExactIffSafe | pkg/store/bucket.go:225-234 | that equivalence holds for all names iff the prefix is safe |
| Successor.UnsafeRange | pkg/store/bucket.go:225-234 | for an unsafe prefix, a name that the range wrongly includes or wrongly leaves out |
| ByteStrings.PrefixesAreConvex | pkg/store/bucket.go:293-304 | what lies between a prefix and a name that has it, has it too |
| ByteStrings.Index | pkg/store/bucket.go:295-295 | an occurrence of the delimiter, and no earlier one; -1 iff there is none |
| ByteStrings.LeastAbove | pkg/store/bucket.go:313-313 | appending a zero byte turns an exclusive bound into an inclusive one |
| Listing.GroupMembers | pkg/store/bucket.go:293-304 | a matching name belongs to a common prefix iff it begins with it, also for long and self-overlapping delimiters |
| Listing.GroupIsRange | pkg/store/bucket.go:293-304 | where the range of a common prefix is right, its members are the matching names in it |
| Listing.ListingAscends | pkg/store/bucket.go:288-309 | objects and common prefixes come out in one strictly ascending order, for every request |
| Listing.EntryMeans | pkg/store/bucket.go:293-309 | a matching name is listed as itself iff no delimiter occurs behind the prefix; otherwise as what ends with the first one there |
| Listing.ListsHoldEntries | pkg/store/bucket.go:288-309 | objects and common prefixes together are the entries of the page, each once |
| Listing.ListsAscend | pkg/store/bucket.go:288-309 | each of the two lists is in strictly ascending order |
| Listing.ListingCovers | pkg/store/bucket.go:288-309 | every matching name is listed under its own entry, and nothing else is |
| Scan.RowsBehindGroup | pkg/store/bucket.go:299-304 | skipping to the successor passes the members of the group and nothing else |
| Scan.WalkIsPage | pkg/store/bucket.go:260-314 | from any point where the ranges are right the scan returns the page of the names still ahead |
| Scan.ListIsPage | pkg/store/bucket.go:238-316 | where the ranges are right about the names from the token on, a listing is the first n entries of the simple listing; its token is the least matching name no entry stands for, empty iff there is none |
| Paging.PageHasWantedSize | pkg/store/bucket.go:241-254 | a page has as many entries as asked for, 1000 by default and at most, or as there are; it has a token iff a matching name is left over, and that is the least one |
| Scan.PageFits | pkg/store/bucket.go:243-292 | for all inputs a page has no more than that, and one with a token just that |
| Listing.SafeQueryIsExactFor | pkg/store/bucket.go:225-316 | for a request with a safe prefix and a safe delimiter they are right about all names |
| Exactness.ListsRightlyIffExact | pkg/store/bucket.go:225-316 | every page of a bucket is right, from every token and with every limit, iff the ranges are right about its names |
| Exactness.RangeExactOnValidNamesIff | pkg/store/bucket.go:225-234 | the range is right about all names the store accepts iff the prefix is safe or the misplaced name is refused |
| Exactness.TrustedIff | pkg/store/bucket.go:225-316 | a request is listed rightly on every bucket of valid names iff it is trusted |
| TrustedChains.ChainsRightlyIffExact | pkg/store/bucket.go:249-314 | every chain from the empty token over a bucket, and over what is left of it when names go, gives the simple listing in pages iff the ranges are right about its names |
| TrustedChains.TrustedChainsIff | pkg/store/bucket.go:225-316 | a request gives right chains on every bucket of valid names iff it is trusted |
| Exactness.UntrustedBucket | pkg/store/bucket.go:225-316 | for each other request, valid names on which a range is wrong |
| BucketStore.Bucket.ListObjects | pkg/store/bucket.go:238-316 | the batched loop returns what the row-by-row scan returns, for all inputs and batch sizes, and so where the ranges are right the first entries of the listing, as many as wanted (1000 by default), with the rows of their objects and the least name left over as the token; it terminates |
| BucketStore.Bucket.QueryRows | pkg/store/bucket.go:262-286 | a query yields the first rows of its range in name order |
| BucketStore.Bucket.CommonPrefix | pkg/store/bucket.go:293-296 | the entry of a name: its common prefix, or itself |
| Paging.PendingIsRest | pkg/store/bucket.go:288-292 | what a page leaves over is listed as the rest of the listing and comes after everything served |
| Paging.ResumeAtToken | pkg/store/bucket.go:249-253 | resuming at the token ranges over exactly the pending names, also at a group boundary |
| Paging.PagesCutTheListing | pkg/store/bucket.go:249-314 | following tokens cuts the listing into pages of the wanted sizes |
| Paging.PagingIsComplete | pkg/store/bucket.go:249-314 | whatever the limits, the pages put together are the listing, nothing lost or repeated, and as many pages as entries finish it |
| PagingUnderChange.WalkOverIsGood | pkg/store/bucket.go:260-314 | one call, each of whose queries may see other names: keys ascend, what is listed was seen, the token lies behind all of it, and no name that stays is left out |
| PagingUnderChange.SteadyList | pkg/store/bucket.go:260-314 | if the names stay as they are, this is the scan as before |
| PagingUnderChange.ChainAscends | pkg/store/bucket.go:249-314 | keys ascend strictly through a chain over a bucket that changes between the pages and within calls: nothing comes twice |
| PagingUnderChange.ListedWasThere | pkg/store/bucket.go:288-309 | what a page lists stands for a name that a query of that call saw |
| PagingUnderChange.PagingSurvivesChange | pkg/store/bucket.go:249-314 | a name that is there from the first query to the last of a finished chain is stood for exactly once |
| Progress.ChainsEndIffForward | pkg/store/bucket.go:300-304 | chains over a bucket, and over what is left of it when names go, all come to an end iff from every name the scan steps forward |
| Progress.OneNameStalls | pkg/store/bucket.go:300-304 | a name from which it does not holds the chain up: the same page again and again |
| Progress.AccentedPrefixStalls | pkg/store/bucket.go:293-304 | such a run with a safe delimiter and a name that does not match |
| Progress.HighDelimiterStalls | pkg/store/bucket.go:300-304 | such a run with a delimiter whose successor lies before it |
| Stalling.StallsIff | pkg/store/bucket.go:225-304 | a request can be held up by a bucket of valid names iff one of at most eight names does it |
| Progress.PanicsIffShortRow | pkg/store/bucket.go:293-293 | some page of a bucket panics iff it has a name in the range of the prefix that is shorter than the prefix |
| Progress.PanicsIff | pkg/store/bucket.go:225-293 | a request panics on some bucket of valid names iff its prefix goes on with 0xff behind a byte from 0x7f to 0xc2 and the misplaced name is valid |
| Progress.PanicExample | pkg/store/bucket.go:293-293 | such a call |
| S3Cursors.StartAfterIsExclusive | pkg/s3/objects.go:194-196 | start-after ranges over the matching names strictly above it |
| S3Cursors.NextMarkerIsLastKey | pkg/s3/objects.go:267-279 | the larger of last object and last prefix is the last entry of the page |
| S3Cursors.MarkerResumes | pkg/s3/objects.go:197-208 | a page's marker ranges over its pending names, but for those hidden by an object that looks like a common prefix; one without a successor hides all of them and starts over |
| S3Cursors.MarkersFollowTokens | pkg/s3/objects.go:187-208 | without split names the V1 chain gives the pages of the V2 chain |
| S3Cursors.SplitBreaksChain | pkg/s3/objects.go:197-208 | with a split name there are page limits for which a page of one chain has other entries than that of the other |
| S3Cursors.V1MatchesV2IffUnsplit | pkg/s3/objects.go:187-279 | where all ranges are right about the names of the bucket, the chains have the same entries on their pages for all limits iff no listed object ends in the delimiter and is the beginning of another matching name |
| S3Cursors.SafeQueryIsCursorsExact | pkg/s3/objects.go:187-208 | for a safe request they are, on every bucket |
| S3Cursors.FolderMarkerSplits | pkg/s3/objects.go:200-203 | "a/" listed under prefix "a/" is such a name |
| S3Server.ListObjects | pkg/s3/objects.go:167-281 | a V2 reply ranges over the matching names from the continuation token on, whatever start-after is, and without one over those behind start-after; a V1 reply over those behind the marker and its group; it is truncated iff a matching name is left over, and then `next` is the least such name (V2) or the last key of the page (V1) |
| S3Server.V2ChainIsListing | pkg/s3/objects.go:187-259 | V2 requests that keep start-after and follow `next` give the listing in pages of the wanted sizes |
| S3Server.V1ChainIsListing | pkg/s3/objects.go:197-279 | so do V1 requests that follow the marker, if no name is split |
| Types.Passes | pkg/store/types.go:49-68 | each given condition holds; an absent object has number 0 and passes every "not match" |
| Types.NewAttributes | pkg/store/blobwriter.go:145-183 | content type and metadata as given, metageneration 1, the clock as creation and update time, and the generation |
| Types.ValidObjectName | pkg/store/bucket.go:89-92 | which names the store takes |
| Types.NextGeneration | pkg/store/blobwriter.go:145-149 | at least the clock, and above the generation that is replaced |
| Cas.BlobsAfterCommit | pkg/store/blobwriter.go:151-166 | a commit adds one reference to the new content and takes one from the replaced one, and no count falls to zero |
| Cas.OrphansOfCommit | pkg/store/blobwriter.go:157-166 | a commit orphans the replaced content iff this name was all that referred to it, and never the new one; only the orphan loses its row |
| Cas.CountedAfterDelete | pkg/store/bucket.go:172-221 | a delete keeps every refcount at the number of object rows, and orphans the content iff this name was all that referred to it |
| Cas.ConsistentAfterInstall | pkg/store/blobwriter.go:117-127 | installing or deduplicating a file keeps the bucket consistent and is invisible |
| Cas.ConsistentAfterCommit | pkg/store/blobwriter.go:129-187 | the transaction keeps the bucket consistent and is seen as one map update |
| Cas.ConsistentAfterDelete | pkg/store/bucket.go:165-192 | deleting keeps the bucket consistent and is seen as one map removal |
| Cas.ConsistentAfterRemoval | pkg/store/bucket.go:193-195 | removing a file without a blob row is invisible |
| CasRun.AlwaysInOrder | pkg/store/blobwriter.go:114-190 | in every reachable state, mid-operation, after failures and crashes, and for any hash function: each refcount is the number of rows with that hash and at least 1, each referenced hash has its file, each file's content has its hash, and an orphan in hand has no row |
| CasRun.AlwaysGood | pkg/store/blobwriter.go:114-190 | if no two contents in use collide, the recorded sizes and checksums are those of the files as well |
| CasRun.StepRefines | pkg/store/blobwriter.go:111-190 | every step of the store is the same step on a plain map from names to contents and attributes |
| CasRun.RunsRefine | pkg/store/blobwriter.go:111-190 | so is every run, failures and crashes included |
| CasRun.RefinesIffCollisionFree | pkg/store/blobwriter.go:117-127 | every run over some contents is that of a plain map iff no two of them share a sha256 |
| CasRun.SharersUndisturbed | pkg/store/bucket.go:199-221 | changing one name never changes what another with the same content reads, for any hash function |
| CasRun.LockFreeOpen | pkg/store/bucket.go:140-154 | a reader without a lock gets content with the hash of the row it read, or fails, and that only if the blob's last reference went in between; without collisions it is that version's content |
| CasRun.LeakGrowth | pkg/store/blobwriter.go:117-143 | only an error or refusal behind the install, a failed removal or a crash leaves a file behind, and only a file that no blob row refers to |
| CasRun.LeakBound | pkg/store/blobwriter.go:117-190 | for any hash function, stray files are at most as many as such steps; with none, files and blob rows agree, and an empty bucket has no files |
| CasRun.SmoothRunsLeaveNothing | pkg/store/blobwriter.go:117-190 | in runs without error, crash and refused commit, files and blob rows agree between operations, and deleting every object empties the bucket |
| CasRun.CommitsAscend | pkg/store/blobwriter.go:145-149 | for any clock, commits of a name not deleted in between have ascending generations |
| CasRun.OnlyOneGuardedCommit | pkg/store/blobwriter.go:135-149 | of commits guarded by the same generation match only one succeeds, unless it is 0 for an absent name with the clock at zero or before |
| CasRun.GuardExcludesIff | pkg/store/blobwriter.go:135-149 | that exception is exact: behind a guarded commit, a run goes on to a second one iff it applies |
| CasRun.ZeroClockLetsTwoThrough | pkg/store/blobwriter.go:145-149 | in that case, the run with two such commits |
| CasRun.MatchZeroMeansAbsent | pkg/store/types.go:49-57 | with positive clocks GenerationMatch 0 passes iff the object is absent |
| BucketStore.Bucket.OpenObject | pkg/store/bucket.go:140-154 | undisturbed, it opens the content of the map, and finds every object of it |
| BucketStore.Bucket.DeleteObject | pkg/store/bucket.go:157-197 | the error for each failure, the map without the name on success and unchanged otherwise, the blob file gone iff no other name has the content, and the run of the step machine that it is |
| BucketStore.Bucket.InstallFile | pkg/store/blobwriter.go:117-127 | moves the temp file into place unless one of that hash is there |
| BucketStore.Bucket.CommitRows | pkg/store/blobwriter.go:129-190 | the transaction and the removal behind it, for each way they can fail |
| BucketStore.BlobWriter.Write | pkg/store/blobwriter.go:55-67 | appends the accepted bytes to file and hashers alike; refused when finished |
| BucketStore.BlobWriter.Abort | pkg/store/blobwriter.go:78-86 | finishes the writer and removes its temp file; a second call changes nothing |
| BucketStore.BlobWriter.Commit | pkg/store/blobwriter.go:91-206 | when it succeeds, the row it returns field by field, the map update it makes, the blob files it adds and removes, that a failure leaves the map alone, that the temp file is gone either way, and the run of the step machine that it is |
| BucketStore.PutObject | pkg/store/blobwriter.go:221-231 | stores the whole body with the row it returns, field by field, or changes nothing, and leaves no temp file |
| Resumable.AlwaysOrderly | pkg/gcs/upload.go:203-214 | in every interleaving at most one commit is attempted, of the session's content, after finalisation |
| Resumable.WriterIsAheadBySpill | pkg/gcs/upload.go:230-245 | the writer is ahead of the offset by exactly the bytes of broken and wrong-length bodies |
| Resumable.FinalisedStays | pkg/gcs/upload.go:212-215 | after finalisation no request changes content or offset |
| Resumable.UploadIsFaithful | pkg/gcs/upload.go:217-269 | under any loss, repetition and reordering of whole requests the writer holds the first offset bytes of the content, and what is committed is the content |
| Resumable.CommitIsExactIffNoSpill | pkg/gcs/upload.go:235-245 | with bodies that can break off, the committed content is right iff nothing was spilled |
| Resumable.ResumeFinishes | pkg/gcs/upload.go:220-269 | a probe reports the offset, and the rest sent from there finishes the upload with the content |
| Resumable.BrokenBodyCorrupts | pkg/gcs/upload.go:235-239 | a retry after a broken body commits a byte twice |
| ContentRanges.ParseIffForm | pkg/gcs/upload.go:194-195 | a header is taken for a probe or a chunk iff it has a split into the pieces of that pattern |
| ContentRanges.FormsAreRead | pkg/gcs/upload.go:220-229 | whatever the split, the numbers taken from it are those of its pieces |
| ContentRanges.ParseOfPrint | pkg/gcs/upload.go:217-229 | reading undoes writing iff every number fits 64 bits; larger ones are not told apart |
| ContentRanges.ClientIsUnderstood | pkg/gcs/upload.go:217-229 | what a faithful client writes is read as it was meant, if the size of its content fits 64 bits |
| Resumable.RequestsMean | pkg/gcs/upload.go:217-266 | what each kind of request does to an unfinished session, and the reply to it |
| ContentRanges.ChunkExample | pkg/gcs/upload.go:224-229 | a chunk header as bytes, and its numbers |
| ContentRanges.ProbeExamples | pkg/gcs/upload.go:220-223 | the two kinds of probe header as bytes |
| ContentRanges.RefusedExample | pkg/gcs/upload.go:194-194 | a header with a byte that is no digit |
| GcsUpload.CommitUpload | pkg/gcs/upload.go:77-110 | which check rejects an upload: a claimed md5 or crc32c that cannot be decoded or is not that of the content; and what is stored, field by field, if none does |
| GcsUpload.Server.StartResumableUpload | pkg/gcs/upload.go:158-191 | adds a fresh session with an empty writer |
| GcsUpload.UploadSession.Receive | pkg/gcs/upload.go:212-263 | is the protocol step on the session; the writer's temp file follows, no other one does |
| GcsUpload.Server.HandleResumableChunk | pkg/gcs/upload.go:198-269 | for each kind of request the reply and the new session, a whole body without a header finalising at once; removes a finalised session from the map and its temp file, and stores its content or says why not |
| Hex.ParseOfPrint | pkg/s3/awschunked.go:61-61 | parsing undoes printing for every size of 63 bits |
| Hex.SignsAndBounds | pkg/s3/awschunked.go:61-61 | a sign in front of digits, and the bounds of 64 bits |
| Hex.ParseExamples | pkg/s3/awschunked.go:61-61 | sizes in both cases, with signs, and strings that are none |
| AwsChunked.SpacedSizeParses | pkg/s3/awschunked.go:57-61 | spaces and tabs around a size do not matter |
| AwsChunked.StreamExample | pkg/s3/awschunked.go:26-28 | an encoded stream as bytes |
| AwsChunked.SizeLineParses | pkg/s3/awschunked.go:53-64 | a printed size line announces its size, whatever the extension |
| AwsChunked.AwsChunkedReader.DiscardCRLF | pkg/s3/awschunked.go:84-95 | takes two bytes of CR or LF or says why not |
| AwsChunked.AwsChunkedReader.Read | pkg/s3/awschunked.go:35-82 | what a Read delivers and what is left after it make up what was left before, for any buffer and any short read; with room it makes progress |
| AwsChunked.CopyAll | pkg/s3/awschunked.go:35-82 | Reads with any non-empty buffers deliver everything that is left, and its error |
| AwsChunked.DecodeOfEncode | pkg/s3/awschunked.go:26-82 | an encoded stream decodes to its payload and an end of file, whatever follows it |
| AwsChunked.CutDeliversAFront | pkg/s3/awschunked.go:40-81 | a cut of any input delivers a front of what the whole delivers |
| AwsChunked.CutIsSilentIffBehindASizeLine | pkg/s3/awschunked.go:40-81 | a cut encoded stream ends cleanly iff the cut is behind a size line, and is an error within one |
| AcceptedStreams.AcceptedIffParses | pkg/s3/awschunked.go:35-95 | an input decodes to a payload and an end of file iff it is put together from chunks and lines as that grammar says |
| AcceptedStreams.FaultsAreReported | pkg/s3/awschunked.go:40-95 | behind any chunks, a cut size line, a bad size, data that ends early and a missing line end each give the payload so far and an error of their own |
| S3Server.PutObject | pkg/s3/objects.go:34-51 | stores the decoded payload if it ends cleanly, with the row it returns, field by field, and for If-None-Match only over an absent object |
| S3Server.PutEncoded | pkg/s3/awschunked.go:17-24 | an encoded upload that arrives whole is stored as its payload |
| Multipart.AlwaysGood | pkg/s3/multipart.go:81-224 | the invariant on staged files, locks and progress after every sequence of events |
| Multipart.ContentsFrozen | pkg/s3/multipart.go:97-120 | nobody but its writer changes a staged file |
| Multipart.HeldUploadsStand | pkg/s3/multipart.go:148-149 | nobody changes an upload that a completion has locked |
| Multipart.FilesAreConserved | pkg/s3/multipart.go:37-42 | in every reachable state the staged files are those of unfinished uploads and of part uploads under way, each owned once |
| Multipart.NothingLeftBehind | pkg/s3/multipart.go:109-120 | when all uploads are finished and no part is under way, no staged file is left, late parts included |
| Multipart.CommitIsChecked | pkg/s3/multipart.go:154-193 | a completion commits exactly the staged parts in request order, each with the md5 of its ETag |
| RepeatedParts.TwiceNamedTwiceThere | pkg/s3/multipart.go:140-166 | a part named twice passes the order and ETag checks, and its bytes are there twice |
| RepeatedParts.JoinedOnceIffRepeatsAreEmpty | pkg/s3/multipart.go:140-185 | for an ascending request, repetitions do not show iff every part named more than once is empty |
| RepeatedParts.DistinctNamesOnce | pkg/s3/multipart.go:140-146 | without its repetitions such a request names the same parts in strictly ascending order |
| Multipart.CommittedOnce | pkg/s3/multipart.go:148-153 | at most one completion of an upload succeeds, and its content stands |
| Multipart.FailureKeepsUpload | pkg/s3/multipart.go:154-193 | a completion that fails leaves parts, files and upload as they were, and unlocked |
| MultipartSolo.RunFromIsRun | pkg/s3/multipart.go:81-224 | what a handler does in one go is part of a run of the machine |
| MultipartSolo.PartRuns | pkg/s3/multipart.go:81-124 | the steps of an undisturbed part upload, from any state, with other uploads and handlers around |
| MultipartSolo.CompleteRuns | pkg/s3/multipart.go:126-209 | those of a completion: nothing has changed, or the joined parts are committed and upload and files are gone |
| MultipartSolo.AbortRuns | pkg/s3/multipart.go:211-224 | those of an abort: upload and files are gone |
| MultipartServer.MultipartUpload.ViewIsGood | pkg/s3/multipart.go:25-42 | what the class keeps true is the invariant of the machine |
| MultipartServer.MultipartUpload.UploadPart | pkg/s3/multipart.go:81-124 | each refusal leaves no file behind; a part replaces its predecessor, file and all; it is a run of the machine |
| MultipartServer.MultipartUpload.IsSorted | pkg/s3/multipart.go:140-146 | part numbers do not fall |
| MultipartServer.MultipartUpload.CheckParts | pkg/s3/multipart.go:154-166 | the first part that is missing or does not match, if any |
| MultipartServer.MultipartUpload.CopyParts | pkg/s3/multipart.go:173-185 | the writer holds the parts joined in request order |
| MultipartServer.MultipartUpload.Complete | pkg/s3/multipart.go:126-209 | exactly when it succeeds, and the error otherwise, with the first bad part; then the object is the joined parts, with attributes field by field, and the staged files are gone, otherwise nothing has changed; it is a run of the machine |
| MultipartServer.MultipartUpload.RemoveParts | pkg/s3/multipart.go:37-42 | the files of all parts are removed and no others |
| MultipartServer.MultipartUpload.Abort | pkg/s3/multipart.go:211-224 | the upload is finished and its staged files are gone; it is a run of the machine |

## Left out

- S3Cursors.V1MatchesV2IffUnsplit: not for buckets on which a range is wrong about a name; there the pages themselves are wrong.
- Resumable.UploadIsFaithful: for clients that send Content-Range; a whole-body request without it into a partly chunked session appends the body again and is excluded from the client, though not from the other session lemmas.
- Resumable.BrokenBodyCorrupts: an example; the exact condition is CommitIsExactIffNoSpill.
- AwsChunked.SizeLineParses: ParseSize trims ASCII white space around the size, the source also Unicode white space, which no encoder writes.
- AwsChunked.AwsChunkedReader.Read: the buffered source returns at least one byte when it has any and there is room; readers that return nothing without an error are not modelled.
- CasRun.OnlyOneGuardedCommit: not across a delete, behind which a generation can repeat.
- CasRun.GuardExcludesIff: like it, for runs in which the name stays present.
- CasRun.LeakBound: bounds blob files only; temp files of uploads that a crash interrupts stay in the tmp directory.
- Types.NextGeneration: generations are unbounded integers, not 64-bit ones.
- BucketStore.Bucket.ListObjects: runs over a bucket that stays as it is; changes between its queries are modelled in PagingUnderChange.dfy, row by row. Database errors are not modelled.
- PagingUnderChange.PagingSurvivesChange: for finished chains; one to which names are always added need not finish.
- MultipartServer.MultipartUpload.Complete: the map of uploads is not part of the class, but its lookups and removals are steps of the run that the method is.
- GcsUpload.Server.HandleResumableChunk: the length of a chunk is computed without 64-bit wrap-around, which only "0-9223372036854775807" reaches.
- HTTP routing, headers, status codes, JSON, XML and URL encoding, and `http.ServeContent`: plumbing over libraries.
- sha256, md5 and crc32c: functions of the content; quotes around an ETag and its hexadecimal form are taken off before the model compares it.
- SQLite: a transaction is atomic and survives a process crash; power loss is excluded.
- Creating, opening and deleting buckets: the model is one bucket between its creation and its deletion.
- Clashes of temp names and of upload ids, which are random in the source: taken to be fresh.
- GCS multipart/related and media uploads, server-side copy, batch delete and read preconditions: they add only easy members.
- A process crash during a multipart upload: sessions are in memory, and staged files then stay in the tmp directory.
