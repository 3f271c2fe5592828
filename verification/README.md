# IsYourDay file store — a Dafny model

This project models the content-addressed local file store of the IsYourDay
back end and the small validators around it, and proves properties of the
model. The pieces are:

- **Naming and hashing.** A stored file (a *blob*) lives in a directory under
  the name `{md5}_{name}`. The metadata row (`FileDB`) records digest, name,
  directory, size, uploader and visibility.
- **Uploads.** There are three upload paths:
  - the streamed upload, with a size cap and dedup by digest;
  - the raw and single-shot helpers;
  - the resumable chunked upload. It keeps one slot file `{file_id}.chunk.{i}`
    per chunk and merges the slots in index order once all of them are present.
- **Serving.** The access rule and the `Range` header parser (a subset of
  section 2.1 of RFC 7233) are modelled. So are the chunked reader, the 206/200
  answers with `Content-Range` (section 4.2 of RFC 7233), and the
  `Content-Disposition` header with its RFC 5987 (section 3.2)
  percent-encoded fallback.
- **Reconciliation.** Three routes are modelled:
  - batch delete, with its shared-digest rule;
  - the orphan pass, which finds rows whose blob is gone and blobs no row names;
  - the age-based sweep of temp files.
- **Validators elsewhere:**
  - pagination arithmetic;
  - the e-mail format check;
  - the bearer-token and scope checks;
  - the challenge-code generator;
  - password rules;
  - activation and password-reset codes with their expiry windows;
  - the account-update permission rule;
  - the pending-e-mail guard;
  - the client's `mergeOpenApiConfig`.

## Model decisions

- **Disk.** The filesystem is an immutable value `Disk = map<dir, map<name, Entry(content, mtime)>>`.
- **File table.** The file table is a `seq<FileRecord>`.
- **Library calls are parameters.** The following are library calls, so each
  operation that needs one receives it as a parameter:
  - MD5 (`Hasher`);
  - JWT decoding (`Decoder`);
  - UUID parsing;
  - `random.choice` (the drawn positions);
  - bcrypt;
  - the Unicode character classes of `str.isdigit`/`isupper`/`islower` (`CharClasses`);
  - the `iterdir()` order (a `listing` that enumerates the directory once).
- **Outcomes.** Errors are values: `Result` carries an `Http(status)`, a
  `ValueError` or a `FileNotFound`. Operations return the new disk and table
  instead of mutating them.
- **Times.** Challenge-code times are integers in microseconds. File mtimes are
  whole seconds.
- **Batch delete through the ORM session.** The batch loop is modelled twice:
  - `Reconcile.DeleteLoopAsWritten` goes through a model of the SQLAlchemy
    session: the identity map, the row deleted since the last flush, and the
    autoflush before a query;
  - `Reconcile.DeleteLoop` is the corrected loop. It looks each id up in the
    table as earlier iterations left it.

  The two agree whenever no id repeats (`Reconcile.DistinctIdsAgree`). A
  repeated id is a finding (see Findings).
- **Code and description disagree in two places.** The model follows the code:
  - The download and stream routes describe a 416 answer for a bad range, but
    the code's outer `except Exception` turns it into a 500. The model keeps
    the code as written (`Delivery.ServeRouteAsWritten`) and uses the
    corrected route elsewhere (see Findings).
  - Activation codes are commented as never expiring, but the code deletes
    and rejects a code older than five minutes. The model keeps the five
    minutes.

## Model

| member | source | states |
|---|---|---|
| Decimal.NatToString | app/file/file.py:296 | `str(n)` of a length is a non-empty digit string that `int` reads back as `n` |
| Disk.EnsureDir | app/file/utils.py:44 | `mkdir(parents=True, exist_ok=True)` creates a missing directory empty and leaves an existing one and every other path unchanged |
| Disk.WriteThenRenameIsWrite | app/file/utils.py:147-149 | writing a fresh temp file then renaming it leaves the same filesystem as writing the final name directly |
| FileModels.GetPath | app/file/models.py:83-85 | the blob is in the record's directory under a name made of the digest, `_`, then the file name |
| FileModels.BlobNameInjective | app/file/models.py:83-85 | for a fixed digest, the blob name determines the file name |
| FileModels.DefaultName | app/file/models.py:72 | an absent or empty upload name becomes `unknown_file`; any other name is kept |
| FileModels.Write | app/file/models.py:87-95 | after `write` the blob exists and holds exactly the bytes; only that one file of that directory changes |
| FileModels.Read | app/file/models.py:97-105 | `read` fails with `FileNotFoundError` exactly when the blob is absent, else returns its bytes |
| FileModels.Delete | app/file/models.py:107-119 | missing directory: silent no-op; existing blob: unlinked and the row removed; missing blob in an existing directory: `FileNotFoundError` |
| FileModels.FromUploadFile | app/file/models.py:62-81 | digest and size of the whole content, default name, given uploader, private; the written blob reads back as the content |
| FileModels.WriteReadRoundTrip | app/file/models.py:87-105 | `read` after `write(b)` returns exactly `b` |
| FileModels.CheckMd5 | app/file/models.py:58-60 | `check_md5` holds exactly when the hash of the bytes equals the stored digest; `FileModels.FromUploadPassesCheck` proves that a freshly uploaded blob passes it |
| FileModels.FromUploadPassesCheck | app/file/models.py:58-81 | a blob created by `from_upload_file` passes `check_md5` when read back |
| FileModels.DeleteThenReadFails | app/file/models.py:97-119 | after deleting an existing blob, reading it raises `FileNotFoundError` |
| FileUtils.FilePath | app/file/utils.py:37-45 | a parent that is not a `FILE_PATH` value is a `ValueError`; a truthy sub-path is appended, otherwise the parent is used; the directory exists afterwards and nothing else changes |
| FileUtils.UserAndTempDirsDistinct | app/file/settings.py:9-10 | a user's blob directory is never anyone's chunk-slot directory |
| FileUtils.Ingest | app/file/utils.py:116-132 | the streaming loop fails with 413 exactly when the running total exceeds `MAX_FILE_SIZE_LIMIT_MB*1024*1024`, otherwise yields the chunks concatenated in order |
| FileUtils.FirstWithMd5 | app/file/utils.py:138-140 | the first row with the digest, or none exactly when no row has it |
| FileUtils.ProcessLargeFileUpload | app/file/utils.py:100-171 | 413 iff over the cap (only the user directory created); an existing digest returns that row with no new row or blob; otherwise one new row whose blob `{md5}_{name}` holds the bytes, with digest and size of the concatenated chunks |
| FileUtils.ProcessLargeFileUploadRaw | app/file/utils.py:174-221 | 413 iff over the cap; otherwise digest, size and path of the concatenated chunks, and the blob holds them |
| FileUtils.ProcessStandardFileUploadRaw | app/file/utils.py:224-250 | 413 iff over the cap; otherwise the content is written under its content-addressed name and nothing else changes |
| FileUtils.StreamedUploadMatchesSingleShot | app/file/utils.py:174-250 | the streamed and the single-shot raw upload of the same bytes give the same answer and the same filesystem |
| FileUtils.SecondUploadDeduplicated | app/file/utils.py:138-149 | uploading the same bytes a second time returns the first row and changes neither disk nor table |
| RangeRequests.MatchRange | app/file/utils.py:57-59 | a match lies at the start of the header, and its groups are a non-empty digit run and a (possibly empty) digit run, each maximal |
| RangeRequests.MatchRangeComplete | app/file/utils.py:57-59 | every header of the matched shape is matched, with exactly its own groups |
| RangeRequests.ParseRangeHeader | app/file/utils.py:55-73 | any accepted `(start, end)` has `0 <= start <= end <= size-1`; start is the first group; end is the second group, or `size-1` when that is empty; every failure is a `ValueError` |
| RangeRequests.ParseRangeHeaderShape | app/file/utils.py:61-73 | for a matched header, accepted exactly when `start <= end < size` |
| RangeRequests.ParseFormattedRange | app/file/utils.py:55-73 | `bytes=s-e` parses back to `(s, e)` for every satisfiable window |
| RangeRequests.ParseOpenRange | app/file/utils.py:64-67 | `bytes=s-` reaches the last byte |
| RangeRequests.SuffixRangeRejected | app/file/utils.py:57-59 | the suffix form `bytes=-N` is rejected |
| RangeRequests.EndBeyondFileRejected | app/file/utils.py:70-71 | an end beyond the file is rejected, not clamped |
| RangeRequests.TrailingTextIgnored | app/file/utils.py:57 | text after the matched groups does not change the result |
| RangeRequests.EmptyFileUnsatisfiable | app/file/utils.py:70-71 | no header is accepted for an empty file |
| RangeRequests.ReadToEnd | app/file/utils.py:81-87 | with `end` absent, the chunks are non-empty, at most `chunk_size` long, and spell the file from `start` to its end |
| RangeRequests.ReadRange | app/file/utils.py:88-97 | with `end` given, the chunks are non-empty and at most `chunk_size` long, and none are produced when nothing remains |
| RangeRequests.ReadRangeContent | app/file/utils.py:88-97 | with a positive chunk size, the chunks spell exactly the window `start..start+remaining`, cut short by the end of the file |
| RangeRequests.NegativeChunkReadsToEnd | app/file/utils.py:90-93 | with a negative chunk size the window is ignored and the rest of the file is read |
| RangeRequests.CreateFileIterator | app/file/utils.py:76-97 | no chunk is empty or longer than a positive chunk size; with no end the chunks spell the file from `start` to its end; an end before `start` yields nothing; the exact range is `RangeRequests.RangeServedExactly` |
| RangeRequests.RangeServedExactly | app/file/utils.py:76-97 | a satisfiable window is served as exactly `end-start+1` bytes equal to the slice, in bounded chunks |
| RangeRequests.RangeNeverOversends | app/file/utils.py:90-97 | never more than `end-start+1` bytes are sent |
| RangeRequests.ParsedRangeServed | app/file/utils.py:55-97 | the bytes served for an accepted header are the slice the header names |
| Sorting.Sort | app/file/file.py:182 | `list.sort()`: ascending and a permutation of the input |
| ChunkedUpload.SlotNameInjective | app/file/file.py:648 | two indices of one upload never share a slot name |
| ChunkedUpload.PresentSlots | app/file/file.py:657-661 | an index is listed iff it is below `total_chunks` and its slot exists; the count equals `total_chunks` iff every slot is present |
| ChunkedUpload.SlotChunks | app/file/file.py:678-683 | the merge reads slot `i` as the `i`-th chunk, for every `i` below `total_chunks` |
| ChunkedUpload.PurgeSlots | app/file/file.py:709-712 | afterwards no slot `0..total_chunks-1` remains; every other file and directory is unchanged |
| ChunkedUpload.WriteSlot | app/file/file.py:645-654 | the slot holds exactly this chunk's bytes (overwriting an earlier upload of the index); nothing else changes |
| ChunkedUpload.Publish | app/file/file.py:672-699 | the new row has the merged bytes' digest and size, the original name and the user's directory; its blob reads back as the merged bytes; the temp directory is untouched |
| ChunkedUpload.CountAndMerge | app/file/file.py:656-714 | the answer counts the present slots; completion iff all are present; before completion nothing changes; on completion one new row for the slots concatenated in index order, no slot left |
| ChunkedUpload.UploadChunk | app/file/file.py:617-720 | a bad index is 400, checked first; an oversized declared total is 413; neither writes anything; otherwise the slot is written and the answer is as in `CountAndMerge` |
| ChunkedUpload.ResubmissionIdempotent | app/file/file.py:648-668 | re-sending a stored chunk keeps the count, the completion verdict and the merged digest |
| ChunkedUpload.AcceptedStep | app/file/file.py:656-669 | an accepted request reports the slots present after its write; while short of the total it changes nothing but its slot |
| ChunkedUpload.CompletingStep | app/file/file.py:672-712 | the request that completes the set creates one row with digest and size of the slots in index order; its blob holds those bytes and no slot is left |
| ChunkedUpload.SessionPrefix | app/file/file.py:617-714 | during an upload, before its last chunk, the table is unchanged and the slots on disk are exactly the chunks sent so far |
| ChunkedUpload.ChunkOrderIrrelevant | app/file/file.py:656-712 | in whatever order the chunks arrive, each answer but the last reports the running count, and the last completes the upload with the parts in index order |
| ChunkedUpload.LastField | app/file/file.py:177 | `name.split('.')[-1]`: the dot-free suffix after the last dot, or the whole name |
| Decimal.ParseInt | app/file/file.py:177 | `int(s)`: a digit string is its decimal value; any accepted text, once stripped of whitespace, starts with a digit or a sign, and only `-` gives a negative |
| Decimal.ParseIntPadded | app/file/file.py:177 | whitespace around a literal does not change what `int` reads |
| Decimal.ParseIntSigned | app/file/file.py:177 | a `+` or `-` before the digits reads as the value or its negation |
| Decimal.ParseIntUnderscore | app/file/file.py:177 | one `_` between two digit runs is dropped |
| Decimal.ParseIntRejects | app/file/file.py:177 | the empty string, a bare sign, a leading, trailing or doubled `_` and a space after the sign are refused |
| ChunkedUpload.SlotNameReadsBack | app/file/file.py:175-178 | a slot written by the upload route reads back as its own index |
| ChunkedUpload.SlotFieldReads | app/file/file.py:175-178 | a name under the glob reads as whatever `int` makes of its last dot-free field |
| ChunkedUpload.PaddedSlotReadsAsIndex | app/file/file.py:175-178 | a name `{file_id}.chunk.` followed by whitespace-padded digits also counts as that slot |
| ChunkedUpload.ListedIndicesMembers | app/file/file.py:175-180 | an index is collected iff some listed name reads as it; other names are skipped |
| ChunkedUpload.GetUploadStatus | app/file/file.py:157-194 | the reported indices are sorted, counted by `total_uploaded`, and are exactly the indices read off the matching slot files |
| ChunkedUpload.StoredChunkReported | app/file/file.py:157-188 | a chunk just stored (and not yet merged) appears in the status report |
| Delivery.CheckAccess | app/file/file.py:245-257 | public files are open; a private one needs a user (401) who is its uploader (403), or with the override any superuser |
| Delivery.GetFile | app/file/file.py:198-226 | unknown id is 404; otherwise returned exactly when the access rule with the superuser override admits the caller |
| Delivery.ContentDisposition | app/file/file.py:276-283 | the header starts with `attachment; filename=`; an ASCII name follows verbatim; any other name gets the `file` fallback and the extended parameter; `Delivery.DispositionCarriesName` proves that parameter decodes to the name |
| Delivery.DispositionCarriesName | app/file/file.py:276-283 | an ASCII name is sent verbatim; otherwise the extended parameter uses only unreserved characters and escapes, and decodes back to exactly the name |
| Delivery.RangeAnswer | app/file/file.py:288-307 | 206; `Content-Range` names the window and size; `Content-Length` reads back as the bytes sent; the body is exactly the window in chunks of the route's size; `Content-Disposition` only on downloads |
| Delivery.FullAnswer | app/file/file.py:317-331 | 200; the body is the whole file and `Content-Length` reads back as its size; no `Content-Range` |
| Delivery.Serve | app/file/file.py:259-331 | a missing blob raises 404; a returned answer is 200 or 206; a raised one is 404 or 416 |
| Delivery.CatchAllAsWritten | app/file/file.py:333-337 | An answer the `try` block returns passes through unchanged, and every error it raises, the route's own `HTTPException`s included, becomes a 500. |
| Delivery.ServeRouteAsWritten | app/file/file.py:230-337 | lookup 404, access without the superuser override, then the `try` block behind the catch-all |
| Delivery.ServeRoute | app/file/file.py:230-337 | lookup 404, access without the override, then the `try` block with its own errors reaching the client |
| Delivery.AsWrittenAgreesOnSuccess | app/file/file.py:259-337 | the written and the corrected routes agree on every returned answer and on every error other than 500 |
| Delivery.RejectedRangeBecomes500 | app/file/file.py:309-337 | as written, a rejected range is answered 500 |
| Delivery.SuffixRangeAnswered500 | app/file/file.py:286-337 | `bytes=-5` on a stored public file: 500 as written, 416 corrected |
| Delivery.RejectedRangeIs416 | app/file/file.py:309-315 | corrected: a rejected range is 416 with `Content-Range: bytes */size` and no body |
| Delivery.MissingBlobStatus | app/file/file.py:261-337 | a row whose blob is gone: 500 as written, 404 corrected |
| Delivery.RangeReply | app/file/file.py:286-307 | an accepted header is answered with `RangeAnswer` for the parsed window, the same in both versions |
| Delivery.FullReply | app/file/file.py:317-331 | no or an empty `Range` header is answered with `FullAnswer` |
| Delivery.ResumeRoundTrip | app/file/file.py:290-303 | the bodies for the windows `0..k-1` and `k..size-1` together are the whole file |
| Delivery.SuperuserOverrideOnlyInGetFile | app/file/file.py:220-253 | whoever may download may read the record; a superuser who is not the uploader of a private file may read it but gets 403 on download |
| Delivery.OrphanedPrivateFileUndownloadable | app/file/file.py:246-257 | a private file without an uploader cannot be downloaded by anyone |
| PercentEncoding.EncodeChar | app/file/file.py:281 | one to four UTF-8 bytes, one exactly for ASCII, the rest continuation bytes |
| PercentEncoding.Utf8 | app/file/file.py:278-281 | the UTF-8 encoding is as long as the string exactly when the string is ASCII |
| PercentEncoding.Utf8RoundTrip | app/file/file.py:281 | decoding the UTF-8 encoding of a string gives it back |
| PercentEncoding.QuoteByte | app/file/file.py:281 | a byte is kept exactly when it is an always-safe character, else escaped as three characters |
| PercentEncoding.QuoteForm | app/file/file.py:281 | `quote(..., safe='')` output uses only unreserved characters and `%XX` escapes |
| PercentEncoding.QuoteRoundTrip | app/file/file.py:281 | percent-decoding `quote`'s output gives back the bytes |
| Reconcile.UnlinkAll | app/file/file.py:1020-1027 | unlinking the listed names removes exactly them from the directory and changes nothing else |
| Reconcile.FindRecord | app/file/file.py:885 | the row with the id, or none exactly when no row has it (the lookup of the corrected loop, which sees earlier deletions) |
| Reconcile.CountMd5 | app/file/file.py:905-907 | the count of rows with the digest is zero exactly when no row has it |
| Reconcile.TwoSharersCounted | app/file/file.py:905-910 | two different rows with one digest make the count at least two |
| Reconcile.DeleteFound | app/file/file.py:894-920 | not uploader or superuser is 403, and only then; the only other error is a missing blob of a lone digest without `force`; a lone digest unlinks the blob; a shared digest keeps the disk; exactly that row leaves |
| Reconcile.DeleteOne | app/file/file.py:884-927 | unknown id 404; not uploader or superuser 403; a lone digest unlinks the blob; a missing blob fails unless `force`; a shared digest keeps the disk; on success exactly that row leaves |
| Reconcile.DeleteLoop | app/file/file.py:883-933 | corrected loop (a repeated id finds its row gone): every id is deleted or failed; exactly the deleted ids' rows leave; the disk only loses files (which id ends how: `Reconcile.LoopReports`) |
| Reconcile.DeleteFilesBatch | app/file/file.py:867-948 | corrected route: an empty id list is 400, and only it; otherwise as `DeleteLoop` (which id ends how: `Reconcile.BatchReports`) |
| Reconcile.FindAfterRemove | app/file/file.py:885 | removing the rows of one id leaves the lookup of every other id unchanged |
| Reconcile.DeleteOneKeepsOtherLookups | app/file/file.py:884-927 | a successful iteration leaves the lookup of every other id unchanged |
| Reconcile.LoopReports | app/file/file.py:883-927 | with no repeated id, the corrected loop reports an unknown id as not found and a forbidden one as not permitted; it deletes a permitted id unless its blob is missing without `force`; it deletes only existing, permitted ids |
| Reconcile.BatchReports | app/file/file.py:867-927 | with distinct, non-empty ids the corrected route answers, and every id ends as `Reconcile.LoopReports` states |
| Reconcile.DeleteOneKeepsLiveBlobs | app/file/file.py:904-920 | one deletion never takes away a blob that a remaining row names |
| Reconcile.BatchKeepsLiveBlobs | app/file/file.py:883-933 | after a corrected batch, every surviving row still has the blob it had |
| Reconcile.Get | app/file/file.py:885 | `session.get` answers with the pending-deleted row for its id, and with the table's row for any other id |
| Reconcile.StepAsWritten | app/file/file.py:884-927 | one iteration through the session: a success makes the deleted row the pending one and removes exactly its id's rows; a failure changes neither table nor disk; the disk only loses files |
| Reconcile.DeleteLoopAsWritten | app/file/file.py:883-933 | the loop as written: every id is deleted or failed; exactly the deleted ids' rows leave; the disk only loses files |
| Reconcile.DeleteFilesBatchAsWritten | app/file/file.py:867-948 | the route as written: an empty id list is 400, and only it; otherwise as `DeleteLoopAsWritten` |
| Reconcile.StepAgrees | app/file/file.py:884-927 | for an id other than the pending row's, an iteration as written has the corrected iteration's outcome and state |
| Reconcile.DistinctIdsAgree | app/file/file.py:883-933 | with no repeated id, the loop as written and the corrected loop give the same batch |
| Reconcile.DistinctBatchAgrees | app/file/file.py:867-948 | with no repeated id, the route as written and the corrected route give the same answer |
| Reconcile.BatchAsWrittenReports | app/file/file.py:867-927 | with distinct, non-empty ids the route as written answers, and every id ends as `Reconcile.LoopReports` states |
| Reconcile.RepeatedIdUnlinksSharedBlob | app/file/file.py:883-927 | as written, ids `[a, a]` with a row `b` for the same blob delete `a` twice and unlink the blob `b` still names; the corrected route keeps it and reports the second `a` unknown |
| Reconcile.RepeatedLoneIdReportedBlobMissing | app/file/file.py:883-927 | as written, ids `[a, a]` for a lone digest report the second `a` as a missing blob; the corrected route reports it unknown |
| Reconcile.SharedDigestKeepsBlob | app/file/file.py:905-913 | with another row of the same digest, the row goes and the disk is unchanged |
| Reconcile.Prepared | app/file/file.py:959-968 | a global run scans the base directory, a user run the user's own; `file_path` creates it |
| Reconcile.CleanupOrphaned | app/file/file.py:952-1034 | global needs a superuser (403). An orphan is a scanned file that no row in scope names and that has no `temp_` prefix. Dangling rows are the rows in scope without a blob. A dry run changes nothing and reports 0. A real run removes both and counts them |
| Reconcile.OrphanCleanupLeavesNoOrphans | app/file/file.py:1005-1027 | after a real run, every file left in the scanned directory is named by a remaining row in scope or is a `temp_` file |
| Reconcile.OrphanCleanupLeavesNoDanglingRows | app/file/file.py:989-1001 | after a real run every remaining row in scope has its blob |
| Reconcile.StaleFiles | app/file/file.py:1068-1081 | a listed file is reported, with its size, exactly when its age exceeds `max_age_hours` hours |
| Reconcile.StaleNames | app/file/file.py:1069-1081 | the reported names are the stale listed names in listing order |
| Reconcile.CleanupTemp | app/file/file.py:1038-1089 | global needs a superuser (403); reported iff `now - mtime > max_age*3600`; count = number reported even on a dry run; a dry run changes nothing; a real run keeps exactly the fresh files |
| Reconcile.SweepOfFreshDir | app/file/file.py:1065-1089 | a directory with nothing stale: nothing reported, nothing changed |
| Reconcile.SweepIdempotent | app/file/file.py:1065-1089 | a second real sweep at the same moment finds nothing and changes nothing |
| Pagination.Create | app/models.py:24-39 | fields pass through; `page` holds record `skip`; `total_pages >= 1` is the ceiling of `total/limit`; `has_next` iff `skip+limit < total`; `has_prev` iff `skip > 0` |
| Pagination.TotalPagesIsLeast | app/models.py:27 | no smaller page count holds every record |
| Pagination.PageWalk | app/models.py:26-36 | with `skip=(p-1)*limit`, page `p` is reported, with a next page exactly before the last and a previous one exactly after the first |
| OpenApi.ApplyOne | src/client/core/OpenAPI.js:17-21 | one override never adds or removes a key |
| OpenApi.MergeOpenApiConfig | src/client/core/OpenAPI.js:13-25 | the result has exactly the keys of `config` |
| OpenApi.ApplyAllReference | src/client/core/OpenAPI.js:15-23 | each key takes the value of the last `_`-override aimed at it, else keeps its value |
| OpenApi.MergeMatchesReference | src/client/core/OpenAPI.js:13-25 | every key of `config` ends with the value of the last `_`-override aimed at its upper-cased name, else its `config` value |
| OpenApi.PlainKeysIgnored | src/client/core/OpenAPI.js:16 | overrides without the `_` prefix leave `config` as it is |
| AuthUtils.IndexOf | app/auth/utils.py:225-226 | the first occurrence of a character, or none exactly when absent |
| AuthUtils.EmailFormatCheck | app/auth/utils.py:222-226 | every string the check accepts matches the anchored pattern; the converse is `AuthUtils.EmailCheckMatchesPattern` |
| AuthUtils.EmailCheckMatchesPattern | app/auth/utils.py:222-226 | `email_format_check` accepts exactly the strings the anchored pattern matches, including one trailing newline |
| AuthUtils.ShapeComplete | app/auth/utils.py:225-226 | any split matching the pattern is the one the check finds |
| AuthUtils.FindUser | app/auth/utils.py:175 | the user with the id, or none exactly when absent |
| AuthUtils.GetRequestUser | app/auth/utils.py:148-189 | no token means no user and only then; 403 exactly when the token names an existing user but lacks a required scope, 401 exactly when a token is given and does not name an existing user; a returned user was named by a decodable token with a UUID `sub` holding every required scope |
| AuthUtils.GetRequestActiveUser | app/auth/utils.py:192-205 | a returned user exists and is active; no user is 401; an inactive user is 403; the errors of the token check pass through unchanged |
| AuthUtils.ActiveUserIffAuthorised | app/auth/utils.py:148-205 | the active-user dependency yields `u` exactly when every check passes for `u` |
| AuthUtils.ScopeCheckIsSubset | app/auth/utils.py:182-188 | for a valid token of an existing user, 403 exactly when the required scopes are not a subset of the token's |
| AuthUtils.AlphabetLayout | app/auth/utils.py:233 | the alphabet is the lower-case letters, the upper-case letters, then the digits |
| AuthUtils.RandomCode | app/auth/utils.py:229-234 | the code has the requested length (none for a negative one), each character the drawn letter or digit |
| AuthUtils.AlphabetIsAlnum | app/auth/utils.py:233 | a character can be drawn exactly when it is an ASCII letter or digit |
| AuthRoutes.RegisterPasswordCheck | app/auth/auth.py:171-200 | accepted iff every character is allowed and the password is strong; the character-set error iff a character is disallowed, whatever the length |
| AuthRoutes.ResetPasswordCheck | app/auth/auth.py:1002-1033 | accepted iff confirmation matches and the password is strong; mismatch reported first; each failure is reported exactly when its rule fails and every earlier one holds |
| AuthRoutes.RegisterIgnoresNonAscii | app/auth/auth.py:171-200 | registration's verdict is the same for any character classes that agree on ASCII |
| AuthRoutes.RegisteredPasswordResettable | app/auth/auth.py:1002-1033 | a password registration accepts is accepted by the reset |
| AuthRoutes.ResetIsLaxerThanRegister | app/auth/auth.py:1009-1033 | `Abcdef1! ` (with a space) passes the reset but fails registration's character set |
| AuthRoutes.FindChallenge | app/auth/auth.py:705-707 | the code row with that code and purpose, or none exactly when absent |
| AuthRoutes.DeleteChallenge | app/auth/auth.py:723 | exactly that code row leaves the table |
| AuthRoutes.ActivateUser | app/auth/auth.py:768 | the user with the id becomes active; every other row is unchanged |
| AuthRoutes.Activate | app/auth/auth.py:692-785 | unknown code: nothing changes; older than five minutes: code deleted; user gone: code kept; otherwise code deleted, `already_activated` iff active, and the user activated; a fresh code for an existing user always activates |
| AuthRoutes.ActivationSingleUse | app/auth/auth.py:722-771 | once a link has been used or found expired, the same link is invalid |
| AuthRoutes.ActivationWindowInclusive | app/auth/auth.py:722 | a code exactly five minutes old still activates |
| AuthRoutes.ShowResetPage | app/auth/auth.py:922-984 | unknown code: invalid; older than five minutes: expired and deleted; a fresh code whose user is gone: user missing; a fresh code for an existing user: the form with the user's name and e-mail, codes kept |
| AuthRoutes.SetPassword | app/auth/auth.py:1064 | the user with the id gets the new hash; every other row is unchanged |
| AuthRoutes.ResetSubmit | app/auth/auth.py:991-1071 | password rules first with nothing changed; success iff code known, at most a day old and user present; success stores the hash and deletes the code; an expired code is deleted |
| AuthRoutes.ResetWindowsDisagree | app/auth/auth.py:949-1054 | a code between five minutes and a day old would be accepted by the submission, yet the page expires and deletes it, after which the submission finds no code |
| AuthRoutes.ApplyUpdate | app/auth/auth.py:614-622 | set fields replace, unset ones stay; a non-empty password is hashed; an empty one is stored as it is |
| AuthRoutes.ReplaceUser | app/auth/auth.py:622-624 | the target row gets the update; every other row is unchanged |
| AuthRoutes.UpdateUserBasicInfo | app/auth/auth.py:593-626 | another user's account without superuser rights is 403 and only then; unknown target 404; a non-empty invalid e-mail 400 and only then; a permitted update of an existing target with an acceptable e-mail succeeds, as the update of the target |
| AuthRoutes.UpdateTouchesOnlyTarget | app/auth/auth.py:599-626 | only the target's row changes |
| AuthRoutes.SendPending | app/auth/auth.py:307-363 | unknown history 404; `success` is never re-sent, whoever asks; queued iff sender or superuser and every attachment exists; queuing sets the status `sent` |
| AuthRoutes.PendingGuardStable | app/auth/auth.py:320-357 | a queued row can be queued again; a successful one never is |

## Left out

- The HTTP framework is not modelled: routing, dependency injection, response classes and the SQL query builders. Each route is a function from its inputs and the current disk and table to an outcome and the new state.
- MD5, JWT encoding and decoding, bcrypt, UUID parsing and `random` are library calls. They are parameters, so nothing is assumed about them beyond being functions.
- SMTP, MIME assembly, Celery, the timing middleware and the development CLI are I/O or process management.
- Concurrency is not modelled: two simultaneous last chunks, the dedup rename race, and in-flight temp files seen by the orphan scan. Requests are handled one after another.
- Floating point is not modelled: `age_hours` rounding in the temp sweep, the percentage and MiB figures of the stats route, and the stringified float `Last-Modified` header.
- `mimetypes.guess_type` is a parameter (`guessed`). `Path.resolve` normalisation is not modelled: paths are plain strings joined with `/`.
- The `HEAD` variants and `get_download_info` are not modelled. Only `get_file`, `download_file` and `stream_file` are.
- `Delivery.Serve`: the `Accept-Ranges` and `Cache-Control` headers are modelled, but the `Last-Modified` header of the plain download is not.
- `AuthUtils.GetRequestUser`: the `WWW-Authenticate` value that names the required scopes is not modelled.
- `AuthRoutes.ResetPasswordCheck`: Python's Unicode classes for `isdigit`, `isupper` and `islower` are a parameter. `AuthRoutes.RegisterIgnoresNonAscii` shows that only their ASCII part matters for registration; for the reset it matters, and that is not modelled further.
- `AuthRoutes.SendPending`: an attachment id that is not a UUID makes `UUID(...)` raise. That ends in a 500, which is not modelled. The queued e-mail itself is I/O.
- `AuthRoutes.UpdateUserBasicInfo`: a field explicitly set to `null` in the body is treated as unset. A username or e-mail that collides with another account fails at commit; that is not modelled.
- `Reconcile.DeleteFilesBatch`: the database commit failing (500 after the loop) is not modelled. An unexpected exception inside one iteration is not modelled either; the model has no other source of one.
- `Reconcile.DeleteLoop`: the per-id outcome (`Reconcile.LoopReports`) is stated for distinct ids only. For a repeated id the corrected loop reports the later occurrences as not found, but only the examples in Findings say so.
- `Reconcile.StepAsWritten`: the session is modelled only as far as the batch loop uses it. It covers the identity map, one pending deletion and the flush before a query. A repeated `session.delete` of a row already flushed away issues a second DELETE at commit; that matches no row, which SQLAlchemy reports as a warning and is not modelled.
- `Decimal.ParseInt`: `int` also strips non-ASCII whitespace and reads non-ASCII decimal digits; only ASCII is modelled. `ChunkedUpload.GetUploadStatus` therefore does not count a slot name whose last field uses such characters.
- `Reconcile.CleanupOrphaned`: unlink errors, which the route ignores, cannot happen in the model. The "directory does not exist" answer of both cleanup routes is unreachable, because `file_path` has just created the directory.
- `ChunkedUpload.UploadChunk`: failures inside the `try` block (which the route turns into a 500) cannot happen in the model. The declared `total_size` is only compared with the cap, as in the code.
- `ChunkedUpload.GetUploadStatus`: the glob is modelled as a prefix test on `{file_id}.chunk.`. Glob metacharacters inside `file_id` are not modelled.
- Sub-second clock precision is not modelled. Challenge-code times are integers (microseconds) and mtimes whole seconds.
- `OpenApi.Upper`: `toLocaleUpperCase` is modelled for ASCII letters only.
- The list, search, stats, replace and update routes of the file manager and the event CRUD routes are not modelled. They are query-builder glue over the same records.

## Findings

| source | as written | input that shows it | evidently intended | confidence | as-written member | corrected member |
|---|---|---|---|---|---|---|
| app/file/file.py:309-315, 333-337 | the 416 raised for a rejected `Range` header is inside the outer `try`, whose `except Exception` re-raises every exception as a 500 | a stored public file requested with `Range: bytes=-5` | answer 416 with `Content-Range: bytes */{size}` | high; not executed | Delivery.ServeRouteAsWritten (Delivery.SuffixRangeAnswered500, Delivery.RejectedRangeBecomes500) | Delivery.ServeRoute (Delivery.RejectedRangeIs416) |
| app/file/file.py:261-266, 333-337 | the 404 raised when the blob of an existing row is missing is caught by the same handler and becomes a 500 | a row whose blob was removed from disk, requested by its uploader | answer 404 "physical file missing" | high; not executed | Delivery.ServeRouteAsWritten (Delivery.MissingBlobStatus) | Delivery.ServeRoute (Delivery.MissingBlobStatus) |
| app/file/file.py:883-927 | `session.get` returns the row an earlier iteration deleted, because it is still in the identity map; the digest query then flushes that deletion and counts the other sharer alone | ids `[a, a]` with a row `b` for the same directory, name and digest | a repeated id is deleted once, and the blob `b` names is kept | medium; not executed | Reconcile.DeleteFilesBatchAsWritten (Reconcile.RepeatedIdUnlinksSharedBlob, Reconcile.RepeatedLoneIdReportedBlobMissing) | Reconcile.DeleteFilesBatch (Reconcile.BatchKeepsLiveBlobs, Reconcile.BatchReports, Reconcile.DistinctBatchAgrees) |
