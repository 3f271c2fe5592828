/** Resumable chunked upload (`upload_file_chunk` and `get_upload_status`
    in app/file/file.py). Each chunk is a slot file `{file_id}.chunk.{i}` in
    the user's temp directory; the set of present slots is recomputed from
    the directory on every request, and the request that completes the set
    merges the slots in index order into one content-addressed blob. */
module ChunkedUpload {
  import opened Types
  import opened Decimal
  import opened Disk
  import opened FileSettings
  import opened FileModels
  import opened FileUtils
  import opened Sorting

  const SlotInfix: string := ".chunk."

  /** `f"{file_id}.chunk.{i}"`. */
  function SlotName(fileId: string, i: nat): string
  {
    fileId + SlotInfix + NatToString(i)
  }

  /** Distinct indices of one upload never share a slot. */
  lemma SlotNameInjective(fileId: string, i: nat, j: nat)
    requires SlotName(fileId, i) == SlotName(fileId, j)
    ensures i == j
  {
    assert NatToString(i) == SlotName(fileId, i)[|fileId| + |SlotInfix|..];
    assert NatToString(j) == SlotName(fileId, j)[|fileId| + |SlotInfix|..];
    NatToStringInjective(i, j);
  }

  /** The form fields of one chunk request. */
  datatype ChunkRequest = ChunkRequest(
    fileId: string,
    chunkIndex: int,
    totalChunks: int,
    totalSize: int,
    originalFilename: string,
    isPublic: bool,
    data: seq<byte>)

  /** The route's JSON answer (`uploaded` is always true and omitted). */
  datatype ChunkResponse = ChunkResponse(
    chunkIndex: int,
    uploadedChunks: nat,
    totalChunks: int,
    isComplete: bool,
    fileInfo: Option<FileRecord>)

  /** The indices `i < n` whose slot exists in `dir`. */
  ghost function PresentSet(dir: Dir, fileId: string, n: nat): set<nat>
  {
    set i: nat | i < n && SlotName(fileId, i) in dir
  }

  /** Every slot `0..n-1` exists. */
  predicate AllSlotsPresent(dir: Dir, fileId: string, n: nat)
  {
    forall i: nat :: i < n ==> SlotName(fileId, i) in dir
  }

  /** The route's loop `for i in range(total_chunks): if chunk_file.exists():
      uploaded_chunks.append(i)`. Its length counts the present slots, and
      it is full exactly when every slot is present. */
  function PresentSlots(dir: Dir, fileId: string, n: nat): (s: seq<nat>)
    ensures forall i: nat :: i in s <==> i < n && SlotName(fileId, i) in dir
    ensures |s| == |PresentSet(dir, fileId, n)|
    ensures |s| <= n
    ensures |s| == n <==> AllSlotsPresent(dir, fileId, n)
  {
    if n == 0 then []
    else
      var prev := PresentSlots(dir, fileId, n - 1);
      var last: nat := n - 1;
      PresentSetStep(dir, fileId, last);
      AllSlotsStep(dir, fileId, last);
      if SlotName(fileId, last) in dir then
        assert forall i: nat :: i in prev + [last] <==> i in prev || i == last;
        prev + [last]
      else prev
  }

  /** All of `0..last` are present exactly when all of `0..last-1` are and
      `last` is. */
  lemma AllSlotsStep(dir: Dir, fileId: string, last: nat)
    ensures AllSlotsPresent(dir, fileId, last + 1)
      <==> AllSlotsPresent(dir, fileId, last) && SlotName(fileId, last) in dir
  {
  }

  /** Looking at one more index adds it to the present set exactly when its
      slot exists. */
  lemma PresentSetStep(dir: Dir, fileId: string, last: nat)
    ensures last !in PresentSet(dir, fileId, last)
    ensures SlotName(fileId, last) in dir ==>
      PresentSet(dir, fileId, last + 1) == PresentSet(dir, fileId, last) + {last}
    ensures SlotName(fileId, last) !in dir ==>
      PresentSet(dir, fileId, last + 1) == PresentSet(dir, fileId, last)
  {
    var a := PresentSet(dir, fileId, last);
    var b := PresentSet(dir, fileId, last + 1);
    if SlotName(fileId, last) in dir {
      forall i: nat
        ensures i in b <==> i in a + {last}
      {
      }
    } else {
      forall i: nat
        ensures i in b <==> i in a
      {
      }
    }
  }

  /** The slot contents `0..n-1`, in index order: what the merge loop reads. */
  function SlotChunks(dir: Dir, fileId: string, n: nat): (chunks: seq<seq<byte>>)
    requires AllSlotsPresent(dir, fileId, n)
    ensures |chunks| == n
    ensures forall i :: 0 <= i < n ==> chunks[i] == dir[SlotName(fileId, i)].content
  {
    if n == 0 then [] else SlotChunks(dir, fileId, n - 1) + [dir[SlotName(fileId, n - 1)].content]
  }

  /** The slot names `0..n-1` of one upload. */
  ghost function SlotNames(fileId: string, n: nat): set<string>
  {
    set i: nat | i < n :: SlotName(fileId, i)
  }

  /** The cleanup loop `for i in range(total_chunks): if exists: unlink()`:
      afterwards no slot `0..n-1` is left and every other file is untouched. */
  function PurgeSlots(d: Disk, dir: string, fileId: string, n: nat): (d': Disk)
    requires dir in d
    ensures d' == d[dir := d[dir] - SlotNames(fileId, n)]
    ensures dir in d' && forall i: nat :: i < n ==> SlotName(fileId, i) !in d'[dir]
    ensures forall p :: p != dir && p in d ==> p in d' && d'[p] == d[p]
  {
    if n == 0 then
      assert d[dir] - SlotNames(fileId, 0) == d[dir];
      d
    else
      var prev := PurgeSlots(d, dir, fileId, n - 1);
      var name := SlotName(fileId, n - 1);
      assert SlotNames(fileId, n) == SlotNames(fileId, n - 1) + {name};
      MapMinusStep(d[dir], SlotNames(fileId, n - 1), name);
      if name in prev[dir] then Unlink(prev, dir, name) else prev
  }

  /** Removing one more key from a map restricted by a set of keys. */
  lemma MapMinusStep(m: map<string, Entry>, a: set<string>, x: string)
    ensures (m - a) - {x} == m - (a + {x})
    ensures x !in m - a ==> m - a == m - (a + {x})
  {
  }

  /** Saving one chunk: `open(user_temp_dir / f"{file_id}.chunk.{i}", 'wb')`,
      after `file_path` has created the temp directory. Overwrites an
      earlier upload of the same index. */
  function WriteSlot(d: Disk, userId: string, req: ChunkRequest, now: int): (d': Disk)
    requires req.chunkIndex >= 0
    ensures TempDir(userId) in d' && SlotName(req.fileId, req.chunkIndex) in d'[TempDir(userId)]
    ensures d'[TempDir(userId)][SlotName(req.fileId, req.chunkIndex)] == Entry(req.data, now)
    ensures SameExcept(d, d', TempDir(userId), {SlotName(req.fileId, req.chunkIndex)})
  {
    var dir := TempDir(userId);
    var d1 := EnsureDir(d, dir);
    var d2 := WriteFile(d1, dir, SlotName(req.fileId, req.chunkIndex), req.data, now);
    SameExceptTrans(d, d1, d2, dir, {SlotName(req.fileId, req.chunkIndex)});
    d2
  }

  /** `temp_{file_id}_{original_filename}`: where the merge is written before
      it is renamed to its content-addressed name. */
  function MergeTempName(req: ChunkRequest): string
  {
    "temp_" + req.fileId + "_" + req.originalFilename
  }

  /** The merge step after all slots are present: write the merged bytes
      to the temp name in the user's directory, rename it to
      `{md5}_{original_filename}` and build the new record. The temp
      directory is not touched. */
  function Publish(d: Disk, userId: string, req: ChunkRequest, merged: seq<byte>,
                   newId: string, now: int, hash: Hasher): (r: (FileRecord, Disk))
    requires TempDir(userId) in d
    ensures r.0 == FileRecord(newId, req.originalFilename, hash(merged), req.isPublic,
                              UserDir(userId), |merged|, Some(userId), now)
    ensures Read(r.1, r.0) == Ok(merged)
    ensures TempDir(userId) in r.1 && r.1[TempDir(userId)] == d[TempDir(userId)]
  {
    var md5 := hash(merged);
    var udir := UserDir(userId);
    UserAndTempDirsDistinct(userId, userId);
    var d2 := EnsureDir(d, udir);
    var d3 := WriteFile(d2, udir, MergeTempName(req), merged, now);
    var d4 := Rename(d3, udir, MergeTempName(req), BlobName(md5, req.originalFilename));
    (FileRecord(newId, req.originalFilename, md5, req.isPublic, udir, |merged|, Some(userId), now), d4)
  }

  /** What the route answers once the slot is on disk (`w` is the disk just
      after the write): the count of present slots; completion exactly when
      every slot `0..total_chunks-1` is present; before completion nothing
      else changes; on completion the new record carries the digest and
      size of the slots concatenated in index order, its blob reads back as
      those bytes, and no slot is left. */
  ghost predicate Accepted(w: Disk, records: seq<FileRecord>, userId: string, req: ChunkRequest,
                           hash: Hasher, s: Step<ChunkResponse>)
    requires TempDir(userId) in w && 0 <= req.totalChunks
  {
    var slots := w[TempDir(userId)];
    && s.outcome.Ok?
    && var resp := s.outcome.value;
       && resp.chunkIndex == req.chunkIndex
       && resp.totalChunks == req.totalChunks
       && resp.uploadedChunks == |PresentSet(slots, req.fileId, req.totalChunks)|
       && (resp.isComplete <==> resp.uploadedChunks == req.totalChunks)
       && (resp.isComplete <==> AllSlotsPresent(slots, req.fileId, req.totalChunks))
       && (!resp.isComplete ==> s.disk == w && s.records == records && resp.fileInfo.None?)
       && (resp.isComplete ==>
             && AllSlotsPresent(slots, req.fileId, req.totalChunks)
             && var merged := Flatten(SlotChunks(slots, req.fileId, req.totalChunks));
                && resp.fileInfo.Some?
                && var rec := resp.fileInfo.value;
                   && rec.md5 == hash(merged)
                   && rec.size == |merged|
                   && rec.name == req.originalFilename
                   && rec.path == UserDir(userId)
                   && rec.uploaderId == Some(userId)
                   && rec.isPublic == req.isPublic
                   && s.records == records + [rec]
                   && Read(s.disk, rec) == Ok(merged)
                   && TempDir(userId) in s.disk
                   && (forall i: nat :: i < req.totalChunks ==> SlotName(req.fileId, i) !in s.disk[TempDir(userId)]))
  }

  /** The part of the route after the slot write: count, and merge when
      complete. */
  function CountAndMerge(w: Disk, records: seq<FileRecord>, userId: string, req: ChunkRequest,
                         newId: string, now: int, hash: Hasher): (s: Step<ChunkResponse>)
    requires TempDir(userId) in w && 0 <= req.totalChunks
    ensures Accepted(w, records, userId, req, hash, s)
  {
    var tdir := TempDir(userId);
    var total: nat := req.totalChunks;
    var present := PresentSlots(w[tdir], req.fileId, total);
    if |present| != total then
      Step(Ok(ChunkResponse(req.chunkIndex, |present|, total, false, None)), w, records)
    else
      var merged := Flatten(SlotChunks(w[tdir], req.fileId, total));
      var published := Publish(w, userId, req, merged, newId, now, hash);
      var rec := published.0;
      var purged := PurgeSlots(published.1, tdir, req.fileId, total);
      UserAndTempDirsDistinct(userId, userId);
      assert Read(purged, rec) == Read(published.1, rec);
      Step(Ok(ChunkResponse(req.chunkIndex, |present|, total, true, Some(rec))), purged, records + [rec])
  }

  /** `upload_file_chunk`. The index check (400) runs first, then the
      declared-size check (413); neither writes anything. Otherwise the slot
      is written (overwriting an earlier upload of the same index) and the
      route answers as `Accepted` describes. The declared `total_size` is
      never compared with the merged size. */
  function UploadChunk(d: Disk, records: seq<FileRecord>, userId: string, req: ChunkRequest,
                       newId: string, now: int, hash: Hasher): (s: Step<ChunkResponse>)
    ensures req.chunkIndex < 0 || req.chunkIndex >= req.totalChunks ==>
      s == Step(Err(Http(400)), d, records)
    ensures 0 <= req.chunkIndex < req.totalChunks && req.totalSize > MaxFileSizeBytes ==>
      s == Step(Err(Http(413)), d, records)
    ensures 0 <= req.chunkIndex < req.totalChunks && req.totalSize <= MaxFileSizeBytes ==>
      Accepted(WriteSlot(d, userId, req, now), records, userId, req, hash, s)
  {
    if req.chunkIndex < 0 || req.chunkIndex >= req.totalChunks then Step(Err(Http(400)), d, records)
    else if req.totalSize > MaxFileSizeBytes then Step(Err(Http(413)), d, records)
    else CountAndMerge(WriteSlot(d, userId, req, now), records, userId, req, newId, now, hash)
  }

  /** Resubmitting an index whose slot already exists does not change the
      count, and with the same bytes it does not change what a merge reads. */
  lemma ResubmissionIdempotent(d: Disk, records: seq<FileRecord>, userId: string, req: ChunkRequest,
                               newId: string, now: int, hash: Hasher)
    requires 0 <= req.chunkIndex < req.totalChunks && req.totalSize <= MaxFileSizeBytes
    requires TempDir(userId) in d && SlotName(req.fileId, req.chunkIndex) in d[TempDir(userId)]
    requires d[TempDir(userId)][SlotName(req.fileId, req.chunkIndex)].content == req.data
    ensures var s := UploadChunk(d, records, userId, req, newId, now, hash);
      && s.outcome.value.uploadedChunks == |PresentSet(d[TempDir(userId)], req.fileId, req.totalChunks)|
      && (s.outcome.value.isComplete <==> AllSlotsPresent(d[TempDir(userId)], req.fileId, req.totalChunks))
      && (AllSlotsPresent(d[TempDir(userId)], req.fileId, req.totalChunks) ==>
            s.outcome.value.fileInfo.value.md5
              == hash(Flatten(SlotChunks(d[TempDir(userId)], req.fileId, req.totalChunks))))
  {
    var tdir := TempDir(userId);
    var w := WriteSlot(d, userId, req, now);
    var slot := SlotName(req.fileId, req.chunkIndex);
    assert w[tdir].Keys == d[tdir].Keys;
    assert PresentSet(w[tdir], req.fileId, req.totalChunks) == PresentSet(d[tdir], req.fileId, req.totalChunks);
    if AllSlotsPresent(d[tdir], req.fileId, req.totalChunks) {
      var a := SlotChunks(w[tdir], req.fileId, req.totalChunks);
      var b := SlotChunks(d[tdir], req.fileId, req.totalChunks);
      forall i | 0 <= i < req.totalChunks
        ensures a[i] == b[i]
      {
        if SlotName(req.fileId, i) == slot {
          SlotNameInjective(req.fileId, i, req.chunkIndex);
        }
      }
      assert a == b;
    }
  }

  /** The state after a sequence of chunk requests has been handled. */
  datatype SessionState = SessionState(disk: Disk, records: seq<FileRecord>, responses: seq<Result<ChunkResponse>>)

  /** Handle the first `k` of `reqs` one after another, as the route does
      for a client that sends them in that order. */
  function Session(d: Disk, records: seq<FileRecord>, userId: string, reqs: seq<ChunkRequest>, k: nat,
                   newId: string, now: int, hash: Hasher): (st: SessionState)
    requires k <= |reqs|
    ensures |st.responses| == k
  {
    if k == 0 then SessionState(d, records, [])
    else
      var prev := Session(d, records, userId, reqs, k - 1, newId, now, hash);
      var s := UploadChunk(prev.disk, prev.records, userId, reqs[k - 1], newId, now, hash);
      SessionState(s.disk, s.records, prev.responses + [s.outcome])
  }

  /** `reqs` uploads `parts` as chunks of one file: each part exactly once,
      under its own index, in any order, with consistent form fields. */
  ghost predicate UploadsParts(reqs: seq<ChunkRequest>, parts: seq<seq<byte>>, fileId: string,
                               filename: string, isPublic: bool)
  {
    && |reqs| == |parts|
    && (forall j :: 0 <= j < |reqs| ==>
          && reqs[j].fileId == fileId
          && reqs[j].totalChunks == |parts|
          && reqs[j].totalSize <= MaxFileSizeBytes
          && reqs[j].originalFilename == filename
          && reqs[j].isPublic == isPublic
          && 0 <= reqs[j].chunkIndex < |parts|
          && reqs[j].data == parts[reqs[j].chunkIndex])
    && (forall j1, j2 :: 0 <= j1 < j2 < |reqs| ==> reqs[j1].chunkIndex != reqs[j2].chunkIndex)
  }

  /** The indices sent by the first `k` requests. */
  ghost function Sent(reqs: seq<ChunkRequest>, k: nat): set<int>
    requires k <= |reqs|
  {
    set j | 0 <= j < k :: reqs[j].chunkIndex
  }

  lemma {:induction false} SentSize(reqs: seq<ChunkRequest>, k: nat)
    requires k <= |reqs|
    requires forall j1, j2 :: 0 <= j1 < j2 < |reqs| ==> reqs[j1].chunkIndex != reqs[j2].chunkIndex
    ensures |Sent(reqs, k)| == k
  {
    if k > 0 {
      SentSize(reqs, k - 1);
      assert Sent(reqs, k) == Sent(reqs, k - 1) + {reqs[k - 1].chunkIndex};
      assert reqs[k - 1].chunkIndex !in Sent(reqs, k - 1);
    }
  }

  /** No slot `0..n-1` of this upload is on disk yet. */
  ghost predicate NoSlots(d: Disk, userId: string, fileId: string, n: nat)
  {
    forall i: nat :: i < n ==> !FileExists(d, TempDir(userId), SlotName(fileId, i))
  }

  /** The slots `0..n-1` on `disk` are exactly the indices sent by the
      first `k` requests, each holding its part. */
  ghost predicate SlotsHoldSent(disk: Disk, userId: string, fileId: string,
                                reqs: seq<ChunkRequest>, parts: seq<seq<byte>>, k: nat)
    requires k <= |reqs|
  {
    && (forall i: nat :: i < |parts| ==>
          (FileExists(disk, TempDir(userId), SlotName(fileId, i)) <==> i in Sent(reqs, k)))
    && (forall i: nat :: i < |parts| && FileExists(disk, TempDir(userId), SlotName(fileId, i)) ==>
          disk[TempDir(userId)][SlotName(fileId, i)].content == parts[i])
  }

  /** An answer that stored the chunk, counted `count` slots and did not
      complete the upload. */
  predicate Incomplete(r: Result<ChunkResponse>, count: int)
  {
    r.Ok? && !r.value.isComplete && r.value.uploadedChunks == count
  }

  /** An answer that completed the upload of `parts`: the new record has
      the digest and size of the parts concatenated in index order, it is
      the only row added, its blob holds exactly those bytes, and no slot is
      left behind. */
  ghost predicate Completes(disk: Disk, table: seq<FileRecord>, r: Result<ChunkResponse>,
                            records: seq<FileRecord>, userId: string, fileId: string,
                            parts: seq<seq<byte>>, filename: string, hash: Hasher)
  {
    && r.Ok?
    && r.value.isComplete
    && r.value.uploadedChunks == |parts|
    && r.value.fileInfo.Some?
    && var rec := r.value.fileInfo.value;
       && rec.md5 == hash(Flatten(parts))
       && rec.size == |Flatten(parts)|
       && rec.name == filename
       && table == records + [rec]
       && Read(disk, rec) == Ok(Flatten(parts))
       && NoSlots(disk, userId, fileId, |parts|)
  }

  /** The state after the first `k < n` requests of an upload of `n` parts:
      the table is unchanged, the slots on disk are exactly the indices sent
      so far, each holding its part, and the j-th answer counted j+1 slots
      without completing. */
  ghost predicate PrefixState(st: SessionState, records: seq<FileRecord>, userId: string,
                              reqs: seq<ChunkRequest>, parts: seq<seq<byte>>, fileId: string, k: nat)
    requires k <= |reqs|
  {
    && st.records == records
    && |st.responses| == k
    && (forall j :: 0 <= j < k ==> Incomplete(st.responses[j], j + 1))
    && SlotsHoldSent(st.disk, userId, fileId, reqs, parts, k)
  }

  /** Every proper prefix of an upload of `parts` leaves a `PrefixState`. */
  lemma {:induction false} SessionPrefix(d: Disk, records: seq<FileRecord>, userId: string,
                                         reqs: seq<ChunkRequest>, parts: seq<seq<byte>>, fileId: string,
                                         filename: string, isPublic: bool,
                                         newId: string, now: int, hash: Hasher, k: nat)
    requires UploadsParts(reqs, parts, fileId, filename, isPublic)
    requires NoSlots(d, userId, fileId, |parts|)
    requires k < |reqs|
    ensures PrefixState(Session(d, records, userId, reqs, k, newId, now, hash), records, userId, reqs, parts, fileId, k)
  {
    if k > 0 {
      SessionPrefix(d, records, userId, reqs, parts, fileId, filename, isPublic, newId, now, hash, k - 1);
      PrefixInduct(d, records, userId, reqs, parts, fileId, filename, isPublic, newId, now, hash, k);
    }
  }

  /** One more request of a proper prefix keeps the `PrefixState`. */
  lemma PrefixInduct(d: Disk, records: seq<FileRecord>, userId: string,
                     reqs: seq<ChunkRequest>, parts: seq<seq<byte>>, fileId: string,
                     filename: string, isPublic: bool, newId: string, now: int, hash: Hasher, k: nat)
    requires UploadsParts(reqs, parts, fileId, filename, isPublic)
    requires 0 < k < |reqs|
    requires PrefixState(Session(d, records, userId, reqs, k - 1, newId, now, hash), records, userId, reqs, parts, fileId, k - 1)
    ensures PrefixState(Session(d, records, userId, reqs, k, newId, now, hash), records, userId, reqs, parts, fileId, k)
  {
    var prev := Session(d, records, userId, reqs, k - 1, newId, now, hash);
    var s := UploadChunk(prev.disk, prev.records, userId, reqs[k - 1], newId, now, hash);
    PrefixStep(prev.disk, records, userId, reqs, parts, fileId, filename, isPublic, newId, now, hash, k);
    var st := Session(d, records, userId, reqs, k, newId, now, hash);
    assert st == SessionState(s.disk, s.records, prev.responses + [s.outcome]);
    IncompleteExtends(prev.responses, s.outcome, k);
  }

  /** Appending an incomplete answer that counted `k` slots to `k - 1`
      answers that each counted their own position keeps the pattern. */
  lemma IncompleteExtends(rs: seq<Result<ChunkResponse>>, x: Result<ChunkResponse>, k: nat)
    requires |rs| + 1 == k
    requires forall j :: 0 <= j < |rs| ==> Incomplete(rs[j], j + 1)
    requires Incomplete(x, k)
    ensures forall j :: 0 <= j < k ==> Incomplete((rs + [x])[j], j + 1)
  {
  }

  /** The k-th request of a plan whose first k-1 requests left exactly
      their slots: it is answered incomplete with count k (when k < n) and
      leaves exactly the first k slots. */
  lemma PrefixStep(prev: Disk, records: seq<FileRecord>, userId: string,
                   reqs: seq<ChunkRequest>, parts: seq<seq<byte>>, fileId: string,
                   filename: string, isPublic: bool, newId: string, now: int, hash: Hasher, k: nat)
    requires UploadsParts(reqs, parts, fileId, filename, isPublic)
    requires 0 < k < |reqs|
    requires SlotsHoldSent(prev, userId, fileId, reqs, parts, k - 1)
    ensures var s := UploadChunk(prev, records, userId, reqs[k - 1], newId, now, hash);
      && Incomplete(s.outcome, k)
      && s.records == records
      && SlotsHoldSent(s.disk, userId, fileId, reqs, parts, k)
  {
    SlotsAfterWrite(prev, userId, reqs, parts, fileId, filename, isPublic, now, k);
    SentSize(reqs, k);
    AcceptedStep(prev, records, userId, reqs[k - 1], newId, now, hash);
  }

  /** One accepted request, seen from outside: its answer counts the slots
      present after the write; while that count is short of `total_chunks`
      the request changes nothing but its slot. */
  lemma AcceptedStep(d: Disk, records: seq<FileRecord>, userId: string, req: ChunkRequest,
                     newId: string, now: int, hash: Hasher)
    requires 0 <= req.chunkIndex < req.totalChunks && req.totalSize <= MaxFileSizeBytes
    ensures var s := UploadChunk(d, records, userId, req, newId, now, hash);
      var w := WriteSlot(d, userId, req, now);
      && s.outcome.Ok?
      && s.outcome.value.uploadedChunks == |PresentSet(w[TempDir(userId)], req.fileId, req.totalChunks)|
      && (s.outcome.value.isComplete <==> s.outcome.value.uploadedChunks == req.totalChunks)
      && (!s.outcome.value.isComplete ==> s.disk == w && s.records == records)
  {
  }

  /** One more request: the slots present after writing the k-th request
      are the indices of the first k requests, each holding its part. */
  lemma SlotsAfterWrite(prev: Disk, userId: string, reqs: seq<ChunkRequest>, parts: seq<seq<byte>>,
                        fileId: string, filename: string, isPublic: bool, now: int, k: nat)
    requires UploadsParts(reqs, parts, fileId, filename, isPublic)
    requires 0 < k <= |reqs|
    requires SlotsHoldSent(prev, userId, fileId, reqs, parts, k - 1)
    ensures var w := WriteSlot(prev, userId, reqs[k - 1], now);
      && PresentSet(w[TempDir(userId)], fileId, |parts|) == Sent(reqs, k)
      && SlotsHoldSent(w, userId, fileId, reqs, parts, k)
  {
    var req := reqs[k - 1];
    var w := WriteSlot(prev, userId, req, now);
    var tdir := TempDir(userId);
    assert Sent(reqs, k) == Sent(reqs, k - 1) + {req.chunkIndex};
    forall i: nat | i < |parts| && i != req.chunkIndex
      ensures SlotName(fileId, i) != SlotName(fileId, req.chunkIndex)
    {
      if SlotName(fileId, i) == SlotName(fileId, req.chunkIndex) {
        SlotNameInjective(fileId, i, req.chunkIndex);
      }
    }
    assert forall i :: i in Sent(reqs, k) ==> 0 <= i < |parts|;
  }

  /** Order does not matter: whatever order the client sends the chunks of
      `parts` in, every answer but the last is incomplete with the running
      count, and the last one completes the upload with the parts
      concatenated in index order (see `Completes`). */
  lemma ChunkOrderIrrelevant(d: Disk, records: seq<FileRecord>, userId: string,
                             reqs: seq<ChunkRequest>, parts: seq<seq<byte>>, fileId: string,
                             filename: string, isPublic: bool, newId: string, now: int, hash: Hasher)
    requires UploadsParts(reqs, parts, fileId, filename, isPublic)
    requires NoSlots(d, userId, fileId, |parts|)
    requires |parts| > 0
    ensures var st := Session(d, records, userId, reqs, |reqs|, newId, now, hash);
      && (forall j :: 0 <= j < |parts| - 1 ==> Incomplete(st.responses[j], j + 1))
      && Completes(st.disk, st.records, st.responses[|parts| - 1], records, userId, fileId, parts, filename, hash)
  {
    var n: nat := |parts|;
    SessionPrefix(d, records, userId, reqs, parts, fileId, filename, isPublic, newId, now, hash, n - 1);
    var prev := Session(d, records, userId, reqs, n - 1, newId, now, hash);
    var s := UploadChunk(prev.disk, prev.records, userId, reqs[n - 1], newId, now, hash);
    LastStep(prev.disk, records, userId, reqs, parts, fileId, filename, isPublic, newId, now, hash);
    var st := Session(d, records, userId, reqs, n, newId, now, hash);
    assert st == SessionState(s.disk, s.records, prev.responses + [s.outcome]);
    LastAppended(prev.responses, s.outcome);
  }

  /** The answers before an appended one are the earlier answers. */
  lemma LastAppended(rs: seq<Result<ChunkResponse>>, x: Result<ChunkResponse>)
    ensures (rs + [x])[|rs|] == x
    ensures forall j :: 0 <= j < |rs| ==> (rs + [x])[j] == rs[j]
  {
  }

  /** The last request of a plan whose other requests left exactly their
      slots completes the upload with the parts concatenated in order. */
  lemma LastStep(prev: Disk, records: seq<FileRecord>, userId: string,
                 reqs: seq<ChunkRequest>, parts: seq<seq<byte>>, fileId: string,
                 filename: string, isPublic: bool, newId: string, now: int, hash: Hasher)
    requires UploadsParts(reqs, parts, fileId, filename, isPublic)
    requires |reqs| > 0
    requires SlotsHoldSent(prev, userId, fileId, reqs, parts, |reqs| - 1)
    ensures var s := UploadChunk(prev, records, userId, reqs[|reqs| - 1], newId, now, hash);
      Completes(s.disk, s.records, s.outcome, records, userId, fileId, parts, filename, hash)
  {
    var n: nat := |parts|;
    var req := reqs[n - 1];
    FinalStep(prev, userId, reqs, parts, fileId, filename, isPublic, now);
    assert req.fileId == fileId && req.totalChunks == n && req.originalFilename == filename;
    CompletingStep(prev, records, userId, req, newId, now, hash);
  }

  /** After the last request of a plan whose other requests left exactly
      their slots is written, every slot is present and holds its part. */
  lemma FinalStep(prev: Disk, userId: string, reqs: seq<ChunkRequest>, parts: seq<seq<byte>>,
                  fileId: string, filename: string, isPublic: bool, now: int)
    requires UploadsParts(reqs, parts, fileId, filename, isPublic)
    requires |reqs| > 0
    requires SlotsHoldSent(prev, userId, fileId, reqs, parts, |reqs| - 1)
    ensures var w := WriteSlot(prev, userId, reqs[|reqs| - 1], now)[TempDir(userId)];
      && AllSlotsPresent(w, fileId, |parts|)
      && SlotChunks(w, fileId, |parts|) == parts
  {
    var n: nat := |parts|;
    var w := WriteSlot(prev, userId, reqs[n - 1], now);
    SlotsAfterWrite(prev, userId, reqs, parts, fileId, filename, isPublic, now, n);
    SentSize(reqs, n);
    var present := PresentSlots(w[TempDir(userId)], fileId, n);
    ChunksAreParts(w[TempDir(userId)], fileId, parts);
  }

  /** When every slot holds its part, the merge reads back the parts. */
  lemma ChunksAreParts(dir: Dir, fileId: string, parts: seq<seq<byte>>)
    requires AllSlotsPresent(dir, fileId, |parts|)
    requires forall i: nat :: i < |parts| ==> dir[SlotName(fileId, i)].content == parts[i]
    ensures SlotChunks(dir, fileId, |parts|) == parts
  {
  }

  /** A request after whose write every slot is present completes the
      upload: the record describes the slots concatenated in index order. */
  lemma CompletingStep(d: Disk, records: seq<FileRecord>, userId: string, req: ChunkRequest,
                       newId: string, now: int, hash: Hasher)
    requires 0 <= req.chunkIndex < req.totalChunks && req.totalSize <= MaxFileSizeBytes
    requires AllSlotsPresent(WriteSlot(d, userId, req, now)[TempDir(userId)], req.fileId, req.totalChunks)
    ensures var s := UploadChunk(d, records, userId, req, newId, now, hash);
      var merged := Flatten(SlotChunks(WriteSlot(d, userId, req, now)[TempDir(userId)], req.fileId, req.totalChunks));
      && s.outcome.Ok?
      && s.outcome.value.isComplete
      && s.outcome.value.uploadedChunks == req.totalChunks
      && s.outcome.value.fileInfo.Some?
      && var rec := s.outcome.value.fileInfo.value;
         && rec.md5 == hash(merged)
         && rec.size == |merged|
         && rec.name == req.originalFilename
         && s.records == records + [rec]
         && Read(s.disk, rec) == Ok(merged)
         && NoSlots(s.disk, userId, req.fileId, req.totalChunks)
  {
  }

  /** The last dot-separated field of a file name: `name.split('.')[-1]`. */
  function LastField(name: string): (f: string)
    ensures forall k :: 0 <= k < |f| ==> f[k] != '.'
    ensures |f| <= |name| && f == name[|name| - |f|..]
    ensures |f| < |name| ==> name[|name| - |f| - 1] == '.'
  {
    if |name| == 0 then ""
    else if name[|name| - 1] == '.' then ""
    else LastField(name[..|name| - 1]) + [name[|name| - 1]]
  }

  /** Does `name` match the glob `{file_id}.chunk.*`? */
  predicate MatchesSlotGlob(fileId: string, name: string)
  {
    |fileId + SlotInfix| <= |name| && name[..|fileId + SlotInfix|] == fileId + SlotInfix
  }

  /** The index a status query reads off a file name, if it reads one. */
  function SlotIndexOf(fileId: string, name: string): Option<int>
  {
    if MatchesSlotGlob(fileId, name) then ParseInt(LastField(name)) else None
  }

  /** A slot written by the upload route reads back as its own index. */
  lemma SlotNameReadsBack(fileId: string, i: nat)
    ensures SlotIndexOf(fileId, SlotName(fileId, i)) == Some(i)
  {
    var name := SlotName(fileId, i);
    var digits := NatToString(i);
    assert name[..|fileId + SlotInfix|] == fileId + SlotInfix;
    var f := LastField(name);
    assert name[|name| - |digits| - 1] == '.';
    LastFieldAfterDot(fileId + ".chunk", digits);
  }

  /** `int` strips whitespace, so a slot name whose last field is an index
      padded with spaces or tabs reads as that index too: a listed file
      `{file_id}.chunk. 3` is counted as slot 3. */
  lemma PaddedSlotReadsAsIndex(fileId: string, pre: string, digits: string, post: string)
    requires AllSpaces(pre) && AllSpaces(post) && |digits| > 0 && AllDigits(digits)
    ensures SlotIndexOf(fileId, fileId + SlotInfix + (pre + digits + post)) == Some(DigitsValue(digits))
  {
    PaddingHasNoDot(pre, digits, post);
    SlotFieldReads(fileId, pre + digits + post);
    ParseIntPadded(pre, digits, post);
  }

  /** Below the glob, a slot name reads as whatever `int` makes of its last field. */
  lemma SlotFieldReads(fileId: string, field: string)
    requires forall k :: 0 <= k < |field| ==> field[k] != '.'
    ensures SlotIndexOf(fileId, fileId + SlotInfix + field) == ParseInt(field)
  {
    var name := fileId + SlotInfix + field;
    assert name == fileId + ".chunk" + "." + field;
    assert name[..|fileId + SlotInfix|] == fileId + SlotInfix;
    LastFieldAfterDot(fileId + ".chunk", field);
  }

  lemma PaddingHasNoDot(pre: string, digits: string, post: string)
    requires AllSpaces(pre) && AllSpaces(post) && AllDigits(digits)
    ensures forall k :: 0 <= k < |pre + digits + post| ==> (pre + digits + post)[k] != '.'
  {
    var field := pre + digits + post;
    forall k | 0 <= k < |field| ensures field[k] != '.' {
      if k < |pre| { assert field[k] == pre[k]; }
      else if k < |pre| + |digits| { assert field[k] == digits[k - |pre|]; }
      else { assert field[k] == post[k - |pre| - |digits|]; }
    }
  }

  /** The last field of a name ending in a dot and a dot-free field is that field. */
  lemma {:induction false} LastFieldAfterDot(prefix: string, field: string)
    requires forall k :: 0 <= k < |field| ==> field[k] != '.'
    ensures LastField(prefix + "." + field) == field
    decreases |field|
  {
    var name := prefix + "." + field;
    if |field| > 0 {
      var init := field[..|field| - 1];
      assert name[..|name| - 1] == prefix + "." + init;
      assert name[|name| - 1] == field[|field| - 1];
      LastFieldAfterDot(prefix, init);
      assert init + [field[|field| - 1]] == field;
    } else {
      assert name[|name| - 1] == '.';
    }
  }

  /** The indices read off the listed files, in listing order; files whose
      last field is not an integer are skipped. */
  function ListedIndices(fileId: string, listing: seq<string>): seq<int>
  {
    if |listing| == 0 then []
    else
      var rest := ListedIndices(fileId, listing[1..]);
      var here := SlotIndexOf(fileId, listing[0]);
      if here.Some? then [here.value] + rest else rest
  }

  /** An index is reported exactly when some listed name reads as it. */
  lemma {:induction false} ListedIndicesMembers(fileId: string, listing: seq<string>, k: int)
    ensures k in ListedIndices(fileId, listing) <==>
      exists j :: 0 <= j < |listing| && SlotIndexOf(fileId, listing[j]) == Some(k)
  {
    if |listing| > 0 {
      var tail := listing[1..];
      ListedIndicesMembers(fileId, tail, k);
      if k in ListedIndices(fileId, listing) {
        if SlotIndexOf(fileId, listing[0]) != Some(k) {
          var j :| 0 <= j < |tail| && SlotIndexOf(fileId, tail[j]) == Some(k);
          assert listing[j + 1] == tail[j];
        }
      } else {
        forall j | 0 <= j < |listing| ensures SlotIndexOf(fileId, listing[j]) != Some(k) {
          if j > 0 { assert tail[j - 1] == listing[j]; }
        }
      }
    }
  }

  /** The status report: `uploaded_chunks` and `total_uploaded`. */
  datatype UploadStatus = UploadStatus(fileId: string, uploadedChunks: seq<int>, totalUploaded: nat)

  /** `get_upload_status`: `file_path` creates the temp directory (so the
      "directory missing" branch never runs), then every listed file that
      matches the glob and whose last field parses as an integer contributes
      that integer; the list is sorted and counted. */
  function GetUploadStatus(d: Disk, userId: string, fileId: string, listing: seq<string>): (r: (UploadStatus, Disk))
    requires IsListing(listing, EnsureDir(d, TempDir(userId))[TempDir(userId)])
    ensures r.1 == EnsureDir(d, TempDir(userId))
    ensures r.0.fileId == fileId
    ensures Sorted(r.0.uploadedChunks)
    ensures r.0.totalUploaded == |r.0.uploadedChunks|
    ensures multiset(r.0.uploadedChunks) == multiset(ListedIndices(fileId, listing))
    ensures forall k :: k in r.0.uploadedChunks <==>
      exists name :: name in r.1[TempDir(userId)] && SlotIndexOf(fileId, name) == Some(k)
  {
    var d1 := EnsureDir(d, TempDir(userId));
    var found := ListedIndices(fileId, listing);
    var sorted := Sort(found);
    ListingIndices(d1[TempDir(userId)], fileId, listing);
    SameMembers(sorted, found);
    (UploadStatus(fileId, sorted, |sorted|), d1)
  }

  lemma SameMembers(a: seq<int>, b: seq<int>)
    requires multiset(a) == multiset(b)
    ensures forall k :: k in a <==> k in b
  {
    forall k
      ensures k in a <==> k in b
    {
      assert k in a <==> k in multiset(a);
      assert k in b <==> k in multiset(b);
    }
  }

  /** Over a listing of `dir`, the indices read off the listed names are
      the indices read off the directory's files. */
  lemma ListingIndices(dir: Dir, fileId: string, listing: seq<string>)
    requires IsListing(listing, dir)
    ensures forall k :: k in ListedIndices(fileId, listing) <==>
      exists name :: name in dir && SlotIndexOf(fileId, name) == Some(k)
  {
    forall k
      ensures k in ListedIndices(fileId, listing) ==> exists name :: name in dir && SlotIndexOf(fileId, name) == Some(k)
      ensures (exists name :: name in dir && SlotIndexOf(fileId, name) == Some(k)) ==> k in ListedIndices(fileId, listing)
    {
      ListedIndicesMembers(fileId, listing, k);
      if k in ListedIndices(fileId, listing) {
        var j :| 0 <= j < |listing| && SlotIndexOf(fileId, listing[j]) == Some(k);
        assert listing[j] in listing;
      }
      if exists name :: name in dir && SlotIndexOf(fileId, name) == Some(k) {
        var name :| name in dir && SlotIndexOf(fileId, name) == Some(k);
        assert name in listing;
        var j :| 0 <= j < |listing| && listing[j] == name;
      }
    }
  }

  /** A chunk the upload route has just stored (and not yet merged) shows
      up in the status report. */
  lemma StoredChunkReported(d: Disk, records: seq<FileRecord>, userId: string, req: ChunkRequest,
                            newId: string, now: int, hash: Hasher, listing: seq<string>)
    requires 0 <= req.chunkIndex < req.totalChunks && req.totalSize <= MaxFileSizeBytes
    requires var s := UploadChunk(d, records, userId, req, newId, now, hash);
      !s.outcome.value.isComplete && IsListing(listing, EnsureDir(s.disk, TempDir(userId))[TempDir(userId)])
    ensures var s := UploadChunk(d, records, userId, req, newId, now, hash);
      req.chunkIndex in GetUploadStatus(s.disk, userId, req.fileId, listing).0.uploadedChunks
  {
    var s := UploadChunk(d, records, userId, req, newId, now, hash);
    var name := SlotName(req.fileId, req.chunkIndex);
    SlotNameReadsBack(req.fileId, req.chunkIndex);
    assert name in s.disk[TempDir(userId)];
  }
}
