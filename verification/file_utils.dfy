/** Storage paths and the upload pipelines of app/file/utils.py: the size
    cap, the incremental digest and the dedup-on-write point. */
module FileUtils {
  import opened Types
  import opened Disk
  import opened FileSettings
  import opened FileModels

  /** `file_path(parent_path, path)`: rejects a parent that is not a
      `FILE_PATH` value, appends `str(path)` only when `path` is truthy
      (present and non-empty), and creates the directory. */
  function FilePath(d: Disk, parent: string, sub: Option<string>): (r: Result<(string, Disk)>)
    ensures !IsStoragePath(parent) ==> r == Err(ValueError)
    ensures IsStoragePath(parent) ==> r.Ok?
    ensures r.Ok? && (sub.None? || sub.value == "") ==> r.value.0 == parent
    ensures r.Ok? && sub.Some? && sub.value != "" ==> r.value.0 == Join(parent, sub.value)
    ensures r.Ok? ==> r.value.0 in r.value.1 && SameExcept(d, r.value.1, r.value.0, {})
  {
    if !IsStoragePath(parent) then Err(ValueError)
    else
      var dir := if sub.Some? && sub.value != "" then Join(parent, sub.value) else parent;
      Ok((dir, EnsureDir(d, dir)))
  }

  /** `file_path(FILE_PATH.USER_PATH, user_id)`: a user's blob directory. */
  function UserDir(userId: string): string { Join(PathValue(UserPath), userId) }

  /** `file_path(FILE_PATH.TEMP_PATH, user_id)`: a user's chunk-slot directory. */
  function TempDir(userId: string): string { Join(PathValue(TempPath), userId) }

  lemma UserAndTempDirsDistinct(a: string, b: string)
    ensures UserDir(a) != TempDir(b)
  {
    assert UserDir(a)[8] != TempDir(b)[8];
  }

  /** The successive non-empty reads `await file.read(chunk_size)` returns
      before the empty read that signals the end of the upload. */
  predicate IsReadSequence(chunks: seq<seq<byte>>)
  {
    forall i :: 0 <= i < |chunks| ==> |chunks[i]| > 0
  }

  /** The streaming loop of the large-file uploads: after each read the
      running total is checked against the cap and the upload fails with 413
      the moment it is exceeded; otherwise the chunk is written to the temp
      file and fed to the digest. The result is the bytes written and
      digested, in order. */
  function Ingest(chunks: seq<seq<byte>>, total: nat): (r: Result<seq<byte>>)
    requires total <= MaxFileSizeBytes
    ensures r.Err? <==> total + |Flatten(chunks)| > MaxFileSizeBytes
    ensures r.Err? ==> r.error == Http(413)
    ensures r.Ok? ==> r.value == Flatten(chunks)
  {
    if |chunks| == 0 then Ok([])
    else
      var t := total + |chunks[0]|;
      if t > MaxFileSizeBytes then Err(Http(413))
      else
        match Ingest(chunks[1..], t)
        case Err(e) => Err(e)
        case Ok(rest) => Ok(chunks[0] + rest)
  }

  /** The first row of the table with digest `md5`
      (`select(FileDB).where(FileDB.md5 == md5).first()`). */
  function FirstWithMd5(records: seq<FileRecord>, md5: string): (r: Option<FileRecord>)
    ensures r.None? <==> forall x :: x in records ==> x.md5 != md5
    ensures r.Some? ==> exists i :: 0 <= i < |records| && records[i] == r.value && r.value.md5 == md5
                                    && (forall j :: 0 <= j < i ==> records[j].md5 != md5)
  {
    if |records| == 0 then None
    else if records[0].md5 == md5 then Some(records[0])
    else
      var r := FirstWithMd5(records[1..], md5);
      if r.Some? then
        var i :| 0 <= i < |records[1..]| && records[1..][i] == r.value && r.value.md5 == md5
          && forall j :: 0 <= j < i ==> records[1..][j].md5 != md5;
        assert records[i + 1] == r.value;
        r
      else r
  }

  /** `temp` names no file in `dir` yet: `NamedTemporaryFile` creates a new name. */
  predicate FreshName(d: Disk, dir: string, temp: string)
  {
    !FileExists(d, dir, temp)
  }

  /** `process_large_file_upload`: stream into a temp file in the user's
      directory under the size cap, then either return an existing record
      with the same digest (dropping the temp file) or rename the temp file
      to `{md5}_{filename or 'unknown_file'}` and add a new record. */
  function ProcessLargeFileUpload(d: Disk, records: seq<FileRecord>, chunks: seq<seq<byte>>,
                                  filename: Option<string>, userId: string, isPublic: bool,
                                  newId: string, temp: string, now: int, hash: Hasher): (s: Step<FileRecord>)
    requires IsReadSequence(chunks)
    requires FreshName(d, UserDir(userId), temp)
    ensures var data := Flatten(chunks);
      s.outcome.Err? <==> |data| > MaxFileSizeBytes
    ensures s.outcome.Err? ==>
      s.outcome.error == Http(413) && s.disk == EnsureDir(d, UserDir(userId)) && s.records == records
    ensures var data := Flatten(chunks);
      s.outcome.Ok? && FirstWithMd5(records, hash(data)).Some? ==>
        && s.outcome.value == FirstWithMd5(records, hash(data)).value
        && s.disk == EnsureDir(d, UserDir(userId))
        && s.records == records
    ensures var data := Flatten(chunks);
      s.outcome.Ok? && FirstWithMd5(records, hash(data)).None? ==>
        var rec := s.outcome.value;
        && rec.md5 == hash(data) && rec.size == |data|
        && rec.name == DefaultName(filename) && rec.path == UserDir(userId)
        && rec.uploaderId == Some(userId) && rec.isPublic == isPublic && rec.id == newId
        && Read(s.disk, rec) == Ok(data)
        && SameExcept(d, s.disk, UserDir(userId), {BlobName(rec.md5, rec.name)})
        && s.records == records + [rec]
  {
    var dir := UserDir(userId);
    var d1 := EnsureDir(d, dir);
    match Ingest(chunks, 0)
    case Err(e) => Step(Err(e), d1, records)
    case Ok(data) =>
      var md5 := hash(data);
      var existing := FirstWithMd5(records, md5);
      if existing.Some? then Step(Ok(existing.value), d1, records)
      else
        var name := DefaultName(filename);
        var d2 := WriteFile(d1, dir, temp, data, now);
        var d3 := Rename(d2, dir, temp, BlobName(md5, name));
        WriteThenRenameIsWrite(d1, dir, temp, BlobName(md5, name), data, now);
        SameExceptTrans(d, d1, d3, dir, {BlobName(md5, name)});
        var rec := FileRecord(newId, name, md5, isPublic, dir, |data|, Some(userId), now);
        Step(Ok(rec), d3, records + [rec])
  }

  /** Digest, size and final path reported by the raw upload helpers. */
  datatype RawInfo = RawInfo(md5: string, size: nat, path: string)

  /** `process_large_file_upload_raw`: the same streaming loop without
      dedup; the temp file is always renamed to its content-addressed name. */
  function ProcessLargeFileUploadRaw(d: Disk, chunks: seq<seq<byte>>, filename: Option<string>,
                                     userPath: string, temp: string, now: int, hash: Hasher): (r: (Result<RawInfo>, Disk))
    requires IsReadSequence(chunks)
    requires FreshName(d, userPath, temp)
    ensures r.0.Err? <==> |Flatten(chunks)| > MaxFileSizeBytes
    ensures r.0.Err? ==> r.0.error == Http(413) && r.1 == EnsureDir(d, userPath)
    ensures r.0.Ok? ==>
      var name := BlobName(hash(Flatten(chunks)), DefaultName(filename));
      && r.0.value == RawInfo(hash(Flatten(chunks)), |Flatten(chunks)|, Join(userPath, name))
      && FileExists(r.1, userPath, name) && r.1[userPath][name].content == Flatten(chunks)
  {
    var d1 := EnsureDir(d, userPath);
    match Ingest(chunks, 0)
    case Err(e) => (Err(e), d1)
    case Ok(data) =>
      var md5 := hash(data);
      var name := BlobName(md5, DefaultName(filename));
      var d2 := WriteFile(d1, userPath, temp, data, now);
      (Ok(RawInfo(md5, |data|, Join(userPath, name))), Rename(d2, userPath, temp, name))
  }

  /** `process_standard_file_upload_raw`: read the whole payload, check it
      against the cap, write it directly to its content-addressed name. */
  function ProcessStandardFileUploadRaw(d: Disk, content: seq<byte>, filename: Option<string>,
                                        userPath: string, now: int, hash: Hasher): (r: (Result<RawInfo>, Disk))
    ensures r.0.Err? <==> |content| > MaxFileSizeBytes
    ensures r.0.Err? ==> r.0.error == Http(413) && r.1 == EnsureDir(d, userPath)
    ensures r.0.Ok? ==>
      var name := BlobName(hash(content), DefaultName(filename));
      && r.0.value == RawInfo(hash(content), |content|, Join(userPath, name))
      && FileExists(r.1, userPath, name) && r.1[userPath][name].content == content
      && SameExcept(d, r.1, userPath, {name})
  {
    var d1 := EnsureDir(d, userPath);
    if |content| > MaxFileSizeBytes then (Err(Http(413)), d1)
    else
      var md5 := hash(content);
      var name := BlobName(md5, DefaultName(filename));
      (Ok(RawInfo(md5, |content|, Join(userPath, name))), WriteFile(d1, userPath, name, content, now))
  }

  /** Streaming changes nothing observable: the chunked upload and the
      single-shot upload of the same bytes report the same digest, size and
      path, and leave the same filesystem. */
  lemma StreamedUploadMatchesSingleShot(d: Disk, chunks: seq<seq<byte>>, filename: Option<string>,
                                        userPath: string, temp: string, now: int, hash: Hasher)
    requires IsReadSequence(chunks)
    requires FreshName(d, userPath, temp)
    ensures ProcessLargeFileUploadRaw(d, chunks, filename, userPath, temp, now, hash)
      == ProcessStandardFileUploadRaw(d, Flatten(chunks), filename, userPath, now, hash)
  {
    var data := Flatten(chunks);
    var d1 := EnsureDir(d, userPath);
    if |data| <= MaxFileSizeBytes {
      assert Ingest(chunks, 0) == Ok(data);
      var name := BlobName(hash(data), DefaultName(filename));
      WriteThenRenameIsWrite(d1, userPath, temp, name, data, now);
    } else {
      assert Ingest(chunks, 0).Err?;
    }
  }

  /** Dedup: uploading bytes whose digest is already recorded adds no
      record and no blob, and returns the recorded file. A second upload of
      the same bytes therefore leaves exactly the first blob. */
  lemma SecondUploadDeduplicated(d: Disk, records: seq<FileRecord>, chunks1: seq<seq<byte>>, chunks2: seq<seq<byte>>,
                                 name1: Option<string>, name2: Option<string>, userId: string, isPublic: bool,
                                 id1: string, id2: string, temp1: string, temp2: string, now: int, hash: Hasher)
    requires IsReadSequence(chunks1) && IsReadSequence(chunks2)
    requires Flatten(chunks1) == Flatten(chunks2)
    requires FreshName(d, UserDir(userId), temp1)
    requires forall x :: x in records ==> x.md5 != hash(Flatten(chunks1))
    requires |Flatten(chunks1)| <= MaxFileSizeBytes
    ensures var s1 := ProcessLargeFileUpload(d, records, chunks1, name1, userId, isPublic, id1, temp1, now, hash);
      FreshName(s1.disk, UserDir(userId), temp2) ==>
        var s2 := ProcessLargeFileUpload(s1.disk, s1.records, chunks2, name2, userId, isPublic, id2, temp2, now, hash);
        && s1.outcome.Ok? && s2.outcome == s1.outcome
        && s2.disk == s1.disk
        && s2.records == s1.records
  {
    var s1 := ProcessLargeFileUpload(d, records, chunks1, name1, userId, isPublic, id1, temp1, now, hash);
    var rec := s1.outcome.value;
    assert s1.records[|records|] == rec;
    assert FirstWithMd5(s1.records, hash(Flatten(chunks2))).Some?;
  }
}
