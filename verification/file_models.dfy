/** The metadata record of a stored file and its blob operations
    (`FileDB` in app/file/models.py). A blob lives in directory `path` under
    the name `{md5}_{name}`. */
module FileModels {
  import opened Types
  import opened Disk

  /** One row of the file table. Times are abstract integers; ids are strings. */
  datatype FileRecord = FileRecord(
    id: string,
    name: string,
    md5: string,
    isPublic: bool,
    path: string,
    size: int,
    uploaderId: Option<string>,
    uploadTime: int)

  /** What a store operation leaves behind: its outcome (a value or the
      error it raised), the filesystem and the file table afterwards. */
  datatype Step<+T> = Step(outcome: Result<T>, disk: Disk, records: seq<FileRecord>)

  /** The content-addressed file name `{md5}_{name}`. */
  function BlobName(md5: string, name: string): string
  {
    md5 + "_" + name
  }

  /** `FileDB.get_path()`: the blob's directory and file name. */
  function GetPath(rec: FileRecord): (dirAndName: (string, string))
    ensures dirAndName.0 == rec.path
    ensures |dirAndName.1| == |rec.md5| + 1 + |rec.name|
    ensures dirAndName.1[..|rec.md5|] == rec.md5 && dirAndName.1[|rec.md5|] == '_'
    ensures dirAndName.1[|rec.md5| + 1..] == rec.name
  {
    (rec.path, BlobName(rec.md5, rec.name))
  }

  /** Two records with the same digest and the same name share one blob. */
  lemma SameKeySameBlob(a: FileRecord, b: FileRecord)
    requires a.path == b.path && a.md5 == b.md5 && a.name == b.name
    ensures GetPath(a) == GetPath(b)
  {
  }

  /** The blob name determines the name once the digest is known. */
  lemma BlobNameInjective(md5: string, n1: string, n2: string)
    requires BlobName(md5, n1) == BlobName(md5, n2)
    ensures n1 == n2
  {
    assert n1 == BlobName(md5, n1)[|md5| + 1..];
  }

  predicate BlobExists(d: Disk, rec: FileRecord)
  {
    FileExists(d, rec.path, BlobName(rec.md5, rec.name))
  }

  /** `FileDB.check_md5(res)`. */
  predicate CheckMd5(rec: FileRecord, res: seq<byte>, hash: Hasher)
  {
    hash(res) == rec.md5
  }

  /** `file.filename or "unknown_file"`: an absent or empty name is replaced. */
  function DefaultName(filename: Option<string>): (name: string)
    ensures filename.Some? && filename.value != "" ==> name == filename.value
    ensures filename.None? || filename.value == "" ==> name == "unknown_file"
    ensures name != ""
  {
    if filename.Some? && filename.value != "" then filename.value else "unknown_file"
  }

  /** `FileDB.write(res)`: creates the directory if needed and writes the
      blob, replacing any earlier bytes under the same name. */
  function Write(d: Disk, rec: FileRecord, res: seq<byte>, now: int): (d': Disk)
    ensures BlobExists(d', rec) && d'[rec.path][BlobName(rec.md5, rec.name)].content == res
    ensures SameExcept(d, d', rec.path, {BlobName(rec.md5, rec.name)})
  {
    WriteFile(EnsureDir(d, rec.path), rec.path, BlobName(rec.md5, rec.name), res, now)
  }

  /** `FileDB.read()`: the blob's bytes, or `FileNotFoundError` when absent. */
  function Read(d: Disk, rec: FileRecord): (r: Result<seq<byte>>)
    ensures r.Err? <==> !BlobExists(d, rec)
    ensures r.Err? ==> r.error == FileNotFound
    ensures r.Ok? ==> r.value == d[rec.path][BlobName(rec.md5, rec.name)].content
  {
    if BlobExists(d, rec) then Ok(d[rec.path][BlobName(rec.md5, rec.name)].content)
    else Err(FileNotFound)
  }

  /** `session.delete(rec)`: every row with `rec`'s id goes, the rest keep
      their order. */
  function RemoveRecord(records: seq<FileRecord>, id: string): (rs: seq<FileRecord>)
    ensures forall r :: r in rs <==> r in records && r.id != id
    ensures |rs| <= |records|
  {
    if |records| == 0 then []
    else if records[0].id == id then RemoveRecord(records[1..], id)
    else [records[0]] + RemoveRecord(records[1..], id)
  }

  /** `FileDB.delete(session)`: a missing directory is a silent no-op; an
      existing blob is unlinked and the record deleted; a missing blob in an
      existing directory raises `FileNotFoundError`. */
  function Delete(d: Disk, records: seq<FileRecord>, rec: FileRecord): (r: Result<(Disk, seq<FileRecord>)>)
    ensures rec.path !in d ==> r == Ok((d, records))
    ensures rec.path in d && !BlobExists(d, rec) ==> r == Err(FileNotFound)
    ensures BlobExists(d, rec) ==>
      && r.Ok?
      && !BlobExists(r.value.0, rec)
      && SameExcept(d, r.value.0, rec.path, {BlobName(rec.md5, rec.name)})
      && (forall x :: x in r.value.1 <==> x in records && x.id != rec.id)
  {
    if rec.path !in d then Ok((d, records))
    else if BlobExists(d, rec) then
      Ok((Unlink(d, rec.path, BlobName(rec.md5, rec.name)), RemoveRecord(records, rec.id)))
    else Err(FileNotFound)
  }

  /** `FileDB.from_upload_file`: digest and size of the whole content, the
      default name, no uploader unless one is given, private by default;
      the blob is written under `path`. */
  function FromUploadFile(d: Disk, filename: Option<string>, content: seq<byte>, uploader: Option<string>,
                          path: string, newId: string, now: int, hash: Hasher): (r: (FileRecord, Disk))
    ensures r.0.md5 == hash(content) && r.0.size == |content|
    ensures r.0.name == DefaultName(filename) && r.0.uploaderId == uploader
    ensures r.0.path == path && !r.0.isPublic
    ensures Read(r.1, r.0) == Ok(content)
  {
    var rec := FileRecord(newId, DefaultName(filename), hash(content), false, path, |content|, uploader, now);
    (rec, Write(d, rec, content, now))
  }

  /** Writing then reading gives back exactly the bytes written. */
  lemma WriteReadRoundTrip(d: Disk, rec: FileRecord, b: seq<byte>, now: int)
    ensures Read(Write(d, rec, b, now), rec) == Ok(b)
  {
  }

  /** A blob created by `from_upload_file` passes `check_md5` when read back. */
  lemma FromUploadPassesCheck(d: Disk, filename: Option<string>, content: seq<byte>, uploader: Option<string>,
                              path: string, newId: string, now: int, hash: Hasher)
    ensures var (rec, d') := FromUploadFile(d, filename, content, uploader, path, newId, now, hash);
      Read(d', rec).Ok? && CheckMd5(rec, Read(d', rec).value, hash)
  {
  }

  /** After a successful delete of an existing blob, reading it fails. */
  lemma DeleteThenReadFails(d: Disk, records: seq<FileRecord>, rec: FileRecord)
    requires BlobExists(d, rec)
    ensures Delete(d, records, rec).Ok?
    ensures Read(Delete(d, records, rec).value.0, rec) == Err(FileNotFound)
  {
  }
}
