/** The reconciliation routes of app/file/file.py: `delete_files_batch`
    with its shared-digest rule, `cleanup_orphaned_files` (records whose
    blob is gone, blobs no record names) and `cleanup_temp_files` (the
    age-based sweep of the temp directory). */
module Reconcile {
  import opened Types
  import opened Disk
  import opened FileSettings
  import opened FileModels
  import opened FileUtils
  import opened Users

  /** `(dir / n).unlink()` for each name of `names` in turn. */
  function UnlinkAll(d: Disk, dir: string, names: seq<string>): (d': Disk)
    requires dir in d && Distinct(names)
    requires forall n :: n in names ==> n in d[dir]
    ensures dir in d'
    ensures d'[dir] == d[dir] - (set n | n in names)
    ensures forall p :: p in d' <==> p in d
    ensures forall p :: p in d && p != dir ==> d'[p] == d[p]
  {
    if |names| == 0 then
      assert d[dir] - (set n | n in names) == d[dir];
      d
    else
      var d1 := Unlink(d, dir, names[0]);
      assert names[0] !in names[1..];
      var r := UnlinkAll(d1, dir, names[1..]);
      assert d1[dir] - (set n | n in names[1..]) == d[dir] - (set n | n in names);
      r
  }

  // delete_files_batch

  /** Why one id of a batch was not deleted. */
  datatype Failure = NoSuchFile | NotPermitted | BlobMissing

  /** The state after a batch: the filesystem, the table, the ids deleted
      and the ids that failed with their reasons, both in request order. */
  datatype Batch = Batch(disk: Disk, records: seq<FileRecord>, deleted: seq<string>,
                         failed: seq<(string, Failure)>)

  /** `session.get(FileDB, file_id)`: the row with that id. */
  function FindRecord(records: seq<FileRecord>, id: string): (r: Option<FileRecord>)
    ensures r.None? <==> forall x :: x in records ==> x.id != id
    ensures r.Some? ==> r.value in records && r.value.id == id
  {
    if |records| == 0 then None
    else if records[0].id == id then Some(records[0])
    else FindRecord(records[1..], id)
  }

  /** `len(select(FileDB).where(FileDB.md5 == md5).all())`. The query sees
      the rows deleted earlier in the same batch as gone, because the
      session flushes before it queries. */
  function CountMd5(records: seq<FileRecord>, md5: string): (n: nat)
    ensures n <= |records|
    ensures n == 0 <==> forall x :: x in records ==> x.md5 != md5
  {
    if |records| == 0 then 0
    else (if records[0].md5 == md5 then 1 else 0) + CountMd5(records[1..], md5)
  }

  /** Two different rows with the same digest are counted twice. */
  lemma {:induction false} TwoSharersCounted(records: seq<FileRecord>, a: FileRecord, b: FileRecord)
    requires a in records && b in records && a != b && a.md5 == b.md5
    ensures CountMd5(records, a.md5) >= 2
  {
    if records[0] == a {
      assert b in records[1..];
    } else if records[0] == b {
      assert a in records[1..];
    } else {
      assert a in records[1..] && b in records[1..];
      TwoSharersCounted(records[1..], a, b);
    }
  }

  /** May `user` delete `rec`? Its uploader, or any superuser. */
  predicate MayDelete(user: User, rec: FileRecord)
  {
    rec.uploaderId == Some(user.id) || user.isSuperuser
  }

  /** The body of one iteration once the row `rec` is in hand: check the
      permission, unlink the blob only when no other row has the same
      digest, and delete the row. A missing blob fails the id unless
      `force` is set. An error means nothing changed: 403 not permitted,
      `FileNotFound` no blob. */
  function DeleteFound(d: Disk, records: seq<FileRecord>, user: User, rec: FileRecord, force: bool)
    : (r: Result<(Disk, seq<FileRecord>)>)
    ensures r == Err(Http(403)) <==> !MayDelete(user, rec)
    ensures r.Err? && MayDelete(user, rec) ==>
      r == Err(FileNotFound) && CountMd5(records, rec.md5) <= 1 && !BlobExists(d, rec) && !force
    ensures r.Ok? ==>
      && MayDelete(user, rec)
      && (forall x :: x in r.value.1 <==> x in records && x.id != rec.id)
      && (CountMd5(records, rec.md5) <= 1 && BlobExists(d, rec) ==>
            r.value.0 == Unlink(d, rec.path, BlobName(rec.md5, rec.name)))
      && (CountMd5(records, rec.md5) > 1 || !BlobExists(d, rec) ==> r.value.0 == d)
    ensures MayDelete(user, rec) && CountMd5(records, rec.md5) <= 1 && !BlobExists(d, rec) ==>
      (r.Err? <==> !force)
  {
    if rec.uploaderId != Some(user.id) && !user.isSuperuser then Err(Http(403))
    else if CountMd5(records, rec.md5) <= 1 then
      if BlobExists(d, rec) then
        Ok((Unlink(d, rec.path, BlobName(rec.md5, rec.name)), RemoveRecord(records, rec.id)))
      else if !force then Err(FileNotFound)
      else Ok((d, RemoveRecord(records, rec.id)))
    else Ok((d, RemoveRecord(records, rec.id)))
  }

  /** One iteration of the batch loop: look the id up in the table as it
      stands after the earlier iterations, then act on the row found. An
      unknown id is a 404. */
  function DeleteOne(d: Disk, records: seq<FileRecord>, user: User, id: string, force: bool)
    : (r: Result<(Disk, seq<FileRecord>)>)
    ensures FindRecord(records, id).None? ==> r == Err(Http(404))
    ensures r.Ok? ==> FindRecord(records, id).Some?
    ensures r.Ok? ==>
      var rec := FindRecord(records, id).value;
      && MayDelete(user, rec)
      && (forall x :: x in r.value.1 <==> x in records && x.id != id)
      && (CountMd5(records, rec.md5) <= 1 && BlobExists(d, rec) ==>
            r.value.0 == Unlink(d, rec.path, BlobName(rec.md5, rec.name)))
      && (CountMd5(records, rec.md5) > 1 || !BlobExists(d, rec) ==> r.value.0 == d)
    ensures FindRecord(records, id).Some? ==>
      var rec := FindRecord(records, id).value;
      && (!MayDelete(user, rec) ==> r == Err(Http(403)))
      && (MayDelete(user, rec) && CountMd5(records, rec.md5) <= 1 && !BlobExists(d, rec) ==>
            (r.Err? <==> !force))
  {
    match FindRecord(records, id)
    case None => Err(Http(404))
    case Some(rec) => DeleteFound(d, records, user, rec, force)
  }

  /** The reason recorded for a failed id. */
  function FailureOf(e: Error): Failure
  {
    if e == Http(404) then NoSuchFile else if e == Http(403) then NotPermitted else BlobMissing
  }

  /** `d'` is `d` with some files removed and nothing added or changed. */
  ghost predicate OnlyRemoves(d: Disk, d': Disk)
  {
    && (forall p :: p in d' <==> p in d)
    && (forall p, n :: p in d' && n in d'[p] ==> n in d[p] && d'[p][n] == d[p][n])
  }

  /** The loop over `file_ids`, in order. */
  function DeleteLoop(d: Disk, records: seq<FileRecord>, user: User, ids: seq<string>, force: bool)
    : (b: Batch)
    ensures |b.deleted| + |b.failed| == |ids|
    ensures forall x :: x in b.records <==> x in records && x.id !in b.deleted
    ensures forall i :: i in b.deleted ==> i in ids
    ensures forall i :: i in b.failed ==> i.0 in ids
    ensures OnlyRemoves(d, b.disk)
    decreases |ids|
  {
    if |ids| == 0 then Batch(d, records, [], [])
    else
      match DeleteOne(d, records, user, ids[0], force)
      case Err(e) =>
        var rest := DeleteLoop(d, records, user, ids[1..], force);
        Batch(rest.disk, rest.records, rest.deleted, [(ids[0], FailureOf(e))] + rest.failed)
      case Ok((d1, records1)) =>
        var rest := DeleteLoop(d1, records1, user, ids[1..], force);
        Batch(rest.disk, rest.records, [ids[0]] + rest.deleted, rest.failed)
  }

  /** `delete_files_batch`: an empty id list is a 400; otherwise every id is
      either deleted or reported as failed, and exactly the rows of the
      deleted ids leave the table. */
  function DeleteFilesBatch(d: Disk, records: seq<FileRecord>, user: User, ids: seq<string>, force: bool)
    : (r: Result<Batch>)
    ensures |ids| == 0 <==> r == Err(Http(400))
    ensures r.Ok? ==> |r.value.deleted| + |r.value.failed| == |ids|
    ensures r.Ok? ==> forall x :: x in r.value.records <==> x in records && x.id !in r.value.deleted
    ensures r.Ok? ==> OnlyRemoves(d, r.value.disk)
  {
    if |ids| == 0 then Err(Http(400)) else Ok(DeleteLoop(d, records, user, ids, force))
  }

  /** What the route promises for each id of a batch: an unknown id is
      reported as not found, a forbidden one as not permitted, a permitted
      one is deleted unless its blob is missing and `force` is off; and an
      id is deleted only when its row exists and the user may delete it. */
  ghost predicate Reported(records: seq<FileRecord>, user: User, ids: seq<string>, force: bool, b: Batch)
  {
    && (forall i :: i in ids && FindRecord(records, i).None? ==> (i, NoSuchFile) in b.failed)
    && (forall i :: i in ids && FindRecord(records, i).Some? && !MayDelete(user, FindRecord(records, i).value) ==>
          (i, NotPermitted) in b.failed)
    && (forall i :: i in ids && FindRecord(records, i).Some? && MayDelete(user, FindRecord(records, i).value) ==>
          i in b.deleted || (!force && (i, BlobMissing) in b.failed))
    && (forall i :: i in b.deleted ==> FindRecord(records, i).Some? && MayDelete(user, FindRecord(records, i).value))
  }

  /** Removing the rows of one id leaves the lookup of every other id alone. */
  lemma {:induction false} FindAfterRemove(records: seq<FileRecord>, id: string, i: string)
    requires i != id
    ensures FindRecord(RemoveRecord(records, id), i) == FindRecord(records, i)
  {
    if |records| > 0 {
      FindAfterRemove(records[1..], id, i);
      if records[0].id != id {
        assert ([records[0]] + RemoveRecord(records[1..], id))[1..] == RemoveRecord(records[1..], id);
      }
    }
  }

  /** A successful iteration leaves the lookup of every other id alone. */
  lemma DeleteOneKeepsOtherLookups(d: Disk, records: seq<FileRecord>, user: User, id: string, force: bool, i: string)
    requires DeleteOne(d, records, user, id, force).Ok? && i != id
    ensures FindRecord(DeleteOne(d, records, user, id, force).value.1, i) == FindRecord(records, i)
  {
    assert DeleteOne(d, records, user, id, force).value.1 == RemoveRecord(records, id);
    FindAfterRemove(records, id, i);
  }

  /** With no repeated id, every id of the corrected loop ends as the
      route promises. */
  lemma {:induction false} LoopReports(d: Disk, records: seq<FileRecord>, user: User, ids: seq<string>, force: bool)
    requires Distinct(ids)
    ensures Reported(records, user, ids, force, DeleteLoop(d, records, user, ids, force))
    decreases |ids|
  {
    if |ids| > 0 {
      assert Distinct(ids[1..]) && ids[0] !in ids[1..];
      match DeleteOne(d, records, user, ids[0], force)
      case Err(e) =>
        LoopReports(d, records, user, ids[1..], force);
        FailedHeadReported(d, records, user, ids, force);
      case Ok((d1, records1)) =>
        LoopReports(d1, records1, user, ids[1..], force);
        DeletedHeadReported(d, records, user, ids, force);
    }
  }

  /** The step of `LoopReports` when the first id fails. */
  lemma FailedHeadReported(d: Disk, records: seq<FileRecord>, user: User, ids: seq<string>, force: bool)
    requires |ids| > 0 && DeleteOne(d, records, user, ids[0], force).Err?
    requires Reported(records, user, ids[1..], force, DeleteLoop(d, records, user, ids[1..], force))
    ensures Reported(records, user, ids, force, DeleteLoop(d, records, user, ids, force))
  {
    var e := DeleteOne(d, records, user, ids[0], force).error;
    var rest := DeleteLoop(d, records, user, ids[1..], force);
    HeadFailedClauses(records, user, ids, force, FailureOf(e), rest);
  }

  /** The step of `LoopReports` when the first id is deleted. */
  lemma DeletedHeadReported(d: Disk, records: seq<FileRecord>, user: User, ids: seq<string>, force: bool)
    requires |ids| > 0 && ids[0] !in ids[1..] && DeleteOne(d, records, user, ids[0], force).Ok?
    requires var (d1, records1) := DeleteOne(d, records, user, ids[0], force).value;
      Reported(records1, user, ids[1..], force, DeleteLoop(d1, records1, user, ids[1..], force))
    ensures Reported(records, user, ids, force, DeleteLoop(d, records, user, ids, force))
  {
    var (d1, records1) := DeleteOne(d, records, user, ids[0], force).value;
    var rest := DeleteLoop(d1, records1, user, ids[1..], force);
    forall i | i in ids[1..] ensures FindRecord(records1, i) == FindRecord(records, i) {
      DeleteOneKeepsOtherLookups(d, records, user, ids[0], force, i);
    }
    HeadDeletedClauses(records, records1, user, ids, force, rest);
  }

  /** Prepending a failed first id keeps the promise. */
  lemma HeadFailedClauses(records: seq<FileRecord>, user: User, ids: seq<string>, force: bool, f: Failure,
                          rest: Batch)
    requires |ids| > 0
    requires FindRecord(records, ids[0]).None? ==> f == NoSuchFile
    requires FindRecord(records, ids[0]).Some? && !MayDelete(user, FindRecord(records, ids[0]).value) ==>
      f == NotPermitted
    requires FindRecord(records, ids[0]).Some? && MayDelete(user, FindRecord(records, ids[0]).value) ==>
      !force && f == BlobMissing
    requires Reported(records, user, ids[1..], force, rest)
    ensures Reported(records, user, ids, force, Batch(rest.disk, rest.records, rest.deleted, [(ids[0], f)] + rest.failed))
  {
    forall i | i in ids ensures i == ids[0] || i in ids[1..] { }
  }

  /** Prepending a deleted first id keeps the promise, given that the
      deletion left the other ids' lookups alone. */
  lemma HeadDeletedClauses(records: seq<FileRecord>, records1: seq<FileRecord>, user: User, ids: seq<string>,
                           force: bool, rest: Batch)
    requires |ids| > 0 && ids[0] !in ids[1..]
    requires FindRecord(records, ids[0]).Some? && MayDelete(user, FindRecord(records, ids[0]).value)
    requires forall i :: i in ids[1..] ==> FindRecord(records1, i) == FindRecord(records, i)
    requires forall i :: i in rest.deleted ==> i in ids[1..]
    requires Reported(records1, user, ids[1..], force, rest)
    ensures Reported(records, user, ids, force, Batch(rest.disk, rest.records, [ids[0]] + rest.deleted, rest.failed))
  {
    forall i | i in ids ensures i == ids[0] || i in ids[1..] { }
  }

  /** The corrected route on distinct ids: every id ends as promised. */
  lemma BatchReports(d: Disk, records: seq<FileRecord>, user: User, ids: seq<string>, force: bool)
    requires Distinct(ids) && |ids| > 0
    ensures DeleteFilesBatch(d, records, user, ids, force).Ok?
    ensures Reported(records, user, ids, force, DeleteFilesBatch(d, records, user, ids, force).value)
  {
    LoopReports(d, records, user, ids, force);
  }

  /** Every digest in the table has the same length (an MD5 hex digest is
      32 characters), so a blob name determines its digest. */
  ghost predicate DigestsAligned(records: seq<FileRecord>)
  {
    forall a, b :: a in records && b in records ==> |a.md5| == |b.md5|
  }

  /** Equal blob names with digests of equal length have equal digests. */
  lemma BlobNameDigest(m1: string, n1: string, m2: string, n2: string)
    requires BlobName(m1, n1) == BlobName(m2, n2) && |m1| == |m2|
    ensures m1 == m2
  {
    assert m1 == BlobName(m1, n1)[..|m1|];
    assert m2 == BlobName(m2, n2)[..|m2|];
  }

  /** One iteration never takes away a blob that a row left in the table
      still names. */
  lemma DeleteOneKeepsLiveBlobs(d: Disk, records: seq<FileRecord>, user: User, id: string, force: bool)
    requires DigestsAligned(records)
    requires DeleteOne(d, records, user, id, force).Ok?
    ensures var (d', records') := DeleteOne(d, records, user, id, force).value;
      forall x :: x in records' && BlobExists(d, x) ==> BlobExists(d', x)
  {
    var rec := FindRecord(records, id).value;
    var (d', records') := DeleteOne(d, records, user, id, force).value;
    forall x | x in records' && BlobExists(d, x)
      ensures BlobExists(d', x)
    {
      if CountMd5(records, rec.md5) <= 1 && BlobExists(d, rec) && GetPath(x) == GetPath(rec) {
        BlobNameDigest(x.md5, x.name, rec.md5, rec.name);
        TwoSharersCounted(records, rec, x);
        assert false;
      }
    }
  }

  /** Garbage-collection safety of the whole batch: every row that
      survives still has its blob, if it had one before. */
  lemma {:induction false} BatchKeepsLiveBlobs(d: Disk, records: seq<FileRecord>, user: User,
                                              ids: seq<string>, force: bool)
    requires DigestsAligned(records)
    ensures var b := DeleteLoop(d, records, user, ids, force);
      forall x :: x in b.records && BlobExists(d, x) ==> BlobExists(b.disk, x)
    decreases |ids|
  {
    if |ids| > 0 {
      var one := DeleteOne(d, records, user, ids[0], force);
      if one.Ok? {
        var (d1, records1) := one.value;
        DeleteOneKeepsLiveBlobs(d, records, user, ids[0], force);
        assert DigestsAligned(records1);
        BatchKeepsLiveBlobs(d1, records1, user, ids[1..], force);
        var b := DeleteLoop(d, records, user, ids, force);
        var rest := DeleteLoop(d1, records1, user, ids[1..], force);
        assert b.records == rest.records && b.disk == rest.disk;
        forall x | x in b.records && BlobExists(d, x)
          ensures BlobExists(b.disk, x)
        {
          assert x in records1;
        }
      } else {
        BatchKeepsLiveBlobs(d, records, user, ids[1..], force);
      }
    }
  }

  /** The shared-digest rule counts rows, not blobs: when another row has
      the same digest, the row goes and its blob stays, even if that other
      row names a different blob (another user's directory or another
      name). Such a blob is left for the orphan scan. */
  lemma SharedDigestKeepsBlob(d: Disk, records: seq<FileRecord>, user: User, a: FileRecord, b: FileRecord)
    requires a in records && b in records && a != b && a.md5 == b.md5
    requires FindRecord(records, a.id) == Some(a) && MayDelete(user, a)
    ensures DeleteOne(d, records, user, a.id, false).Ok?
    ensures DeleteOne(d, records, user, a.id, false).value.0 == d
    ensures a !in DeleteOne(d, records, user, a.id, false).value.1
  {
    TwoSharersCounted(records, a, b);
  }

  // delete_files_batch as written, through the ORM session

  /** The request's ORM session as the batch loop sees it: the filesystem;
      the rows a query sees once pending changes are flushed; the row
      deleted since the last flush, which stays in the identity map until
      then; and the ids of the other rows in the identity map. */
  datatype OrmSession = OrmSession(disk: Disk, records: seq<FileRecord>, pending: Option<FileRecord>,
                                   loaded: set<string>)

  /** `session.get(FileDB, id)`: the identity map answers without touching
      the database, and answers with the pending-deleted row too; a miss
      queries, which first flushes the pending deletion. */
  function Get(s: OrmSession, id: string): (r: (Option<FileRecord>, OrmSession))
    ensures s.pending.Some? && s.pending.value.id == id ==> r == (s.pending, s)
    ensures !(s.pending.Some? && s.pending.value.id == id) ==> r.0 == FindRecord(s.records, id)
    ensures r.1.disk == s.disk && r.1.records == s.records
    ensures r.1.pending.Some? ==> r.1.pending == s.pending
  {
    if s.pending.Some? && s.pending.value.id == id then (s.pending, s)
    else if id in s.loaded then (FindRecord(s.records, id), s)
    else
      var found := FindRecord(s.records, id);
      (found, s.(pending := None, loaded := if found.Some? then s.loaded + {id} else s.loaded))
  }

  /** The ids of the rows with digest `md5`: what the digest query loads. */
  function SameDigestIds(records: seq<FileRecord>, md5: string): (ids: set<string>)
    ensures forall x :: x in records && x.md5 == md5 ==> x.id in ids
  {
    set x | x in records && x.md5 == md5 :: x.id
  }

  /** One iteration as the source runs it: `session.get`, the permission
      check, then the digest query, which flushes the pending deletion
      before it counts, then `DeleteFound` on what that query sees. The
      deleted row becomes the pending one. */
  function StepAsWritten(s: OrmSession, user: User, id: string, force: bool)
    : (r: (Option<Failure>, OrmSession))
    ensures r.0.None? ==> r.1.pending.Some? && r.1.pending.value.id == id
    ensures r.0.None? ==> forall x :: x in r.1.records <==> x in s.records && x.id != id
    ensures r.0.Some? ==> r.1.records == s.records && r.1.disk == s.disk
    ensures OnlyRemoves(s.disk, r.1.disk)
    ensures r.1.pending.Some? && r.0.Some? ==> r.1.pending == s.pending
  {
    var (found, s1) := Get(s, id);
    match found
    case None => (Some(NoSuchFile), s1)
    case Some(rec) =>
      if !MayDelete(user, rec) then (Some(NotPermitted), s1)
      else
        var s2 := s1.(pending := None, loaded := s1.loaded + SameDigestIds(s1.records, rec.md5));
        match DeleteFound(s2.disk, s2.records, user, rec, force)
        case Err(e) => (Some(FailureOf(e)), s2)
        case Ok((d', records')) =>
          (None, s2.(disk := d', records := records', pending := Some(rec), loaded := s2.loaded - {rec.id}))
  }

  /** The loop over `file_ids` as written: each iteration goes through the
      session, so a repeated id finds the row its earlier occurrence
      deleted. */
  function DeleteLoopAsWritten(s: OrmSession, user: User, ids: seq<string>, force: bool): (b: Batch)
    ensures |b.deleted| + |b.failed| == |ids|
    ensures forall x :: x in b.records <==> x in s.records && x.id !in b.deleted
    ensures forall i :: i in b.deleted ==> i in ids
    ensures forall i :: i in b.failed ==> i.0 in ids
    ensures OnlyRemoves(s.disk, b.disk)
    decreases |ids|
  {
    if |ids| == 0 then Batch(s.disk, s.records, [], [])
    else
      var (failure, s1) := StepAsWritten(s, user, ids[0], force);
      var rest := DeleteLoopAsWritten(s1, user, ids[1..], force);
      if failure.Some? then
        Batch(rest.disk, rest.records, rest.deleted, [(ids[0], failure.value)] + rest.failed)
      else
        Batch(rest.disk, rest.records, [ids[0]] + rest.deleted, rest.failed)
  }

  /** `delete_files_batch` as written, on a fresh session: an empty id list
      is a 400, otherwise the loop above. */
  function DeleteFilesBatchAsWritten(d: Disk, records: seq<FileRecord>, user: User, ids: seq<string>,
                                     force: bool): (r: Result<Batch>)
    ensures |ids| == 0 <==> r == Err(Http(400))
    ensures r.Ok? ==> |r.value.deleted| + |r.value.failed| == |ids|
    ensures r.Ok? ==> forall x :: x in r.value.records <==> x in records && x.id !in r.value.deleted
    ensures r.Ok? ==> OnlyRemoves(d, r.value.disk)
  {
    if |ids| == 0 then Err(Http(400))
    else Ok(DeleteLoopAsWritten(OrmSession(d, records, None, {}), user, ids, force))
  }

  /** Away from the pending row, one iteration as written does what the
      corrected iteration does, and its deleted row becomes the pending one. */
  lemma StepAgrees(s: OrmSession, user: User, id: string, force: bool)
    requires s.pending.None? || s.pending.value.id != id
    ensures var (failure, s1) := StepAsWritten(s, user, id, force);
      match DeleteOne(s.disk, s.records, user, id, force)
      case Err(e) => failure == Some(FailureOf(e)) && s1.disk == s.disk && s1.records == s.records
                     && (s1.pending.None? || s1.pending == s.pending)
      case Ok((d1, records1)) => failure.None? && s1.disk == d1 && s1.records == records1
                                 && s1.pending.Some? && s1.pending.value.id == id
  {
  }

  /** When no id repeats, the session makes no difference: the loop as
      written and the corrected loop agree on every input. */
  lemma {:induction false} DistinctIdsAgree(s: OrmSession, user: User, ids: seq<string>, force: bool)
    requires Distinct(ids)
    requires s.pending.None? || s.pending.value.id !in ids
    ensures DeleteLoopAsWritten(s, user, ids, force) == DeleteLoop(s.disk, s.records, user, ids, force)
    decreases |ids|
  {
    if |ids| > 0 {
      var s1 := StepAsWritten(s, user, ids[0], force).1;
      StepAgrees(s, user, ids[0], force);
      assert Distinct(ids[1..]) && ids[0] !in ids[1..];
      DistinctIdsAgree(s1, user, ids[1..], force);
    }
  }

  /** Corollary for the route: distinct ids give the corrected batch. */
  lemma DistinctBatchAgrees(d: Disk, records: seq<FileRecord>, user: User, ids: seq<string>, force: bool)
    requires Distinct(ids)
    ensures DeleteFilesBatchAsWritten(d, records, user, ids, force) == DeleteFilesBatch(d, records, user, ids, force)
  {
    if |ids| > 0 {
      DistinctIdsAgree(OrmSession(d, records, None, {}), user, ids, force);
    }
  }

  /** The route as written keeps the same per-id promise whenever no id
      repeats. */
  lemma BatchAsWrittenReports(d: Disk, records: seq<FileRecord>, user: User, ids: seq<string>, force: bool)
    requires Distinct(ids) && |ids| > 0
    ensures DeleteFilesBatchAsWritten(d, records, user, ids, force).Ok?
    ensures Reported(records, user, ids, force, DeleteFilesBatchAsWritten(d, records, user, ids, force).value)
  {
    DistinctBatchAgrees(d, records, user, ids, force);
    BatchReports(d, records, user, ids, force);
  }

  /** The repeated id, as written: `a` and `b` are two rows for one blob
      (same directory, name and digest). Deleting `[a, a]` deletes `a`
      twice; the second time the digest query has flushed `a` away, counts
      `b` alone and unlinks the blob `b` still names. The corrected loop
      reports the second `a` as unknown and keeps the blob. */
  lemma RepeatedIdUnlinksSharedBlob(d: Disk, a: FileRecord, b: FileRecord, user: User)
    requires a.id != b.id && a.md5 == b.md5 && a.path == b.path && a.name == b.name
    requires MayDelete(user, a) && BlobExists(d, a)
    ensures var out := DeleteFilesBatchAsWritten(d, [a, b], user, [a.id, a.id], false);
      && out.Ok?
      && out.value.deleted == [a.id, a.id] && out.value.failed == []
      && b in out.value.records
      && BlobExists(d, b) && !BlobExists(out.value.disk, b)
    ensures var fixed := DeleteFilesBatch(d, [a, b], user, [a.id, a.id], false);
      && fixed.Ok?
      && fixed.value.deleted == [a.id] && fixed.value.failed == [(a.id, NoSuchFile)]
      && b in fixed.value.records && BlobExists(fixed.value.disk, b)
  {
    SharedBlobAsWritten(d, a, b, user);
    SharedBlobCorrected(d, a, b, user);
  }

  lemma SharedBlobAsWritten(d: Disk, a: FileRecord, b: FileRecord, user: User)
    requires a.id != b.id && a.md5 == b.md5 && a.path == b.path && a.name == b.name
    requires MayDelete(user, a) && BlobExists(d, a)
    ensures DeleteLoopAsWritten(OrmSession(d, [a, b], None, {}), user, [a.id, a.id], false)
         == Batch(Unlink(d, a.path, BlobName(a.md5, a.name)), [b], [a.id, a.id], [])
  {
    var ids := [a.id, a.id];
    var s0 := OrmSession(d, [a, b], None, {});
    assert FindRecord([a, b], a.id) == Some(a);
    assert CountMd5([a, b], a.md5) == 2;
    assert RemoveRecord([a, b], a.id) == [b];
    var s1 := StepAsWritten(s0, user, a.id, false).1;
    assert StepAsWritten(s0, user, a.id, false).0 == None;
    assert s1.disk == d && s1.records == [b] && s1.pending == Some(a);
    SharedBlobSecondStep(d, a, b, user, s1);
    assert ids[1..] == [a.id];
  }

  lemma SharedBlobSecondStep(d: Disk, a: FileRecord, b: FileRecord, user: User, s1: OrmSession)
    requires a.id != b.id && a.md5 == b.md5 && a.path == b.path && a.name == b.name
    requires MayDelete(user, a) && BlobExists(d, a)
    requires s1.disk == d && s1.records == [b] && s1.pending == Some(a)
    ensures DeleteLoopAsWritten(s1, user, [a.id], false)
         == Batch(Unlink(d, a.path, BlobName(a.md5, a.name)), [b], [a.id], [])
  {
    assert CountMd5([b], a.md5) == 1;
    assert RemoveRecord([b], a.id) == [b];
    var s2 := StepAsWritten(s1, user, a.id, false).1;
    assert StepAsWritten(s1, user, a.id, false).0 == None;
    assert s2.disk == Unlink(d, a.path, BlobName(a.md5, a.name)) && s2.records == [b];
    assert [a.id][1..] == [];
  }

  lemma SharedBlobCorrected(d: Disk, a: FileRecord, b: FileRecord, user: User)
    requires a.id != b.id && a.md5 == b.md5 && a.path == b.path && a.name == b.name
    requires MayDelete(user, a) && BlobExists(d, a)
    ensures DeleteLoop(d, [a, b], user, [a.id, a.id], false) == Batch(d, [b], [a.id], [(a.id, NoSuchFile)])
  {
    var ids := [a.id, a.id];
    assert FindRecord([a, b], a.id) == Some(a);
    assert CountMd5([a, b], a.md5) == 2;
    assert RemoveRecord([a, b], a.id) == [b];
    assert DeleteOne(d, [a, b], user, a.id, false) == Ok((d, [b]));
    assert FindRecord([b], a.id) == None;
    assert ids[1..] == [a.id] && [a.id][1..] == [];
    assert DeleteLoop(d, [b], user, [a.id], false) == Batch(d, [b], [], [(a.id, NoSuchFile)]);
  }

  /** The same repetition when `a` is the only row with its digest: the
      first occurrence unlinks the blob, the second finds it gone and, without
      `force`, reports it missing, although `a` was deleted. The corrected
      loop reports the second `a` as unknown. */
  lemma RepeatedLoneIdReportedBlobMissing(d: Disk, a: FileRecord, user: User)
    requires MayDelete(user, a) && BlobExists(d, a)
    ensures var out := DeleteFilesBatchAsWritten(d, [a], user, [a.id, a.id], false);
      out.Ok? && out.value.deleted == [a.id] && out.value.failed == [(a.id, BlobMissing)]
    ensures var fixed := DeleteFilesBatch(d, [a], user, [a.id, a.id], false);
      fixed.Ok? && fixed.value.deleted == [a.id] && fixed.value.failed == [(a.id, NoSuchFile)]
  {
    LoneBlobAsWritten(d, a, user);
    LoneBlobCorrected(d, a, user);
  }

  lemma LoneBlobAsWritten(d: Disk, a: FileRecord, user: User)
    requires MayDelete(user, a) && BlobExists(d, a)
    ensures var out := DeleteLoopAsWritten(OrmSession(d, [a], None, {}), user, [a.id, a.id], false);
      out.deleted == [a.id] && out.failed == [(a.id, BlobMissing)]
  {
    var ids := [a.id, a.id];
    var s0 := OrmSession(d, [a], None, {});
    assert FindRecord([a], a.id) == Some(a);
    assert CountMd5([a], a.md5) == 1;
    assert RemoveRecord([a], a.id) == [];
    var s1 := StepAsWritten(s0, user, a.id, false).1;
    assert StepAsWritten(s0, user, a.id, false).0 == None;
    assert s1.records == [] && s1.pending == Some(a) && !BlobExists(s1.disk, a);
    assert CountMd5([], a.md5) == 0;
    assert StepAsWritten(s1, user, a.id, false).0 == Some(BlobMissing);
    assert ids[1..] == [a.id] && [a.id][1..] == [];
  }

  lemma LoneBlobCorrected(d: Disk, a: FileRecord, user: User)
    requires MayDelete(user, a) && BlobExists(d, a)
    ensures var fixed := DeleteLoop(d, [a], user, [a.id, a.id], false);
      fixed.deleted == [a.id] && fixed.failed == [(a.id, NoSuchFile)]
  {
    var ids := [a.id, a.id];
    assert FindRecord([a], a.id) == Some(a);
    assert CountMd5([a], a.md5) == 1;
    assert RemoveRecord([a], a.id) == [];
    assert DeleteOne(d, [a], user, a.id, false).Ok?;
    var d1 := DeleteOne(d, [a], user, a.id, false).value.0;
    assert DeleteOne(d, [a], user, a.id, false).value.1 == [];
    assert ids[1..] == [a.id] && [a.id][1..] == [];
    assert DeleteLoop(d1, [], user, [a.id], false).failed == [(a.id, NoSuchFile)];
  }

  // cleanup_orphaned_files and cleanup_temp_files

  /** The `path` argument both cleanup routes pass to `file_path`: none for a
      global run, the user's id otherwise. */
  function Scope(user: User, global: bool): Option<string>
  {
    if global then None else Some(user.id)
  }

  /** `file_path(parent, scope)`: the directory a cleanup run looks at and the
      filesystem after `file_path` has created it. */
  function Prepared(d: Disk, parent: StoragePath, user: User, global: bool): (r: (string, Disk))
    ensures r.0 in r.1 && SameExcept(d, r.1, r.0, {})
    ensures global ==> r.0 == PathValue(parent)
    ensures !global && user.id != "" ==> r.0 == Join(PathValue(parent), user.id)
  {
    StoragePathsAreMembers(parent);
    FilePath(d, PathValue(parent), Scope(user, global)).value
  }

  /** The rows a run of `cleanup_orphaned_files` considers: all of them in a
      global run, otherwise the user's own. */
  predicate InScope(user: User, global: bool, x: FileRecord)
  {
    global || x.uploaderId == Some(user.id)
  }

  /** `name.startswith('temp_')`. */
  predicate HasTempPrefix(name: string)
  {
    |name| >= 5 && name[..5] == "temp_"
  }

  /** `{f"{file.md5}_{file.name}" for file in user_files}`. */
  function ClaimedNames(records: seq<FileRecord>, user: User, global: bool): set<string>
  {
    set x | x in records && InScope(user, global, x) :: BlobName(x.md5, x.name)
  }

  /** What `cleanup_orphaned_files` answers, and the state it leaves. */
  datatype OrphanReport = OrphanReport(
    orphanedFiles: seq<string>,
    orphanedDb: seq<FileRecord>,
    cleanedCount: nat,
    disk: Disk,
    records: seq<FileRecord>)

  /** `cleanup_orphaned_files`: a global run needs a superuser (403). The
      rows in scope whose blob is missing are reported (and deleted unless
      `dryRun`); the files of the scanned directory that no row in scope
      names and that do not start with `temp_` are reported (and unlinked
      unless `dryRun`). `listing` is the `iterdir()` order. The
      "directory does not exist" answer cannot happen: `file_path` has
      just created it. */
  function CleanupOrphaned(d: Disk, records: seq<FileRecord>, user: User, dryRun: bool, global: bool,
                           listing: seq<string>): (r: Result<OrphanReport>)
    requires var (dir, d1) := Prepared(d, UserPath, user, global); IsListing(listing, d1[dir])
    ensures global && !user.isSuperuser <==> r == Err(Http(403))
    ensures r.Ok? ==>
      var (dir, d1) := Prepared(d, UserPath, user, global);
      var rep := r.value;
      && (forall n :: n in rep.orphanedFiles <==>
            n in d1[dir] && n !in ClaimedNames(records, user, global) && !HasTempPrefix(n))
      && Distinct(rep.orphanedFiles)
      && (forall x :: x in rep.orphanedDb <==> x in records && InScope(user, global, x) && !BlobExists(d1, x))
      && (dryRun ==> rep.disk == d1 && rep.records == records && rep.cleanedCount == 0)
      && (!dryRun ==>
            && (forall x :: x in rep.records <==> x in records && x !in rep.orphanedDb)
            && dir in rep.disk && rep.disk[dir] == d1[dir] - (set n | n in rep.orphanedFiles)
            && (forall p :: p in rep.disk <==> p in d1)
            && (forall p :: p in d1 && p != dir ==> rep.disk[p] == d1[p])
            && rep.cleanedCount == |rep.orphanedDb| + |rep.orphanedFiles|)
  {
    if global && !user.isSuperuser then Err(Http(403))
    else
      var (dir, d1) := Prepared(d, UserPath, user, global);
      var scoped := Filter(records, x => InScope(user, global, x));
      var dangling := Filter(scoped, x => !BlobExists(d1, x));
      var claimed := ClaimedNames(records, user, global);
      var orphans := Filter(listing, n => n !in claimed && !HasTempPrefix(n));
      FilterDistinct(listing, n => n !in claimed && !HasTempPrefix(n));
      if dryRun then Ok(OrphanReport(orphans, dangling, 0, d1, records))
      else
        var records' := Filter(records, x => x !in dangling);
        Ok(OrphanReport(orphans, dangling, |dangling| + |orphans|, UnlinkAll(d1, dir, orphans), records'))
  }

  /** After a real (not dry) run, the scanned directory holds only files
      that a remaining row in scope names, or `temp_` files, provided the
      rows in scope keep their blobs in that directory (as every upload
      to a user's directory does). */
  lemma OrphanCleanupLeavesNoOrphans(d: Disk, records: seq<FileRecord>, user: User, global: bool,
                                     listing: seq<string>)
    requires var (dir, d1) := Prepared(d, UserPath, user, global); IsListing(listing, d1[dir])
    requires !global || user.isSuperuser
    requires forall x :: x in records && InScope(user, global, x) ==> x.path == Prepared(d, UserPath, user, global).0
    ensures var (dir, d1) := Prepared(d, UserPath, user, global);
      var rep := CleanupOrphaned(d, records, user, false, global, listing).value;
      forall n :: n in rep.disk[dir] ==> n in ClaimedNames(rep.records, user, global) || HasTempPrefix(n)
  {
    var (dir, d1) := Prepared(d, UserPath, user, global);
    var rep := CleanupOrphaned(d, records, user, false, global, listing).value;
    NoOrphansLeft(d1, dir, records, user, global, rep);
  }

  /** The set reasoning behind `OrphanCleanupLeavesNoOrphans`, from what
      `CleanupOrphaned` promises about a real run. */
  lemma NoOrphansLeft(d1: Disk, dir: string, records: seq<FileRecord>, user: User, global: bool,
                      rep: OrphanReport)
    requires dir in d1 && dir in rep.disk
    requires forall n :: n in rep.orphanedFiles <==>
               n in d1[dir] && n !in ClaimedNames(records, user, global) && !HasTempPrefix(n)
    requires forall x :: x in rep.orphanedDb <==> x in records && InScope(user, global, x) && !BlobExists(d1, x)
    requires forall x :: x in rep.records <==> x in records && x !in rep.orphanedDb
    requires rep.disk[dir] == d1[dir] - (set n | n in rep.orphanedFiles)
    requires forall x :: x in records && InScope(user, global, x) ==> x.path == dir
    ensures forall n :: n in rep.disk[dir] ==> n in ClaimedNames(rep.records, user, global) || HasTempPrefix(n)
  {
    forall n | n in rep.disk[dir] && !HasTempPrefix(n)
      ensures n in ClaimedNames(rep.records, user, global)
    {
      assert n in d1[dir] && n !in rep.orphanedFiles;
      var x :| x in records && InScope(user, global, x) && BlobName(x.md5, x.name) == n;
      ClaimedSurvives(d1, records, rep.records, rep.orphanedDb, user, global, dir, x);
    }
  }

  lemma ClaimedSurvives(d1: Disk, records: seq<FileRecord>, records': seq<FileRecord>,
                        dangling: seq<FileRecord>, user: User, global: bool, dir: string, x: FileRecord)
    requires forall y :: y in dangling <==> y in records && InScope(user, global, y) && !BlobExists(d1, y)
    requires forall y :: y in records' <==> y in records && y !in dangling
    requires x in records && InScope(user, global, x) && dir in d1 && BlobName(x.md5, x.name) in d1[dir]
    requires x.path == dir
    ensures x in records' && BlobName(x.md5, x.name) in ClaimedNames(records', user, global)
  {
  }

  /** After a real run every remaining row in scope has its blob, and rows
      outside the scope keep theirs unless they live in the scanned
      directory. */
  lemma OrphanCleanupLeavesNoDanglingRows(d: Disk, records: seq<FileRecord>, user: User, global: bool,
                                          listing: seq<string>)
    requires var (dir, d1) := Prepared(d, UserPath, user, global); IsListing(listing, d1[dir])
    requires !global || user.isSuperuser
    ensures var (dir, d1) := Prepared(d, UserPath, user, global);
      var rep := CleanupOrphaned(d, records, user, false, global, listing).value;
      && (forall x :: x in rep.records && InScope(user, global, x) ==> BlobExists(rep.disk, x))
      && (forall x :: x in rep.records && !InScope(user, global, x) && x.path != dir ==>
            (BlobExists(rep.disk, x) <==> BlobExists(d1, x)))
  {
    var (dir, d1) := Prepared(d, UserPath, user, global);
    var rep := CleanupOrphaned(d, records, user, false, global, listing).value;
    forall x | x in rep.records && InScope(user, global, x)
      ensures BlobExists(rep.disk, x)
    {
      assert BlobExists(d1, x);
      if x.path == dir {
        assert BlobName(x.md5, x.name) in ClaimedNames(records, user, global);
      }
    }
  }

  /** The result of `cleanup_temp_files`: the files reported with their
      sizes, the count, and the filesystem afterwards. */
  datatype SweepReport = SweepReport(cleanedFiles: seq<(string, nat)>, cleanedCount: nat, disk: Disk)

  /** Is a file older than the limit? Strictly: `now - mtime > max_age`. */
  predicate Stale(e: Entry, now: int, maxAgeHours: int)
  {
    now - e.mtime > maxAgeHours * 3600
  }

  /** The listed files that are stale, each with its size, in listing order. */
  function StaleFiles(listing: seq<string>, dir: Dir, now: int, maxAgeHours: int): (r: seq<(string, nat)>)
    requires forall n :: n in listing ==> n in dir
    ensures forall n, z :: (n, z) in r ==> n in listing && Stale(dir[n], now, maxAgeHours) && z == |dir[n].content|
    ensures forall n :: n in listing && Stale(dir[n], now, maxAgeHours) ==> (n, |dir[n].content|) in r
    ensures |r| <= |listing|
  {
    if |listing| == 0 then []
    else
      var rest := StaleFiles(listing[1..], dir, now, maxAgeHours);
      var n := listing[0];
      if Stale(dir[n], now, maxAgeHours) then [(n, |dir[n].content|)] + rest else rest
  }

  /** The names of a report, in order. */
  function Names(files: seq<(string, nat)>): (r: seq<string>)
    ensures |r| == |files|
    ensures forall i :: 0 <= i < |files| ==> r[i] == files[i].0
  {
    if |files| == 0 then [] else [files[0].0] + Names(files[1..])
  }

  /** The names of `StaleFiles` are the stale names of the listing, in order. */
  lemma {:induction false} StaleNames(listing: seq<string>, dir: Dir, now: int, maxAgeHours: int)
    requires forall n :: n in listing ==> n in dir
    ensures Names(StaleFiles(listing, dir, now, maxAgeHours))
            == Filter(listing, n => n in dir && Stale(dir[n], now, maxAgeHours))
  {
    if |listing| > 0 {
      StaleNames(listing[1..], dir, now, maxAgeHours);
      var rest := StaleFiles(listing[1..], dir, now, maxAgeHours);
      if Stale(dir[listing[0]], now, maxAgeHours) {
        var r := [(listing[0], |dir[listing[0]].content|)] + rest;
        assert r[1..] == rest;
      }
    }
  }

  /** `cleanup_temp_files`: a global run needs a superuser (403); otherwise
      every file of the scanned temp directory whose age exceeds
      `max_age_hours` hours is reported, and unlinked unless `dryRun`. The
      count is the number reported, dry run or not. */
  function CleanupTemp(d: Disk, user: User, maxAgeHours: int, dryRun: bool, global: bool, now: int,
                       listing: seq<string>): (r: Result<SweepReport>)
    requires var (dir, d1) := Prepared(d, TempPath, user, global); IsListing(listing, d1[dir])
    ensures global && !user.isSuperuser <==> r == Err(Http(403))
    ensures r.Ok? ==>
      var (dir, d1) := Prepared(d, TempPath, user, global);
      var rep := r.value;
      && (forall n :: n in Names(rep.cleanedFiles) <==> n in d1[dir] && Stale(d1[dir][n], now, maxAgeHours))
      && (forall n, z :: (n, z) in rep.cleanedFiles ==> n in d1[dir] && z == |d1[dir][n].content|)
      && Distinct(Names(rep.cleanedFiles))
      && rep.cleanedCount == |rep.cleanedFiles|
      && (dryRun ==> rep.disk == d1)
      && (!dryRun ==>
            && dir in rep.disk
            && (forall n :: n in rep.disk[dir] <==> n in d1[dir] && !Stale(d1[dir][n], now, maxAgeHours))
            && (forall n :: n in rep.disk[dir] ==> rep.disk[dir][n] == d1[dir][n])
            && (forall p :: p in rep.disk <==> p in d1)
            && (forall p :: p in d1 && p != dir ==> rep.disk[p] == d1[p]))
  {
    if global && !user.isSuperuser then Err(Http(403))
    else
      var (dir, d1) := Prepared(d, TempPath, user, global);
      var stale := StaleFiles(listing, d1[dir], now, maxAgeHours);
      StaleNames(listing, d1[dir], now, maxAgeHours);
      FilterDistinct(listing, n => n in d1[dir] && Stale(d1[dir][n], now, maxAgeHours));
      var d2 := if dryRun then d1 else UnlinkAll(d1, dir, Names(stale));
      Ok(SweepReport(stale, |stale|, d2))
  }

  /** A sweep of a directory with nothing stale in it reports nothing and
      changes nothing. */
  lemma SweepOfFreshDir(d: Disk, user: User, maxAgeHours: int, global: bool, now: int, listing: seq<string>)
    requires var (dir, d1) := Prepared(d, TempPath, user, global); IsListing(listing, d1[dir])
    requires !global || user.isSuperuser
    requires var (dir, d1) := Prepared(d, TempPath, user, global);
      forall n :: n in d1[dir] ==> !Stale(d1[dir][n], now, maxAgeHours)
    ensures var rep := CleanupTemp(d, user, maxAgeHours, false, global, now, listing).value;
      rep.cleanedFiles == [] && rep.disk == Prepared(d, TempPath, user, global).1
  {
    var (dir, d1) := Prepared(d, TempPath, user, global);
  }

  /** The sweep is idempotent: a second real sweep at the same moment finds
      nothing and leaves the filesystem as it is. */
  lemma SweepIdempotent(d: Disk, user: User, maxAgeHours: int, global: bool, now: int,
                        listing: seq<string>, listing2: seq<string>)
    requires var (dir, d1) := Prepared(d, TempPath, user, global); IsListing(listing, d1[dir])
    requires !global || user.isSuperuser
    requires var d' := CleanupTemp(d, user, maxAgeHours, false, global, now, listing).value.disk;
      var (dir2, d2) := Prepared(d', TempPath, user, global); IsListing(listing2, d2[dir2])
    ensures var d' := CleanupTemp(d, user, maxAgeHours, false, global, now, listing).value.disk;
      var second := CleanupTemp(d', user, maxAgeHours, false, global, now, listing2).value;
      second.cleanedFiles == [] && second.disk == d'
  {
    var d' := CleanupTemp(d, user, maxAgeHours, false, global, now, listing).value.disk;
    var (dir, d1) := Prepared(d, TempPath, user, global);
    var (dir2, d2) := Prepared(d', TempPath, user, global);
    assert dir2 == dir && d2 == d';
    SweepOfFreshDir(d', user, maxAgeHours, global, now, listing2);
  }
}
