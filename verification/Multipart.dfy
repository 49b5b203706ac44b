/**
 Multipart uploads as the running program performs them: the chunk manager drives the
 database tables and local storage; each of its operations is one step of MultipartSpec.
 */
module Multipart {
  import opened Wrappers
  import opened PartNumbers
  import opened MultipartSpec

  class Database {
    var uploads: map<string, Upload>
    var parts: map<string, map<int, int>>

    constructor ()
      ensures uploads == map[] && parts == map[]
    {
      uploads, parts := map[], map[];
    }

    method UpdateStatus(id: string, status: Status, now: int)
      modifies this
      ensures parts == old(parts)
      ensures uploads == if id in old(uploads)
        then old(uploads)[id := old(uploads)[id].(status := status, updatedAt := now)] else old(uploads)
    {
      if id in uploads {
        uploads := uploads[id := uploads[id].(status := status, updatedAt := now)];
      }
    }

    method DeleteMultipartUpload(id: string)
      modifies this
      ensures parts == old(parts) - {id} && uploads == old(uploads) - {id}
    {
      parts := parts - {id};
      uploads := uploads - {id};
    }

    /** INSERT OR REPLACE of one part row, and the new modification time of its upload. */
    method RecordUploadedPart(id: string, part: int, size: int, now: int)
      modifies this
      ensures parts == old(parts)[id := (if id in old(parts) then old(parts)[id] else map[])[part := size]]
      ensures uploads == if id in old(uploads)
        then old(uploads)[id := old(uploads)[id].(updatedAt := now)] else old(uploads)
    {
      var rows := if id in parts then parts[id] else map[];
      parts := parts[id := rows[part := size]];
      if id in uploads {
        uploads := uploads[id := uploads[id].(updatedAt := now)];
      }
    }
  }

  class LocalStorage {
    var sessions: set<string>
    var files: map<string, map<int, Bytes>>
    var objects: map<(string, string), Bytes>

    constructor ()
      ensures sessions == {} && files == map[] && objects == map[]
    {
      sessions, files, objects := {}, map[], map[];
    }

    method InitMultipart(id: string)
      modifies this
      ensures sessions == old(sessions) + {id} && files == old(files)[id := map[]] && objects == old(objects)
    {
      files := files[id := map[]];
      sessions := sessions + {id};
    }

    method UploadPart(id: string, part: int, data: Bytes) returns (ok: bool)
      modifies this
      ensures ok == (id in old(sessions)) && sessions == old(sessions) && objects == old(objects)
      ensures files == if ok then old(files)[id := (if id in old(files) then old(files)[id] else map[])[part := data]]
                       else old(files)
    {
      if id !in sessions {
        return false;
      }
      var dir := if id in files then files[id] else map[];
      files := files[id := dir[part := data]];
      return true;
    }

    /** Joins the part files in the given order into the final object. */
    method CompleteMultipart(bucket: string, key: string, id: string, parts: seq<int>) returns (size: Option<int>)
      modifies this
      ensures var joined := Joined(if id in old(files) then old(files)[id] else map[], parts);
        if id !in old(sessions) || joined.None? then
          size == None && sessions == old(sessions) && files == old(files) && objects == old(objects)
        else
          && size == Some(|joined.value|) && objects == old(objects)[(bucket, key) := joined.value]
          && files == old(files) - {id} && sessions == old(sessions) - {id}
    {
      if id !in sessions {
        return None;
      }
      var dir := if id in files then files[id] else map[];
      var final: Bytes := [];
      for i := 0 to |parts|
        invariant Joined(dir, parts[..i]) == Some(final)
        invariant sessions == old(sessions) && files == old(files) && objects == old(objects)
      {
        assert parts[..i + 1][..i] == parts[..i];
        if parts[i] !in dir {
          JoinedNeedsAll(dir, parts, i);
          return None;
        }
        final := final + dir[parts[i]];
      }
      assert parts[..|parts|] == parts;
      objects := objects[(bucket, key) := final];
      files := files - {id};
      sessions := sessions - {id};
      return Some(|final|);
    }

    method AbortMultipart(id: string) returns (ok: bool)
      modifies this
      ensures ok == (id in old(sessions)) && objects == old(objects) && sessions == old(sessions) - {id}
      ensures files == if ok then old(files) - {id} else old(files)
    {
      if id !in sessions {
        return false;
      }
      files := files - {id};
      sessions := sessions - {id};
      return true;
    }
  }

  lemma {:induction false} JoinedNeedsAll(files: map<int, Bytes>, parts: seq<int>, i: int)
    requires 0 <= i < |parts| && parts[i] !in files
    ensures Joined(files, parts).None?
    decreases |parts|
  {
    if i < |parts| - 1 {
      JoinedNeedsAll(files, parts[..|parts| - 1], i);
    }
  }

  /** The numbers from 1 to `total` that are not in the table, in ascending order. */
  ghost predicate IsComplement(pending: seq<int>, table: map<int, int>, total: int) {
    && (forall p :: p in pending <==> 1 <= p <= total && p !in table)
    && forall i, j :: 0 <= i < j < |pending| ==> pending[i] < pending[j]
  }

  /** What get_upload_progress reports. */
  datatype Progress = Progress(uploadedChunks: int, uploadedBytes: int, pending: seq<int>, status: Status)

  /** The first loop of get_upload_progress: the bytes recorded, and the numbers seen. */
  method SumSizes(table: map<int, int>, rows: seq<int>) returns (bytes: int, seen: set<int>)
    requires forall i :: 0 <= i < |rows| ==> rows[i] in table
    ensures bytes == SizeSum(table, rows) && forall p :: p in seen <==> p in rows
  {
    bytes, seen := 0, {};
    for i := 0 to |rows|
      invariant bytes == SizeSum(table, rows[..i])
      invariant forall p :: p in seen <==> p in rows[..i]
    {
      SizeSumNext(table, rows, i);
      bytes := bytes + table[rows[i]];
      seen := seen + {rows[i]};
    }
    assert rows[..|rows|] == rows;
  }

  lemma SizeSumNext(table: map<int, int>, rows: seq<int>, i: nat)
    requires i < |rows| && rows[i] in table
    ensures SizeSum(table, rows[..i + 1]) == SizeSum(table, rows[..i]) + table[rows[i]]
    ensures forall p :: p in rows[..i + 1] <==> p in rows[..i] || p == rows[i]
  {
    assert rows[..i + 1][..i] == rows[..i];
  }

  /** Both loops: the bytes recorded, and the numbers not yet recorded. */
  method Tally(table: map<int, int>, rows: seq<int>, total: nat) returns (bytes: int, pending: seq<int>)
    requires rows == Listed(table, total)
    ensures bytes == SizeSum(table, rows) && pending == Missing(table, total)
  {
    ListedExactly(table, total);
    assert forall i :: 0 <= i < |rows| ==> rows[i] in rows;
    var seen;
    bytes, seen := SumSizes(table, rows);
    hide SizeSum, Listed;
    pending := [];
    for i := 1 to total + 1
      invariant pending == Missing(table, i - 1)
    {
      if i !in seen {
        pending := pending + [i];
      }
    }
  }

  class ChunkManager {
    const db: Database
    const storage: LocalStorage
    const config: Config

    constructor (config: Config)
      requires config.Ok()
      ensures Valid() && View() == EMPTY && fresh(db) && fresh(storage) && this.config == config
    {
      this.config := config;
      db := new Database();
      storage := new LocalStorage();
      new;
      forall id ensures Coherent(EMPTY, id) {
      }
    }

    ghost function View(): State
      reads db, storage
    {
      State(db.uploads, db.parts, storage.sessions, storage.files, storage.objects)
    }

    ghost predicate Valid()
      reads db, storage
    {
      config.Ok() && AllCoherent(View())
    }

    /** `id` is the identifier that storage generates; it has not been used before. */
    method InitMultipart(id: string, params: Params, now: int) returns (answer: Answer)
      requires Valid() && id !in db.uploads
      modifies db, storage
      ensures Valid() && (View(), answer) == Init(config, old(View()), id, params, now)
    {
      if params.bucket == "" || params.objectKey == "" || params.fileSize <= 0 {
        return Refused;
      }
      var chunk := if params.chunkSize > 0 then ClampedChunk(config, params.chunkSize) else config.defaultChunk;
      var total := TotalChunks(params.fileSize, chunk);
      if total > config.maxParts {
        return Refused;
      }
      ghost var before := View();
      storage.InitMultipart(id);
      db.uploads := db.uploads[id := Upload(params.fileName, params.fileSize, chunk, total,
                                            params.bucket, params.objectKey, Uploading, now)];
      assert View() == Init(config, before, id, params, now).0;
      forall other ensures Coherent(View(), other) {
        StepCoherent(config, before, InitOp(id, params, now), other);
      }
      return Done(total);
    }

    method UploadPart(id: string, part: int, data: Bytes, now: int) returns (answer: Answer)
      requires Valid()
      modifies db, storage
      ensures Valid() && (View(), answer) == MultipartSpec.UploadPart(old(View()), id, part, data, now)
    {
      if id !in db.uploads || db.uploads[id].status != Uploading {
        return Refused;
      }
      if part < 1 || part > db.uploads[id].totalChunks {
        return Refused;
      }
      ghost var before := View();
      var ok := storage.UploadPart(id, part, data);
      if !ok {
        return Refused;
      }
      db.RecordUploadedPart(id, part, |data|, now);
      assert View() == MultipartSpec.UploadPart(before, id, part, data, now).0;
      forall other ensures Coherent(View(), other) {
        StepCoherent(config, before, UploadOp(id, part, data, now), other);
      }
      return Done(|data|);
    }

    method CompleteMultipart(id: string, now: int) returns (answer: Answer)
      requires Valid()
      modifies db, storage
      ensures Valid() && (View(), answer) == Complete(old(View()), id, now)
    {
      if id !in db.uploads || db.uploads[id].status != Uploading {
        return Refused;
      }
      var upload := db.uploads[id];
      ghost var before := View();
      assert Coherent(before, id);
      ChunkCount(upload);
      ListedCount(PartsOf(before, id), upload.totalChunks);
      var rows := Listed(if id in db.parts then db.parts[id] else map[], upload.totalChunks);
      if |rows| != upload.totalChunks {
        return Refused;
      }
      var size := storage.CompleteMultipart(upload.bucket, upload.objectKey, id, rows);
      if size.None? {
        return Refused;
      }
      db.UpdateStatus(id, Completed, now);
      assert View() == Complete(before, id, now).0;
      forall other ensures Coherent(View(), other) {
        StepCoherent(config, before, CompleteOp(id, now), other);
      }
      return Done(size.value);
    }

    method AbortMultipart(id: string, now: int) returns (answer: Answer)
      requires Valid()
      modifies db, storage
      ensures Valid() && (View(), answer) == Abort(old(View()), id)
    {
      if id !in db.uploads {
        return Refused;
      }
      ghost var before := View();
      var _ := storage.AbortMultipart(id);
      db.UpdateStatus(id, Aborted, now);
      db.DeleteMultipartUpload(id);
      assert View() == Abort(before, id).0;
      forall other ensures Coherent(View(), other) {
        StepCoherent(config, before, AbortOp(id), other);
      }
      return Done(0);
    }

    method GetUploadProgress(id: string) returns (progress: Option<Progress>)
      requires Valid()
      ensures progress.None? <==> id !in db.uploads
      ensures progress.Some? ==>
        && progress.value.pending == Pending(View(), id)
        && IsComplement(progress.value.pending, PartsOf(View(), id), db.uploads[id].totalChunks)
        && progress.value.uploadedChunks == |PartsOf(View(), id).Keys|
        && progress.value.uploadedBytes == SizeSum(PartsOf(View(), id), RowsOf(View(), id))
        && progress.value.status == db.uploads[id].status
    {
      if id !in db.uploads {
        return None;
      }
      var upload := db.uploads[id];
      var table := if id in db.parts then db.parts[id] else map[];
      assert table == PartsOf(View(), id) && Coherent(View(), id);
      ChunkCount(upload);
      ListedCount(table, upload.totalChunks);
      var rows := Listed(table, upload.totalChunks);
      var bytes, pending := Tally(table, rows, upload.totalChunks);
      MissingExactly(table, upload.totalChunks);
      return Some(Progress(|rows|, bytes, pending, upload.status));
    }

    method CanComplete(id: string) returns (can: bool)
      requires Valid()
      ensures can == MultipartSpec.CanComplete(View(), id)
      ensures forall now :: can <==> Complete(View(), id, now).1.Done?
    {
      var progress := GetUploadProgress(id);
      can := progress.Some? && |progress.value.pending| == 0 && progress.value.status == Uploading;
      assert Coherent(View(), id);
      forall now ensures can <==> Complete(View(), id, now).1.Done? {
        CompleteIffCanComplete(View(), id, now);
      }
    }

    /** One turn of the cleanup loop, after the uploads in `done` have been aborted. */
    method AbortIfStale(id: string, maxAge: int, now: int, ghost before: State, ghost done: set<string>)
      returns (aborted: bool)
      requires Valid() && View() == AbortAll(before, done) && id !in done
      requires id in before.uploads && before.uploads[id].status == Uploading
      modifies db, storage
      ensures aborted == Stale(before, id, maxAge, now)
      ensures Valid() && View() == AbortAll(before, if aborted then done + {id} else done)
    {
      assert db.uploads[id] == before.uploads[id];
      aborted := now - db.uploads[id].updatedAt > maxAge;
      if aborted {
        AbortOneMore(before, done, id);
        var _ := AbortMultipart(id, now);
      }
    }

    method CleanupStaleUploads(maxAge: int, now: int) returns (cleaned: int)
      requires Valid()
      modifies db, storage
      ensures Valid() && (View(), Done(cleaned)) == Step(config, old(View()), CleanupOp(maxAge, now))
      ensures forall id :: id in db.uploads <==>
        id in old(db.uploads)
        && (old(db.uploads)[id].status != Uploading || now - old(db.uploads)[id].updatedAt <= maxAge)
      ensures cleaned == |old(db.uploads).Keys - db.uploads.Keys|
    {
      CleanupExactly(config, View(), maxAge, now);
      hide Step, Valid;
      cleaned := AbortStaleOnes(maxAge, now);
    }

    /** The loop over the pending uploads. */
    method AbortStaleOnes(maxAge: int, now: int) returns (cleaned: int)
      requires Valid()
      modifies db, storage
      ensures Valid() && (View(), Done(cleaned)) == Step(config, old(View()), CleanupOp(maxAge, now))
    {
      ghost var before := View();
      var todo := set id | id in db.uploads && db.uploads[id].status == Uploading;
      ghost var done: set<string> := {};
      cleaned := 0;
      AbortNone(before);
      while todo != {}
        invariant Valid() && View() == AbortAll(before, done) && cleaned == |done|
        invariant forall id :: id in done <==> Stale(before, id, maxAge, now) && id !in todo
        invariant forall id :: id in todo ==> id in before.uploads && before.uploads[id].status == Uploading
        decreases |todo|
      {
        var id :| id in todo;
        todo := todo - {id};
        var aborted := AbortIfStale(id, maxAge, now, before, done);
        if aborted {
          done := done + {id};
          cleaned := cleaned + 1;
        }
      }
      assert done == StaleIds(before, maxAge, now);
    }
  }

  lemma AbortNone(s: State)
    ensures AbortAll(s, {}) == s
  {
    assert s.files - ({} * s.sessions) == s.files;
  }

  lemma AbortOneMore(s: State, ids: set<string>, id: string)
    requires id in s.uploads && id !in ids
    ensures id in AbortAll(s, ids).uploads && Abort(AbortAll(s, ids), id).0 == AbortAll(s, ids + {id})
  {
    var t := AbortAll(s, ids);
    AbortIsAbortAll(t, id);
    assert t.uploads - {id} == s.uploads - (ids + {id});
    assert t.parts - {id} == s.parts - (ids + {id});
    assert t.sessions - {id} == s.sessions - (ids + {id});
    assert t.files - ({id} * t.sessions) == s.files - ((ids + {id}) * s.sessions);
  }
}
