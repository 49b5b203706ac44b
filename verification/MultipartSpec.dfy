/** Sets of part numbers. */
module PartNumbers {
  /** The part numbers from 1 to `hi` that are recorded in `m`, in ascending order. */
  function Listed<T>(m: map<int, T>, hi: nat): seq<int> {
    if hi == 0 then [] else Listed(m, hi - 1) + if hi in m then [hi] else []
  }

  lemma {:induction false} ListedExactly<T>(m: map<int, T>, hi: nat)
    ensures forall p :: p in Listed(m, hi) <==> 1 <= p <= hi && p in m
    ensures forall i, j :: 0 <= i < j < |Listed(m, hi)| ==> Listed(m, hi)[i] < Listed(m, hi)[j]
  {
    if hi > 0 {
      ListedExactly(m, hi - 1);
      var prev := Listed(m, hi - 1);
      assert forall i :: 0 <= i < |prev| ==> prev[i] in prev;
    }
  }

  /** The numbers from 1 to `hi` that are not recorded in `m`, in ascending order. */
  function Missing<T>(m: map<int, T>, hi: nat): seq<int> {
    if hi == 0 then [] else Missing(m, hi - 1) + if hi in m then [] else [hi]
  }

  lemma {:induction false} MissingExactly<T>(m: map<int, T>, hi: nat)
    ensures forall p :: p in Missing(m, hi) <==> 1 <= p <= hi && p !in m
    ensures forall i, j :: 0 <= i < j < |Missing(m, hi)| ==> Missing(m, hi)[i] < Missing(m, hi)[j]
  {
    if hi > 0 {
      MissingExactly(m, hi - 1);
      var prev := Missing(m, hi - 1);
      assert forall i :: 0 <= i < |prev| ==> prev[i] in prev;
    }
  }

  lemma {:induction false} MissingCount<T>(m: map<int, T>, hi: nat)
    ensures |Missing(m, hi)| + |Listed(m, hi)| == hi
  {
    if hi > 0 {
      MissingCount(m, hi - 1);
    }
  }

  /** When all recorded numbers lie in range, the list has as many elements as the table has rows. */
  lemma {:induction false} ListedCount<T>(m: map<int, T>, hi: nat)
    requires forall p :: p in m ==> 1 <= p <= hi
    ensures |Listed(m, hi)| == |m.Keys|
  {
    if hi == 0 {
      assert m.Keys == {};
    } else {
      var m' := m - {hi};
      assert m'.Keys == m.Keys - {hi};
      ListedCount(m', hi - 1);
      ListedSame(m, m', hi - 1);
      assert |m.Keys| == |m'.Keys| + if hi in m then 1 else 0;
    }
  }

  lemma {:induction false} ListedSame<T>(m: map<int, T>, m': map<int, T>, hi: nat)
    requires forall p :: 1 <= p <= hi ==> (p in m <==> p in m')
    ensures Listed(m, hi) == Listed(m', hi)
  {
    if hi > 0 {
      ListedSame(m, m', hi - 1);
    }
  }
}

/**
 The multipart upload protocol as a state machine over the two database tables, the sessions
 and part files of local storage, and the finished objects.
 */
module MultipartSpec {
  import opened Wrappers
  import opened PartNumbers

  type Byte = b: int | 0 <= b < 256
  type Bytes = seq<Byte>

  datatype Status = Uploading | Completed | Aborted

  datatype Params = Params(bucket: string, objectKey: string, fileName: string, fileSize: int, chunkSize: int)

  datatype Config = Config(defaultChunk: int, maxChunk: int, minChunk: int, maxParts: int) {
    /** No chunk size that can be chosen is zero or negative. */
    predicate Ok() { 1 <= maxChunk && 1 <= defaultChunk }
  }

  /** A row of multipart_uploads. */
  datatype Upload = Upload(fileName: string, fileSize: int, chunkSize: int, totalChunks: int,
                           bucket: string, objectKey: string, status: Status, updatedAt: int)

  /** `parts` is the table uploaded_parts: for each upload, the size recorded for each part number. */
  datatype State = State(uploads: map<string, Upload>, parts: map<string, map<int, int>>,
                         sessions: set<string>, files: map<string, map<int, Bytes>>,
                         objects: map<(string, string), Bytes>)

  const EMPTY := State(map[], map[], {}, map[], map[])

  function PartsOf(s: State, id: string): map<int, int> {
    if id in s.parts then s.parts[id] else map[]
  }

  function FilesOf(s: State, id: string): map<int, Bytes> {
    if id in s.files then s.files[id] else map[]
  }

  // ---------- Chunk arithmetic ----------

  function ClampedChunk(cfg: Config, size: int): int {
    if size < cfg.minChunk then cfg.minChunk else if size > cfg.maxChunk then cfg.maxChunk else size
  }

  function ChunkFor(cfg: Config, size: int): int {
    if size > 0 then ClampedChunk(cfg, size) else cfg.defaultChunk
  }

  /** A requested size within the bounds is used as asked, otherwise the bound it passes; without one, the default. */
  lemma ChunkChosen(cfg: Config, size: int)
    ensures size <= 0 ==> ChunkFor(cfg, size) == cfg.defaultChunk
    ensures size > 0 && cfg.minChunk <= size <= cfg.maxChunk ==> ChunkFor(cfg, size) == size
    ensures size > 0 && cfg.minChunk > size ==> ChunkFor(cfg, size) == cfg.minChunk
    ensures size > 0 && size >= cfg.minChunk && size > cfg.maxChunk ==> ChunkFor(cfg, size) == cfg.maxChunk
  {
  }

  function TotalChunks(fileSize: int, chunkSize: int): int
    requires fileSize >= 0 && chunkSize >= 1
  {
    fileSize / chunkSize + if fileSize % chunkSize > 0 then 1 else 0
  }

  /** First and last byte of a part, both inclusive. */
  function PartRange(u: Upload, part: int): (int, int) {
    var start := (part - 1) * u.chunkSize;
    var end := start + u.chunkSize - 1;
    (start, if end >= u.fileSize then u.fileSize - 1 else end)
  }

  /** The row describes a file cut into chunks of positive size. */
  ghost predicate Cut(u: Upload) {
    u.fileSize >= 1 && u.chunkSize >= 1 && u.totalChunks == TotalChunks(u.fileSize, u.chunkSize)
  }

  lemma ChunkCount(u: Upload)
    requires Cut(u)
    ensures u.totalChunks >= 1
    ensures (u.totalChunks - 1) * u.chunkSize < u.fileSize <= u.totalChunks * u.chunkSize
  {
    var q, r := u.fileSize / u.chunkSize, u.fileSize % u.chunkSize;
    assert u.fileSize == q * u.chunkSize + r;
    assert (q - 1) * u.chunkSize == q * u.chunkSize - u.chunkSize;
    assert (q + 1) * u.chunkSize == q * u.chunkSize + u.chunkSize;
    assert q <= 0 ==> q * u.chunkSize <= 0;
  }

  lemma MulMono(a: int, b: int, c: int)
    requires a <= b && c >= 0
    ensures a * c <= b * c
  {
    assert (b - a) * c >= 0;
  }

  /**
   Every part is a non-empty range of the file; the first starts at 0, each next one right behind, and all
   but the last have the full chunk size.
   */
  lemma RangesTile(u: Upload, part: int)
    requires Cut(u) && 1 <= part <= u.totalChunks
    ensures var (start, end) := PartRange(u, part);
      && 0 <= start <= end < u.fileSize
      && (part == 1 ==> start == 0)
      && (part < u.totalChunks ==> PartRange(u, part + 1).0 == end + 1 && end - start + 1 == u.chunkSize)
      && (part == u.totalChunks ==> end == u.fileSize - 1)
  {
    ChunkCount(u);
    var c := u.chunkSize;
    MulMono(0, part - 1, c);
    MulMono(part - 1, u.totalChunks - 1, c);
    assert part * c == (part - 1) * c + c;
    if part < u.totalChunks {
      MulMono(part, u.totalChunks - 1, c);
    }
  }

  /** The bytes of `file` that a client sends as the given part. */
  ghost function Slice(file: Bytes, u: Upload, part: int): Bytes
    requires Cut(u) && |file| == u.fileSize && 1 <= part <= u.totalChunks
  {
    RangesTile(u, part);
    file[PartRange(u, part).0..PartRange(u, part).1 + 1]
  }

  /** The part files joined in the given order; nothing if one of them is missing. */
  function Joined(files: map<int, Bytes>, parts: seq<int>): Option<Bytes> {
    if parts == [] then Some([])
    else
      var init, last := parts[..|parts| - 1], parts[|parts| - 1];
      match Joined(files, init)
      case None => None
      case Some(data) => if last in files then Some(data + files[last]) else None
  }

  // ---------- Operations ----------

  /** What a request is answered with: an error, or the number of parts or bytes concerned. */
  datatype Answer = Refused | Done(size: int)

  function Accepts(cfg: Config, p: Params): bool
    requires cfg.Ok()
  {
    && p.bucket != "" && p.objectKey != "" && p.fileSize > 0
    && TotalChunks(p.fileSize, ChunkFor(cfg, p.chunkSize)) <= cfg.maxParts
  }

  function NewUpload(cfg: Config, p: Params, now: int): Upload
    requires cfg.Ok() && p.fileSize > 0
  {
    var chunk := ChunkFor(cfg, p.chunkSize);
    Upload(p.fileName, p.fileSize, chunk, TotalChunks(p.fileSize, chunk), p.bucket, p.objectKey, Uploading, now)
  }

  function Init(cfg: Config, s: State, id: string, p: Params, now: int): (State, Answer)
    requires cfg.Ok()
  {
    if !Accepts(cfg, p) then (s, Refused)
    else
      var u := NewUpload(cfg, p, now);
      (s.(sessions := s.sessions + {id}, files := s.files[id := map[]], uploads := s.uploads[id := u]), Done(u.totalChunks))
  }

  function UploadPart(s: State, id: string, part: int, data: Bytes, now: int): (State, Answer) {
    if id !in s.uploads || s.uploads[id].status != Uploading then (s, Refused)
    else if part < 1 || part > s.uploads[id].totalChunks then (s, Refused)
    else if id !in s.sessions then (s, Refused)
    else
      (s.(files := s.files[id := FilesOf(s, id)[part := data]],
          parts := s.parts[id := PartsOf(s, id)[part := |data|]],
          uploads := s.uploads[id := s.uploads[id].(updatedAt := now)]), Done(|data|))
  }

  /** The recorded part numbers of an upload in ascending order, as the query returns them. */
  function RowsOf(s: State, id: string): seq<int>
    requires id in s.uploads
  {
    if s.uploads[id].totalChunks < 0 then [] else Listed(PartsOf(s, id), s.uploads[id].totalChunks)
  }

  /** Whether the count check of complete_multipart passes. */
  predicate CountOk(s: State, id: string) {
    id in s.uploads && s.uploads[id].status == Uploading && |PartsOf(s, id).Keys| == s.uploads[id].totalChunks
  }

  function Complete(s: State, id: string, now: int): (State, Answer) {
    if !CountOk(s, id) then (s, Refused)
    else if id !in s.sessions then (s, Refused)
    else
      match Joined(FilesOf(s, id), RowsOf(s, id))
      case None => (s, Refused)
      case Some(data) =>
        var u := s.uploads[id];
        (s.(objects := s.objects[(u.bucket, u.objectKey) := data],
            files := s.files - {id}, sessions := s.sessions - {id},
            uploads := s.uploads[id := u.(status := Completed, updatedAt := now)]), Done(|data|))
  }

  function Abort(s: State, id: string): (State, Answer) {
    if id !in s.uploads then (s, Refused)
    else
      var s1 := if id in s.sessions then s.(files := s.files - {id}, sessions := s.sessions - {id}) else s;
      (s1.(uploads := s1.uploads - {id}, parts := s1.parts - {id}), Done(0))
  }

  predicate Stale(s: State, id: string, maxAge: int, now: int) {
    id in s.uploads && s.uploads[id].status == Uploading && now - s.uploads[id].updatedAt > maxAge
  }

  /** The state after aborting every upload in `ids`. */
  ghost function AbortAll(s: State, ids: set<string>): State {
    s.(uploads := s.uploads - ids, parts := s.parts - ids,
       files := s.files - (ids * s.sessions), sessions := s.sessions - ids)
  }

  ghost function StaleIds(s: State, maxAge: int, now: int): set<string> {
    set id | id in s.uploads && Stale(s, id, maxAge, now)
  }

  // ---------- What each operation does, said on the state itself ----------

  /** An upload is accepted when it names its object, has bytes, and fits into the allowed number of chunks. */
  lemma InitExactly(cfg: Config, s: State, id: string, p: Params, now: int)
    requires cfg.Ok()
    ensures var (s', answer) := Init(cfg, s, id, p, now);
      var chunk := ChunkFor(cfg, p.chunkSize);
      && (answer.Done? <==> p.bucket != "" && p.objectKey != "" && p.fileSize > 0 && p.fileSize <= cfg.maxParts * chunk)
      && (answer.Refused? ==> s' == s)
      && (answer.Done? ==>
            && s'.uploads.Keys == s.uploads.Keys + {id} && s'.parts == s.parts && s'.objects == s.objects
            && s'.sessions == s.sessions + {id} && FilesOf(s', id) == map[]
            && (forall other :: other in s.uploads && other != id ==> s'.uploads[other] == s.uploads[other])
            && var u := s'.uploads[id];
            && u.fileName == p.fileName && u.fileSize == p.fileSize && u.chunkSize == chunk
            && u.bucket == p.bucket && u.objectKey == p.objectKey && u.status == Uploading && u.updatedAt == now
            && u.totalChunks == answer.size && (answer.size - 1) * chunk < p.fileSize <= answer.size * chunk)
  {
    if p.fileSize > 0 {
      var u := NewUpload(cfg, p, now);
      ChunkCount(u);
      if u.totalChunks <= cfg.maxParts {
        MulMono(u.totalChunks, cfg.maxParts, u.chunkSize);
      } else {
        MulMono(cfg.maxParts, u.totalChunks - 1, u.chunkSize);
      }
    }
  }

  /** A part is accepted while uploading and in range; it replaces what was recorded under its number. */
  lemma UploadExactly(s: State, id: string, part: int, data: Bytes, now: int)
    requires Coherent(s, id)
    ensures var (s', answer) := UploadPart(s, id, part, data, now);
      && (answer.Done? <==> id in s.uploads && s.uploads[id].status == Uploading && 1 <= part <= s.uploads[id].totalChunks)
      && (answer.Refused? ==> s' == s)
      && (answer.Done? ==>
            && answer.size == |data| && PartsOf(s', id) == PartsOf(s, id)[part := |data|]
            && FilesOf(s', id) == FilesOf(s, id)[part := data]
            && id in s'.uploads && s'.uploads[id] == s.uploads[id].(updatedAt := now) && s'.objects == s.objects)
  {
  }

  /** A known upload of any status can be aborted and leaves no trace but its finished object. */
  lemma AbortExactly(s: State, id: string)
    requires Coherent(s, id)
    ensures var (s', answer) := Abort(s, id);
      && (answer.Done? <==> id in s.uploads) && (answer.Refused? ==> s' == s) && s'.objects == s.objects
      && (answer.Done? ==> id !in s'.uploads && id !in s'.parts && id !in s'.sessions && id !in s'.files)
  {
  }

  /** A cleanup removes exactly the uploads in progress that were last touched longer ago than allowed. */
  lemma CleanupExactly(cfg: Config, s: State, maxAge: int, now: int)
    requires cfg.Ok()
    ensures var (s', answer) := Step(cfg, s, CleanupOp(maxAge, now));
      && (forall id :: id in s'.uploads <==>
            id in s.uploads && (s.uploads[id].status != Uploading || now - s.uploads[id].updatedAt <= maxAge))
      && (forall id :: id in s'.uploads ==> s'.uploads[id] == s.uploads[id])
      && answer == Done(|s.uploads.Keys - s'.uploads.Keys|) && s'.objects == s.objects
  {
    var s' := Step(cfg, s, CleanupOp(maxAge, now)).0;
    assert s.uploads.Keys - s'.uploads.Keys == StaleIds(s, maxAge, now);
  }

  // ---------- Runs ----------

  datatype Op =
    | InitOp(id: string, params: Params, now: int)
    | UploadOp(id: string, part: int, data: Bytes, now: int)
    | CompleteOp(id: string, now: int)
    | AbortOp(id: string)
    | CleanupOp(maxAge: int, now: int)

  ghost function Step(cfg: Config, s: State, op: Op): (State, Answer)
    requires cfg.Ok()
  {
    match op
    case InitOp(id, p, now) => Init(cfg, s, id, p, now)
    case UploadOp(id, part, data, now) => UploadPart(s, id, part, data, now)
    case CompleteOp(id, now) => Complete(s, id, now)
    case AbortOp(id) => Abort(s, id)
    case CleanupOp(maxAge, now) =>
      (AbortAll(s, StaleIds(s, maxAge, now)), Done(|StaleIds(s, maxAge, now)|))
  }

  ghost function Run(cfg: Config, ops: seq<Op>): State
    requires cfg.Ok()
  {
    if ops == [] then EMPTY else Step(cfg, Run(cfg, ops[..|ops| - 1]), ops[|ops| - 1]).0
  }

  ghost predicate Mentions(ops: seq<Op>, id: string) {
    exists i :: 0 <= i < |ops| && ops[i].InitOp? && ops[i].id == id
  }

  /** Upload ids are generated afresh. */
  ghost predicate FreshIds(ops: seq<Op>) {
    forall i, j :: 0 <= i < j < |ops| && ops[i].InitOp? && ops[j].InitOp? ==> ops[i].id != ops[j].id
  }

  // ---------- What every run keeps ----------

  /** Tables, sessions and files of one upload agree. */
  ghost predicate Coherent(s: State, id: string) {
    && (id !in s.uploads ==> id !in s.parts && id !in s.sessions && id !in s.files)
    && (id in s.uploads ==>
          && Cut(s.uploads[id]) && s.uploads[id].status != Aborted
          && (forall p :: p in PartsOf(s, id) ==> 1 <= p <= s.uploads[id].totalChunks)
          && (s.uploads[id].status == Uploading ==>
                id in s.sessions && id in s.files && PartsOf(s, id).Keys == s.files[id].Keys
                && forall p :: p in s.files[id] ==> PartsOf(s, id)[p] == |s.files[id][p]|)
          && (s.uploads[id].status == Completed ==> id !in s.sessions && id !in s.files))
  }

  ghost predicate AllCoherent(s: State) {
    forall id {:trigger Coherent(s, id)} :: Coherent(s, id)
  }

  lemma InitCoherent(cfg: Config, s: State, id: string, p: Params, now: int, other: string)
    requires cfg.Ok() && Coherent(s, other) && id !in s.uploads && id !in s.parts
    ensures Coherent(Init(cfg, s, id, p, now).0, other)
  {
    assert PartsOf(Init(cfg, s, id, p, now).0, other) == PartsOf(s, other);
  }

  lemma UploadCoherent(s: State, id: string, part: int, data: Bytes, now: int, other: string)
    requires Coherent(s, id) && Coherent(s, other)
    ensures Coherent(UploadPart(s, id, part, data, now).0, other)
  {
    var s' := UploadPart(s, id, part, data, now).0;
    assert other != id ==> PartsOf(s', other) == PartsOf(s, other);
    assert s' != s ==> PartsOf(s', id) == PartsOf(s, id)[part := |data|];
  }

  lemma CompleteCoherent(s: State, id: string, now: int, other: string)
    requires Coherent(s, id) && Coherent(s, other)
    ensures Coherent(Complete(s, id, now).0, other)
  {
    assert PartsOf(Complete(s, id, now).0, other) == PartsOf(s, other);
  }

  lemma AbortAllCoherent(s: State, ids: set<string>, other: string)
    requires Coherent(s, other)
    ensures Coherent(AbortAll(s, ids), other)
  {
    assert other !in ids ==> PartsOf(AbortAll(s, ids), other) == PartsOf(s, other);
  }

  /** Aborting one upload is the one-element case of aborting several. */
  lemma AbortIsAbortAll(s: State, id: string)
    requires id in s.uploads
    ensures Abort(s, id).0 == AbortAll(s, {id})
  {
    assert id in s.sessions ==> {id} * s.sessions == {id};
    assert id !in s.sessions ==> {id} * s.sessions == {} && s.sessions - {id} == s.sessions && s.files - {} == s.files;
  }

  lemma StepCoherent(cfg: Config, s: State, op: Op, other: string)
    requires cfg.Ok() && AllCoherent(s) && (op.InitOp? ==> op.id !in s.uploads)
    ensures Coherent(Step(cfg, s, op).0, other)
  {
    assert Coherent(s, other);
    match op
    case InitOp(id, p, now) => assert Coherent(s, id); InitCoherent(cfg, s, id, p, now, other);
    case UploadOp(id, part, data, now) => assert Coherent(s, id); UploadCoherent(s, id, part, data, now, other);
    case CompleteOp(id, now) => assert Coherent(s, id); CompleteCoherent(s, id, now, other);
    case AbortOp(id) =>
      if id in s.uploads {
        AbortIsAbortAll(s, id);
        AbortAllCoherent(s, {id}, other);
      }
    case CleanupOp(maxAge, now) => AbortAllCoherent(s, StaleIds(s, maxAge, now), other);
  }

  /** In every reachable state all uploads are coherent, and only initialised ids are known. */
  lemma {:induction false} RunCoherent(cfg: Config, ops: seq<Op>)
    requires cfg.Ok() && FreshIds(ops)
    ensures AllCoherent(Run(cfg, ops))
    ensures forall id :: id in Run(cfg, ops).uploads ==> Mentions(ops, id)
  {
    if ops == [] {
      forall id ensures Coherent(EMPTY, id) {
      }
    } else {
      var init, op := ops[..|ops| - 1], ops[|ops| - 1];
      var s := Run(cfg, init);
      RunCoherent(cfg, init);
      assert op.InitOp? ==> !Mentions(init, op.id) by {
        assert forall i :: 0 <= i < |init| ==> ops[i] == init[i];
      }
      forall id ensures Coherent(Run(cfg, ops), id) {
        StepCoherent(cfg, s, op, id);
      }
      forall id | id in Run(cfg, ops).uploads ensures Mentions(ops, id) {
        if id in s.uploads {
          var i :| 0 <= i < |init| && init[i].InitOp? && init[i].id == id;
          assert ops[i] == init[i];
        } else {
          assert ops[|ops| - 1].InitOp? && ops[|ops| - 1].id == id;
        }
      }
    }
  }

  // ---------- When an upload can be completed ----------

  /** The part numbers that get_upload_progress reports as pending. */
  function Pending(s: State, id: string): seq<int>
    requires id in s.uploads
  {
    if s.uploads[id].totalChunks < 0 then [] else Missing(PartsOf(s, id), s.uploads[id].totalChunks)
  }

  predicate CanComplete(s: State, id: string) {
    id in s.uploads && Pending(s, id) == [] && s.uploads[id].status == Uploading
  }

  lemma MissingNone(m: map<int, int>, n: nat)
    ensures Missing(m, n) == [] <==> forall p :: 1 <= p <= n ==> p in m
  {
    MissingExactly(m, n);
    if Missing(m, n) != [] {
      assert Missing(m, n)[0] in Missing(m, n);
    }
  }

  /** The bare count of recorded parts is right exactly when every number from 1 on is recorded. */
  lemma CountMeansAll(s: State, id: string)
    requires Coherent(s, id) && id in s.uploads && s.uploads[id].status == Uploading
    ensures CountOk(s, id) <==> forall p :: 1 <= p <= s.uploads[id].totalChunks ==> p in PartsOf(s, id)
    ensures CountOk(s, id) <==> Pending(s, id) == []
  {
    var m, n := PartsOf(s, id), s.uploads[id].totalChunks;
    ChunkCount(s.uploads[id]);
    ListedCount(m, n);
    MissingCount(m, n);
    MissingNone(m, n);
  }

  lemma {:induction false} JoinedExists(files: map<int, Bytes>, parts: seq<int>)
    requires forall i :: 0 <= i < |parts| ==> parts[i] in files
    ensures Joined(files, parts).Some?
  {
    if parts != [] {
      JoinedExists(files, parts[..|parts| - 1]);
    }
  }

  /** complete_multipart succeeds exactly when can_complete says so. */
  lemma CompleteIffCanComplete(s: State, id: string, now: int)
    requires Coherent(s, id)
    ensures Complete(s, id, now).1.Done? <==> CanComplete(s, id)
  {
    if id in s.uploads && s.uploads[id].status == Uploading {
      CountMeansAll(s, id);
      ChunkCount(s.uploads[id]);
      var rows := RowsOf(s, id);
      ListedExactly(PartsOf(s, id), s.uploads[id].totalChunks);
      assert forall i :: 0 <= i < |rows| ==> rows[i] in rows;
      JoinedExists(FilesOf(s, id), rows);
    }
  }

  // ---------- The length of the object ----------

  /** The recorded sizes of the given parts together. */
  function SizeSum(rows: map<int, int>, parts: seq<int>): int {
    if parts == [] then 0
    else
      var last := parts[|parts| - 1];
      SizeSum(rows, parts[..|parts| - 1]) + if last in rows then rows[last] else 0
  }

  lemma {:induction false} JoinedLength(files: map<int, Bytes>, rows: map<int, int>, parts: seq<int>)
    requires forall i :: 0 <= i < |parts| ==> parts[i] in files && parts[i] in rows && rows[parts[i]] == |files[parts[i]]|
    ensures Joined(files, parts).Some? && |Joined(files, parts).value| == SizeSum(rows, parts)
  {
    if parts != [] {
      JoinedLength(files, rows, parts[..|parts| - 1]);
    }
  }

  /**
   Completion does not compare lengths: the object is as long as the recorded parts together, so it has the
   declared length exactly when these add up to it.
   */
  lemma ObjectLength(s: State, id: string, now: int)
    requires Coherent(s, id) && Complete(s, id, now).1.Done?
    ensures var (s', answer) := Complete(s, id, now);
      var u, sum := s.uploads[id], SizeSum(PartsOf(s, id), RowsOf(s, id));
      && (u.bucket, u.objectKey) in s'.objects && |s'.objects[(u.bucket, u.objectKey)]| == answer.size == sum
      && (answer.size == u.fileSize <==> sum == u.fileSize)
  {
    ChunkCount(s.uploads[id]);
    var rows := RowsOf(s, id);
    ListedExactly(PartsOf(s, id), s.uploads[id].totalChunks);
    assert forall i :: 0 <= i < |rows| ==> rows[i] in rows;
    JoinedLength(FilesOf(s, id), PartsOf(s, id), rows);
  }

  /** An upload with a single part, recorded with its data, completes with them. */
  lemma SinglePart(s: State, id: string, data: Bytes, now: int)
    requires id in s.uploads && s.uploads[id].status == Uploading && s.uploads[id].totalChunks == 1
    requires id in s.sessions && PartsOf(s, id).Keys == {1} && PartsOf(s, id)[1] == |data|
    requires FilesOf(s, id).Keys == {1} && FilesOf(s, id)[1] == data
    ensures Complete(s, id, now).1 == Done(|data|)
  {
    hide Listed, Joined;
    ListedOne(PartsOf(s, id));
    JoinedOne(FilesOf(s, id));
    assert |PartsOf(s, id).Keys| == 1;
  }

  lemma ListedOne(m: map<int, int>)
    requires 1 in m
    ensures Listed(m, 1) == [1]
  {
    assert Listed(m, 0) == [];
  }

  lemma JoinedOne(files: map<int, Bytes>)
    requires 1 in files
    ensures Joined(files, [1]).Some? && Joined(files, [1]).value == files[1]
  {
    assert [1][..0] == [] && Joined(files, []) == Some([]);
    assert [] + files[1] == files[1];
  }

  /** An empty part is accepted for a file of one byte, and the finished object is empty. */
  lemma ShortObject()
    ensures var cfg := Config(1, 1, 1, 1);
      var s0 := Init(cfg, EMPTY, "u", Params("b", "k", "f", 1, 1), 0).0;
      var s1 := UploadPart(s0, "u", 1, [], 0).0;
      "u" in s1.uploads && s1.uploads["u"].fileSize == 1 && Complete(s1, "u", 0).1 == Done(0)
  {
    var cfg, p := Config(1, 1, 1, 1), Params("b", "k", "f", 1, 1);
    assert ChunkFor(cfg, p.chunkSize) == 1 && TotalChunks(1, 1) == 1;
    hide ChunkFor, TotalChunks, Complete;
    assert Accepts(cfg, p);
    var s0 := Init(cfg, EMPTY, "u", p, 0).0;
    assert s0.uploads["u"].totalChunks == 1 && s0.uploads["u"].status == Uploading && "u" in s0.sessions;
    var s1 := UploadPart(s0, "u", 1, [], 0).0;
    SinglePart(s1, "u", [], 0);
  }

  // ---------- Reassembly ----------

  function PrefixLength(u: Upload, n: int): int {
    if n == 0 then 0 else PartRange(u, n).1 + 1
  }

  /** Joining the slices of a file in ascending order rebuilds it, part by part. */
  lemma {:induction false} JoinedSlices(rows: map<int, int>, files: map<int, Bytes>, u: Upload, file: Bytes, n: nat)
    requires Cut(u) && |file| == u.fileSize && n <= u.totalChunks
    requires forall p :: 1 <= p <= n ==> p in rows && p in files && files[p] == Slice(file, u, p)
    ensures 0 <= PrefixLength(u, n) <= |file|
    ensures Joined(files, Listed(rows, n)) == Some(file[..PrefixLength(u, n)])
  {
    if n == 0 {
      assert Listed(rows, n) == [] && PrefixLength(u, n) == 0;
    } else {
      PrefixStep(u, file, n);
      hide PrefixLength, Slice, Cut;
      JoinedSlices(rows, files, u, file, n - 1);
      var parts := Listed(rows, n);
      assert parts[..|parts| - 1] == Listed(rows, n - 1) && parts[|parts| - 1] == n;
      hide Listed;
    }
  }

  /** What the first `n` parts cover, and what the last of them adds. */
  lemma PrefixStep(u: Upload, file: Bytes, n: nat)
    requires Cut(u) && |file| == u.fileSize && 1 <= n <= u.totalChunks
    ensures 0 <= PrefixLength(u, n - 1) <= PrefixLength(u, n) <= |file|
    ensures file[..PrefixLength(u, n)] == file[..PrefixLength(u, n - 1)] + Slice(file, u, n)
  {
    RangesTile(u, n);
    if n > 1 {
      RangesTile(u, n - 1);
    }
    hide PartRange, Cut;
  }

  /** As long as it exists, the upload is that of `file`, and its part files are slices of it. */
  ghost predicate Carries(s: State, id: string, u: Upload, file: Bytes)
    requires Cut(u) && |file| == u.fileSize
  {
    id in s.uploads ==>
      && s.uploads[id].(status := u.status, updatedAt := u.updatedAt) == u
      && (s.uploads[id].status == Uploading ==>
            forall p :: p in FilesOf(s, id) && 1 <= p <= u.totalChunks ==> FilesOf(s, id)[p] == Slice(file, u, p))
  }

  /** The operation does not start the upload anew and sends only slices of the file for it. */
  ghost predicate Honest(op: Op, id: string, u: Upload, file: Bytes)
    requires Cut(u) && |file| == u.fileSize
  {
    && !(op.InitOp? && op.id == id)
    && (op.UploadOp? && op.id == id && 1 <= op.part <= u.totalChunks ==> op.data == Slice(file, u, op.part))
  }

  /** The part files of an upload in progress change only by the part just sent. */
  lemma FilesStep(cfg: Config, s: State, op: Op, id: string)
    requires cfg.Ok() && !(op.InitOp? && op.id == id)
    requires var s' := Step(cfg, s, op).0; id in s'.uploads && s'.uploads[id].status == Uploading
    ensures id in s.uploads && s.uploads[id].status == Uploading
    ensures var sent := op.UploadOp? && op.id == id && Step(cfg, s, op).1.Done?;
      FilesOf(Step(cfg, s, op).0, id) == if sent then FilesOf(s, id)[op.part := op.data] else FilesOf(s, id)
  {
    var elsewhere := if op.CleanupOp? then !Stale(s, id, op.maxAge, op.now) else op.id != id;
    if elsewhere {
      hide Step;
      Isolation(cfg, s, op, id);
    } else {
      hide Joined;
    }
  }

  lemma StepCarries(cfg: Config, s: State, op: Op, id: string, u: Upload, file: Bytes)
    requires cfg.Ok() && Cut(u) && |file| == u.fileSize
    requires Carries(s, id, u, file) && Honest(op, id, u, file)
    ensures Carries(Step(cfg, s, op).0, id, u, file)
  {
    hide Slice, Joined;
    var s' := Step(cfg, s, op).0;
    if id in s'.uploads && s'.uploads[id].status == Uploading {
      FilesStep(cfg, s, op, id);
    }
  }

  /** The upload that an accepted initialisation records. */
  function Started(cfg: Config, op: Op): (u: Upload)
    requires cfg.Ok() && op.InitOp? && op.params.fileSize > 0
    ensures Cut(u) && u.fileSize == op.params.fileSize
  {
    NewUpload(cfg, op.params, op.now)
  }

  lemma {:induction false} RunCarries(cfg: Config, ops: seq<Op>, i: int, file: Bytes)
    requires cfg.Ok() && 0 <= i < |ops| && ops[i].InitOp? && Accepts(cfg, ops[i].params)
    requires |file| == ops[i].params.fileSize
    requires forall k :: i < k < |ops| ==> Honest(ops[k], ops[i].id, Started(cfg, ops[i]), file)
    ensures Carries(Run(cfg, ops), ops[i].id, Started(cfg, ops[i]), file)
  {
    var init, op := ops[..|ops| - 1], ops[|ops| - 1];
    if i < |init| {
      RunCarries(cfg, init, i, file);
      StepCarries(cfg, Run(cfg, init), op, ops[i].id, Started(cfg, ops[i]), file);
    }
  }

  /**
   Whatever else happens in between, in whatever order the parts arrive and however often they
   are sent again: a completion that succeeds writes exactly the file and reports its length.
   */
  lemma Reassembles(cfg: Config, ops: seq<Op>, i: int, file: Bytes, now: int)
    requires cfg.Ok() && FreshIds(ops) && 0 <= i < |ops| && ops[i].InitOp? && Accepts(cfg, ops[i].params)
    requires |file| == ops[i].params.fileSize
    requires forall k :: i < k < |ops| ==> Honest(ops[k], ops[i].id, Started(cfg, ops[i]), file)
    ensures var (s', answer) := Complete(Run(cfg, ops), ops[i].id, now);
      && (answer.Done? <==> CanComplete(Run(cfg, ops), ops[i].id))
      && (answer.Done? ==>
            && answer.size == |file|
            && s'.objects == Run(cfg, ops).objects[(ops[i].params.bucket, ops[i].params.objectKey) := file])
  {
    var s, id, u := Run(cfg, ops), ops[i].id, Started(cfg, ops[i]);
    RunCoherent(cfg, ops);
    RunCarries(cfg, ops, i, file);
    assert Coherent(s, id);
    CompleteIffCanComplete(s, id, now);
    if Complete(s, id, now).1.Done? {
      CountMeansAll(s, id);
      ChunkCount(u);
      JoinedSlices(PartsOf(s, id), FilesOf(s, id), u, file, u.totalChunks);
      RangesTile(u, u.totalChunks);
      assert file[..|file|] == file;
    }
  }

  /** The upload is in progress and all the parts in `sent` are recorded. */
  ghost predicate Receiving(s: State, id: string, total: int, sent: set<int>) {
    && id in s.uploads && s.uploads[id].status == Uploading && s.uploads[id].totalChunks == total
    && id in s.sessions && sent <= PartsOf(s, id).Keys
  }

  /** The operation neither restarts nor ends the upload `id`. */
  ghost predicate Spares(s: State, op: Op, id: string) {
    if op.CleanupOp? then !Stale(s, id, op.maxAge, op.now) else op.UploadOp? || op.id != id
  }

  /** The valid part numbers sent for `id` after operation `i`. */
  ghost function SentParts(ops: seq<Op>, i: int, id: string, total: int): set<int>
    requires 0 <= i
  {
    set k | i < k < |ops| && ops[k].UploadOp? && ops[k].id == id && 1 <= ops[k].part <= total :: ops[k].part
  }

  lemma SentPartsNext(ops: seq<Op>, i: int, id: string, total: int)
    requires 0 <= i < |ops| - 1
    ensures var op := ops[|ops| - 1]; var before := SentParts(ops[..|ops| - 1], i, id, total);
      SentParts(ops, i, id, total) ==
        if op.UploadOp? && op.id == id && 1 <= op.part <= total then before + {op.part} else before
  {
    var init, op := ops[..|ops| - 1], ops[|ops| - 1];
    assert forall k :: 0 <= k < |init| ==> init[k] == ops[k];
    var more := if op.UploadOp? && op.id == id && 1 <= op.part <= total then {op.part} else {};
    forall p ensures p in SentParts(ops, i, id, total) <==> p in SentParts(init, i, id, total) + more {
    }
  }

  lemma StepReceiving(cfg: Config, s: State, op: Op, id: string, total: int, sent: set<int>)
    requires cfg.Ok() && Receiving(s, id, total, sent) && Spares(s, op, id)
    ensures Receiving(Step(cfg, s, op).0, id, total,
                      if op.UploadOp? && op.id == id && 1 <= op.part <= total then sent + {op.part} else sent)
  {
    if op.UploadOp? && op.id == id {
      hide Joined;
    } else {
      hide Step;
      Isolation(cfg, s, op, id);
    }
  }

  lemma {:induction false} RunReceiving(cfg: Config, ops: seq<Op>, i: int)
    requires cfg.Ok() && FreshIds(ops) && 0 <= i < |ops| && ops[i].InitOp? && Accepts(cfg, ops[i].params)
    requires forall k :: i < k < |ops| ==> Spares(Run(cfg, ops[..k]), ops[k], ops[i].id)
    ensures var id, total := ops[i].id, Started(cfg, ops[i]).totalChunks;
      Receiving(Run(cfg, ops), id, total, SentParts(ops, i, id, total))
  {
    var init, op := ops[..|ops| - 1], ops[|ops| - 1];
    var id, total := ops[i].id, Started(cfg, ops[i]).totalChunks;
    if i < |init| {
      hide Step, Receiving, Spares, Accepts;
      forall k | i < k < |init| ensures Spares(Run(cfg, init[..k]), init[k], id) {
        assert init[..k] == ops[..k];
      }
      RunReceiving(cfg, init, i);
      StepReceiving(cfg, Run(cfg, init), op, id, total, SentParts(init, i, id, total));
      SentPartsNext(ops, i, id, total);
    }
  }

  /**
   An upload that is not restarted, completed, aborted or found stale meanwhile succeeds once every part
   number has been sent, in whatever order and however often: the file is written exactly.
   */
  lemma UploadSucceeds(cfg: Config, ops: seq<Op>, i: int, file: Bytes, now: int)
    requires cfg.Ok() && FreshIds(ops) && 0 <= i < |ops| && ops[i].InitOp? && Accepts(cfg, ops[i].params)
    requires |file| == ops[i].params.fileSize
    requires forall k :: i < k < |ops| ==> Honest(ops[k], ops[i].id, Started(cfg, ops[i]), file)
    requires forall k :: i < k < |ops| ==> Spares(Run(cfg, ops[..k]), ops[k], ops[i].id)
    requires var total := Started(cfg, ops[i]).totalChunks;
      forall p :: 1 <= p <= total ==> p in SentParts(ops, i, ops[i].id, total)
    ensures var (s', answer) := Complete(Run(cfg, ops), ops[i].id, now);
      && answer == Done(|file|)
      && s'.objects == Run(cfg, ops).objects[(ops[i].params.bucket, ops[i].params.objectKey) := file]
  {
    var s, id := Run(cfg, ops), ops[i].id;
    RunReceiving(cfg, ops, i);
    RunCoherent(cfg, ops);
    assert Coherent(s, id);
    CountMeansAll(s, id);
    Reassembles(cfg, ops, i, file, now);
  }

  // ---------- When an upload was last touched ----------

  /** The time at which the upload was started or the last part was accepted for it. */
  ghost function LastTouch(cfg: Config, ops: seq<Op>, id: string): Option<int>
    requires cfg.Ok()
  {
    if ops == [] then None
    else
      var init, op := ops[..|ops| - 1], ops[|ops| - 1];
      if (op.InitOp? || op.UploadOp?) && op.id == id && Step(cfg, Run(cfg, init), op).1.Done? then Some(op.now)
      else LastTouch(cfg, init, id)
  }

  lemma StepTouched(cfg: Config, s: State, op: Op, id: string)
    requires cfg.Ok()
    requires var s' := Step(cfg, s, op).0; id in s'.uploads && s'.uploads[id].status == Uploading
    ensures var (s', answer) := Step(cfg, s, op);
      if (op.InitOp? || op.UploadOp?) && op.id == id && answer.Done? then s'.uploads[id].updatedAt == op.now
      else id in s.uploads && s.uploads[id].status == Uploading && s'.uploads[id].updatedAt == s.uploads[id].updatedAt
  {
    hide Joined;
  }

  /** Over every run the modification time of an upload in progress is the time of its last touch. */
  lemma {:induction false} RunTouched(cfg: Config, ops: seq<Op>, id: string)
    requires cfg.Ok() && id in Run(cfg, ops).uploads && Run(cfg, ops).uploads[id].status == Uploading
    ensures LastTouch(cfg, ops, id) == Some(Run(cfg, ops).uploads[id].updatedAt)
  {
    hide Step;
    if ops != [] {
      var init, op := ops[..|ops| - 1], ops[|ops| - 1];
      var s := Run(cfg, init);
      StepTouched(cfg, s, op, id);
      if !((op.InitOp? || op.UploadOp?) && op.id == id && Step(cfg, s, op).1.Done?) {
        RunTouched(cfg, init, id);
      }
    }
  }

  /** So a cleanup spares an upload in progress if and only if it was touched recently enough. */
  lemma CleanupSparesActive(cfg: Config, ops: seq<Op>, id: string, maxAge: int, now: int)
    requires cfg.Ok() && id in Run(cfg, ops).uploads && Run(cfg, ops).uploads[id].status == Uploading
    ensures LastTouch(cfg, ops, id).Some?
    ensures id in Step(cfg, Run(cfg, ops), CleanupOp(maxAge, now)).0.uploads <==>
      now - LastTouch(cfg, ops, id).value <= maxAge
  {
    RunTouched(cfg, ops, id);
    CleanupExactly(cfg, Run(cfg, ops), maxAge, now);
  }

  // ---------- Safety over runs ----------

  /** The upload is finished or gone. */
  predicate Over(s: State, id: string) {
    id in s.uploads ==> s.uploads[id].status != Uploading
  }

  lemma {:induction false} OverStays(cfg: Config, ops: seq<Op>, k: int, id: string)
    requires cfg.Ok() && 0 <= k <= |ops| && Over(Run(cfg, ops[..k]), id)
    requires forall j :: k <= j < |ops| ==> !(ops[j].InitOp? && ops[j].id == id)
    ensures Over(Run(cfg, ops), id)
  {
    if k == |ops| {
      assert ops[..k] == ops;
    } else {
      var init := ops[..|ops| - 1];
      assert init[..k] == ops[..k];
      OverStays(cfg, init, k, id);
    }
  }

  /** An id that is known at some point of a run is not initialised later. */
  lemma NotStartedAgain(cfg: Config, ops: seq<Op>, k: int, id: string, j: int)
    requires cfg.Ok() && FreshIds(ops) && 0 <= k <= j < |ops| && id in Run(cfg, ops[..k]).uploads
    ensures !(ops[j].InitOp? && ops[j].id == id)
  {
    var before := ops[..k];
    assert forall i :: 0 <= i < k ==> before[i] == ops[i];
    RunCoherent(cfg, before);
    assert Mentions(before, id);
  }

  /** One upload id writes its final object at most once in a run. */
  lemma CompletesOnce(cfg: Config, ops: seq<Op>, k: int, id: string, now: int)
    requires cfg.Ok() && FreshIds(ops) && 0 <= k < |ops| && ops[k].CompleteOp? && ops[k].id == id
    requires Complete(Run(cfg, ops[..k]), id, ops[k].now).1.Done?
    ensures Complete(Run(cfg, ops), id, now).1.Refused?
  {
    assert ops[..k + 1][..k] == ops[..k];
    forall j | k + 1 <= j < |ops| ensures !(ops[j].InitOp? && ops[j].id == id) {
      NotStartedAgain(cfg, ops, k, id, j);
    }
    OverStays(cfg, ops, k + 1, id);
  }

  /** Row, parts, session and files of the upload `id` are the same in both states. */
  ghost predicate SameUpload(s: State, s': State, id: string) {
    && (id in s'.uploads <==> id in s.uploads)
    && (id in s.uploads ==> s'.uploads[id] == s.uploads[id])
    && PartsOf(s', id) == PartsOf(s, id)
    && (id in s'.sessions <==> id in s.sessions) && FilesOf(s', id) == FilesOf(s, id)
  }

  lemma AbortAllIsolation(s: State, ids: set<string>, other: string)
    requires other !in ids
    ensures SameUpload(s, AbortAll(s, ids), other)
  {
  }

  lemma InitIsolation(cfg: Config, s: State, id: string, p: Params, now: int, other: string)
    requires cfg.Ok() && id != other
    ensures SameUpload(s, Init(cfg, s, id, p, now).0, other)
  {
  }

  lemma UploadIsolation(s: State, id: string, part: int, data: Bytes, now: int, other: string)
    requires id != other
    ensures SameUpload(s, UploadPart(s, id, part, data, now).0, other)
  {
  }

  lemma CompleteIsolation(s: State, id: string, now: int, other: string)
    requires id != other
    ensures SameUpload(s, Complete(s, id, now).0, other)
  {
    var s' := Complete(s, id, now).0;
    if s' != s {
      assert s'.parts == s.parts && s'.files == s.files - {id} && s'.sessions == s.sessions - {id};
    }
  }

  /** An operation on one upload leaves every other upload as it was. */
  lemma Isolation(cfg: Config, s: State, op: Op, other: string)
    requires cfg.Ok()
    requires if op.CleanupOp? then !Stale(s, other, op.maxAge, op.now) else op.id != other
    ensures SameUpload(s, Step(cfg, s, op).0, other)
  {
    match op
    case InitOp(id, p, now) => InitIsolation(cfg, s, id, p, now, other);
    case UploadOp(id, part, data, now) => UploadIsolation(s, id, part, data, now, other);
    case CompleteOp(id, now) => CompleteIsolation(s, id, now, other);
    case AbortOp(id) =>
      if id in s.uploads {
        AbortIsAbortAll(s, id);
        AbortAllIsolation(s, {id}, other);
      }
    case CleanupOp(maxAge, now) => AbortAllIsolation(s, StaleIds(s, maxAge, now), other);
  }

  /** Recorded parts change only through an upload in progress, or disappear with the whole upload. */
  lemma PartsChangeOnlyWhileUploading(cfg: Config, s: State, op: Op, id: string)
    requires cfg.Ok() && Coherent(s, id)
    requires PartsOf(Step(cfg, s, op).0, id) != PartsOf(s, id)
    ensures id in s.uploads
    ensures (op.UploadOp? && op.id == id && s.uploads[id].status == Uploading) || id !in Step(cfg, s, op).0.uploads
  {
  }

  /** Only a completion touches the finished objects, and only its own. */
  lemma ObjectsAreSafe(cfg: Config, s: State, op: Op, key: (string, string))
    requires cfg.Ok()
    requires var objects' := Step(cfg, s, op).0.objects;
      key in s.objects ==> key !in objects' || objects'[key] != s.objects[key]
    requires key !in s.objects ==> key in Step(cfg, s, op).0.objects
    ensures op.CompleteOp? && op.id in s.uploads && key == (s.uploads[op.id].bucket, s.uploads[op.id].objectKey)
  {
  }
}
