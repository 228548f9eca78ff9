/** Resumable uploads: a file of declared size arrives in chunks, in any order and any number of
    times, and is reassembled when all of them are there. */
module ChunkUpload {
  import opened Collections

  type Digest = string

  datatype Error = InvalidInput | Conflict | HashMismatch | Expired | Failure

  // Chunk geometry.

  function TotalChunks(size: int, chunkSize: int): int
    requires chunkSize >= 1
  {
    (size + chunkSize - 1) / chunkSize
  }

  /** The size of a chunk as the upload path computes it. */
  function ExpectedSize(size: int, chunkSize: int, total: int, index: int): int {
    if index == total - 1 then size - index * chunkSize else chunkSize
  }

  /** The same rule as the import of legacy uploads spells it. */
  function LegacyExpectedSize(size: int, chunkSize: int, total: int, index: int): int {
    if index == total - 1 then size - chunkSize * (total - 1) else chunkSize
  }

  lemma ChunkCount(size: int, chunkSize: int)
    requires size >= 1 && chunkSize >= 1
    ensures var n := TotalChunks(size, chunkSize); n >= 1 && (n - 1) * chunkSize < size <= n * chunkSize
  {
    var n := TotalChunks(size, chunkSize);
    var r := (size + chunkSize - 1) % chunkSize;
    assert size + chunkSize - 1 == n * chunkSize + r;
    assert (n - 1) * chunkSize == n * chunkSize - chunkSize;
    assert n <= 0 ==> n * chunkSize <= 0;
  }

  /** The bytes of the first `n` chunks. */
  function Covered(size: int, chunkSize: int, n: nat): int
    requires chunkSize >= 1
  {
    if n == 0 then 0
    else Covered(size, chunkSize, n - 1) + ExpectedSize(size, chunkSize, TotalChunks(size, chunkSize), n - 1)
  }

  lemma {:induction false} CoveredIsOffset(size: int, chunkSize: int, n: nat)
    requires size >= 1 && chunkSize >= 1 && n < TotalChunks(size, chunkSize)
    ensures Covered(size, chunkSize, n) == n * chunkSize
  {
    if n > 0 {
      CoveredIsOffset(size, chunkSize, n - 1);
      assert n * chunkSize == (n - 1) * chunkSize + chunkSize;
    }
  }

  /** Every chunk is nonempty and no larger than the chunk size, the chunks add up to the declared size,
      and both spellings of the rule agree. */
  lemma Geometry(size: int, chunkSize: int, index: int)
    requires size >= 1 && chunkSize >= 1 && 0 <= index < TotalChunks(size, chunkSize)
    ensures var n := TotalChunks(size, chunkSize);
      && 0 < ExpectedSize(size, chunkSize, n, index) <= chunkSize
      && LegacyExpectedSize(size, chunkSize, n, index) == ExpectedSize(size, chunkSize, n, index)
      && Covered(size, chunkSize, n) == size
  {
    var n := TotalChunks(size, chunkSize);
    ChunkCount(size, chunkSize);
    assert n * chunkSize == (n - 1) * chunkSize + chunkSize;
    CoveredIsOffset(size, chunkSize, n - 1);
  }

  /** The part of the original file that chunk `index` carries. */
  function Slice(file: Bytes, chunkSize: int, index: nat): Bytes
    requires |file| >= 1 && chunkSize >= 1 && index < TotalChunks(|file|, chunkSize)
  {
    CoveredIsOffset(|file|, chunkSize, index);
    Geometry(|file|, chunkSize, index);
    ChunkCount(|file|, chunkSize);
    EndInRange(|file|, chunkSize, index);
    var start := index * chunkSize;
    file[start..start + ExpectedSize(|file|, chunkSize, TotalChunks(|file|, chunkSize), index)]
  }

  lemma EndInRange(size: int, chunkSize: int, index: int)
    requires size >= 1 && chunkSize >= 1 && 0 <= index < TotalChunks(size, chunkSize)
    ensures 0 <= index * chunkSize
    ensures index * chunkSize + ExpectedSize(size, chunkSize, TotalChunks(size, chunkSize), index) <= size
  {
    var n := TotalChunks(size, chunkSize);
    ChunkCount(size, chunkSize);
    if index < n - 1 {
      assert (index + 1) * chunkSize == index * chunkSize + chunkSize;
      assert (index + 1) * chunkSize <= (n - 1) * chunkSize;
    }
  }

  // The upload.

  datatype Status = Initialized | Uploading | Failed | Completing | Completed | Lapsed

  /** A chunk row in the database. */
  datatype Row = Row(size: int, digest: Digest)

  /** An upload: its row, its chunk rows, the chunk files on disk, and the attachment once completed. */
  datatype Upload = Upload(size: int, chunkSize: int, expected: Option<Digest>, status: Status,
                           rows: map<int, Row>, files: map<int, Bytes>, attachment: Option<Bytes>)

  function Total(u: Upload): int
    requires u.chunkSize >= 1
  {
    TotalChunks(u.size, u.chunkSize)
  }

  /** An unfinished upload that is past its time is marked so by the first look at it. */
  function Looked(u: Upload, late: bool): Upload {
    if late && (u.status.Initialized? || u.status.Uploading? || u.status.Failed?) then u.(status := Lapsed) else u
  }

  predicate Accepting(s: Status) {
    s.Initialized? || s.Uploading? || s.Failed?
  }

  /** What one upload request carries; `dbFails` is a database error on recording it. */
  datatype Request = Request(index: int, claimed: Digest, source: Bytes, contentLength: int, late: bool, dbFails: bool)

  /** Recording a chunk: a row that is there must agree. */
  function Recorded(u: Upload, index: int, row: Row): Result<Upload, Error>
    requires u.chunkSize >= 1
  {
    if !Accepting(u.status) then Err(Conflict)
    else if index < 0 || index >= Total(u) then Err(InvalidInput)
    else if index in u.rows then
      if u.rows[index] != row then Err(Conflict) else Ok(if u.status.Failed? then u.(status := Uploading) else u)
    else Ok(u.(rows := u.rows[index := row], status := Uploading))
  }

  /** One chunk request: checked, published unless a file is there, and recorded. */
  function Stored(u: Upload, hash: Bytes -> Digest, q: Request): (Upload, Result<bool, Error>)
    requires u.chunkSize >= 1
  {
    var v := Looked(u, q.late);
    var want := ExpectedSize(v.size, v.chunkSize, Total(v), q.index);
    if q.index < 0 then (u, Err(InvalidInput))
    else if !Accepting(v.status) then (v, Err(if v.status.Lapsed? then Expired else Conflict))
    else if q.index >= Total(v) || q.contentLength != want then (v, Err(InvalidInput))
    else
      var data := if |q.source| <= want + 1 || want < 0 then q.source else q.source[..want + 1];
      if |data| != want || hash(data) != q.claimed then (v, Err(HashMismatch))
      else if q.index in v.files && (|v.files[q.index]| != want || hash(v.files[q.index]) != q.claimed)
      then (v, Err(Conflict))
      else
        var published := if q.index in v.files then v else v.(files := v.files[q.index := data]);
        var r := if q.dbFails then Err(Failure) else Recorded(published, q.index, Row(want, q.claimed));
        if r.Err? then (v, Err(r.error)) else (r.value, Ok(q.index in u.rows))
  }

  /** The chunk files in order, one after the other; nothing if one is missing. */
  function Assembled(files: map<int, Bytes>, n: nat): Option<Bytes> {
    if n == 0 then Some([])
    else if Assembled(files, n - 1).None? || n - 1 !in files then None
    else Some(Assembled(files, n - 1).value + files[n - 1])
  }

  /** Rows are dropped; the chunk files stay unless the content was wrong. */
  function Reset(u: Upload): Upload {
    u.(rows := map[], status := Initialized)
  }

  /** A completion request; `finishFails` is an error after the content was verified. */
  function Finished(u: Upload, hash: Bytes -> Digest, late: bool, finishFails: bool): (Upload, Result<Bytes, Error>)
    requires u.chunkSize >= 1
  {
    var v := Looked(u, late);
    if v.status.Completed? then (v, if v.attachment.Some? then Ok(v.attachment.value) else Err(Failure))
    else if v.status.Lapsed? then (v, Err(Expired))
    else if !v.status.Completing? && (!v.status.Uploading? || |v.rows| != Total(v)) then (v, Err(Conflict))
    else
      var w := v.(status := Completing);
      var n := if Total(w) < 0 then 0 else Total(w);
      var content := Assembled(w.files, n);
      if content.None? then (Reset(w), Err(Failure))
      else if |content.value| != w.size || (w.expected.Some? && hash(content.value) != w.expected.value)
      then (Reset(w).(files := map[]), Err(HashMismatch))
      else if finishFails then (Reset(w), Err(Failure))
      else (w.(status := Completed, files := map[], attachment := Some(content.value)), Ok(content.value))
  }

  // The same, step by step.

  class Session {
    const size: int
    const chunkSize: int
    const expected: Option<Digest>
    const hash: Bytes -> Digest
    var status: Status
    var rows: map<int, Row>
    var files: map<int, Bytes>
    var attachment: Option<Bytes>

    ghost function View(): Upload
      reads this
    {
      Upload(size, chunkSize, expected, status, rows, files, attachment)
    }

    constructor (size: int, chunkSize: int, expected: Option<Digest>, hash: Bytes -> Digest)
      requires size >= 1 && chunkSize >= 1
      ensures this.size == size && this.chunkSize == chunkSize && this.expected == expected && this.hash == hash
      ensures View() == Fresh(size, chunkSize, expected)
      // whatever file of the declared size is sent, nothing that is there disagrees with it
      ensures forall file: Bytes :: |file| == size ==> Matches(View(), hash, file)
    {
      this.size, this.chunkSize, this.expected, this.hash := size, chunkSize, expected, hash;
      status, rows, files, attachment := Initialized, map[], map[], None;
    }

    method Look(late: bool)
      modifies this`status
      ensures View() == old(View()).(status := status) && (status == old(status) || status.Lapsed?)
      ensures if late && Accepting(old(status)) then status.Lapsed? else status == old(status)
      ensures Sane(old(View()), hash) ==> Sane(View(), hash)
    {
      if late && Accepting(status) {
        status := Lapsed;
      }
    }

    method Record(index: int, row: Row) returns (r: Result<bool, Error>)
      requires chunkSize >= 1
      modifies this`status, this`rows
      ensures var want := Recorded(old(View()), index, row);
        if want.Ok? then r == Ok(index in old(rows)) && View() == want.value
        else r == Err(want.error) && View() == old(View())
    {
      if !Accepting(status) {
        return Err(Conflict);
      }
      if index < 0 || index >= TotalChunks(size, chunkSize) {
        return Err(InvalidInput);
      }
      if index in rows {
        if rows[index] != row {
          return Err(Conflict);
        }
        if status.Failed? {
          status := Uploading;
        }
        return Ok(true);
      }
      rows := rows[index := row];
      status := Uploading;
      r := Ok(false);
    }

    method StoreChunk(q: Request) returns (r: Result<bool, Error>)
      requires chunkSize >= 1
      modifies this
      ensures (View(), r) == Stored(old(View()), hash, q)
    {
      if q.index < 0 {
        return Err(InvalidInput);
      }
      Look(q.late);
      if !Accepting(status) {
        return Err(if status.Lapsed? then Expired else Conflict);
      }
      var total := TotalChunks(size, chunkSize);
      if q.index >= total {
        return Err(InvalidInput);
      }
      var want := chunkSize;
      if q.index == total - 1 {
        want := size - q.index * chunkSize;
      }
      if q.contentLength != want {
        return Err(InvalidInput);
      }
      var data := if |q.source| <= want + 1 || want < 0 then q.source else q.source[..want + 1];
      if |data| != want || hash(data) != q.claimed {
        return Err(HashMismatch);
      }
      var created := false;
      if q.index in files {
        if |files[q.index]| != want || hash(files[q.index]) != q.claimed {
          return Err(Conflict);
        }
      } else {
        files := files[q.index := data];
        created := true;
      }
      if q.dbFails {
        r := Err(Failure);
      } else {
        r := Record(q.index, Row(want, q.claimed));
      }
      if r.Err? && created {
        files := files - {q.index};
        assert files == old(files);
      }
    }

    /** Copies the chunk files, in order, into one. */
    method Assemble(n: nat) returns (content: Option<Bytes>)
      ensures content == Assembled(files, n)
    {
      var output: Bytes := [];
      for index := 0 to n
        invariant Assembled(files, index) == Some(output)
      {
        if index !in files {
          MissingIsFatal(files, index, n);
          return None;
        }
        output := output + files[index];
      }
      content := Some(output);
    }

    method Complete(late: bool, finishFails: bool) returns (r: Result<Bytes, Error>)
      requires chunkSize >= 1
      modifies this
      ensures (View(), r) == Finished(old(View()), hash, late, finishFails)
    {
      Look(late);
      if status.Completed? {
        return if attachment.Some? then Ok(attachment.value) else Err(Failure);
      }
      if status.Lapsed? {
        return Err(Expired);
      }
      var total := TotalChunks(size, chunkSize);
      if !status.Completing? {
        if !status.Uploading? || |rows| != total {
          return Err(Conflict);
        }
        status := Completing;
      }
      var content := Assemble(if total < 0 then 0 else total);
      if content.None? {
        rows, status := map[], Initialized;
        return Err(Failure);
      }
      if |content.value| != size || (expected.Some? && hash(content.value) != expected.value) {
        rows, status, files := map[], Initialized, map[];
        return Err(HashMismatch);
      }
      if finishFails {
        rows, status := map[], Initialized;
        return Err(Failure);
      }
      status, files, attachment := Completed, map[], content;
      r := Ok(content.value);
    }
  }

  lemma {:induction false} MissingIsFatal(files: map<int, Bytes>, index: nat, n: nat)
    requires index !in files && index < n
    ensures Assembled(files, n).None?
    decreases n
  {
    if index < n - 1 {
      MissingIsFatal(files, index, n - 1);
    }
  }

  function Fresh(size: int, chunkSize: int, expected: Option<Digest>): Upload {
    Upload(size, chunkSize, expected, Initialized, map[], map[], None)
  }

  // Whole runs.

  /** What can happen to an upload. A process may die after publishing a chunk file and before recording it, after a
      completion has begun, or after the database has finished or reset the upload and before all chunk files are
      removed: `left` are then those still there. */
  datatype Event =
    | Chunk(request: Request)
    | ChunkCut(request: Request)
    | Completion(late: bool, finishFails: bool)
    | CompletionCut(late: bool)
    | RemovalCut(late: bool, finishFails: bool, left: set<int>)

  /** A completion removes the chunk files when it succeeds and when the content was wrong. */
  predicate Removes(u: Upload, hash: Bytes -> Digest, late: bool, finishFails: bool)
    requires u.chunkSize >= 1
  {
    var r := Finished(u, hash, late, finishFails).1;
    !u.status.Completed? && (r.Ok? || r == Err(HashMismatch))
  }

  function After(u: Upload, hash: Bytes -> Digest, e: Event): Upload
    requires u.chunkSize >= 1
  {
    match e
    case Chunk(q) => Stored(u, hash, q).0
    case ChunkCut(q) =>
      var v := Looked(u, q.late);
      if Stored(u, hash, q.(dbFails := true)).1 == Err(Failure) && q.index !in u.files
      then v.(files := v.files[q.index := q.source]) else v
    case Completion(late, fails) => Finished(u, hash, late, fails).0
    case CompletionCut(late) =>
      var v := Looked(u, late);
      if v.status.Uploading? && |v.rows| == Total(v) then v.(status := Completing) else v
    case RemovalCut(late, fails, left) =>
      var v := Finished(u, hash, late, fails).0;
      if Removes(u, hash, late, fails) then v.(files := map i | i in u.files && i in left :: u.files[i]) else v
  }

  /** Every state follows from the one before. */
  ghost predicate Steps(us: seq<Upload>, hash: Bytes -> Digest, es: seq<Event>) {
    && |us| == |es| + 1
    && forall k {:trigger es[k]} :: 0 <= k < |es| ==> us[k].chunkSize >= 1 && us[k + 1] == After(us[k], hash, es[k])
  }

  /** The life of an upload from its beginning. */
  ghost predicate Run(us: seq<Upload>, hash: Bytes -> Digest, es: seq<Event>) {
    && Steps(us, hash, es)
    && us[0].size >= 1 && us[0].chunkSize >= 1 && us[0] == Fresh(us[0].size, us[0].chunkSize, us[0].expected)
  }

  /** If the event is an accepted chunk, it was announced with the digest of its part of `file`. */
  ghost predicate HonestStep(u: Upload, hash: Bytes -> Digest, e: Event, file: Bytes) {
    (u.size == |file| && u.size >= 1 && u.chunkSize >= 1 && e.Chunk? && 0 <= e.request.index < Total(u)
     && Stored(u, hash, e.request).1.Ok?) ==> e.request.claimed == hash(Slice(file, u.chunkSize, e.request.index))
  }

  /** Nobody ever announced a digest other than that of the right part. */
  ghost predicate Honest(us: seq<Upload>, hash: Bytes -> Digest, es: seq<Event>, file: Bytes) {
    |us| == |es| + 1 && forall j {:trigger es[j]} :: 0 <= j < |es| ==> HonestStep(us[j], hash, es[j], file)
  }

  ghost predicate Injective(hash: Bytes -> Digest) {
    forall a, b :: hash(a) == hash(b) ==> a == b
  }

  /** Rows are for chunks of the file, each with a published file of that digest; a completion that has begun has
      all rows. */
  ghost predicate Sane(u: Upload, hash: Bytes -> Digest) {
    && u.size >= 1 && u.chunkSize >= 1
    && (forall i :: i in u.rows ==> 0 <= i < Total(u))
    && (u.status.Completing? ==> |u.rows| == Total(u))
    && (u.status.Completed? <==> u.attachment.Some?)
    && (!u.status.Completed? ==> forall i :: i in u.rows ==> i in u.files && hash(u.files[i]) == u.rows[i].digest)
  }

  ghost predicate RowsMatch(u: Upload, hash: Bytes -> Digest, file: Bytes)
    requires u.size >= 1 && u.chunkSize >= 1 && |file| == u.size
  {
    && (forall i :: i in u.rows && 0 <= i < Total(u) ==> u.rows[i].digest == hash(Slice(file, u.chunkSize, i)))
    && (u.attachment.Some? ==> u.attachment.value == file)
  }

  lemma AfterSane(u: Upload, hash: Bytes -> Digest, e: Event)
    requires Sane(u, hash)
    ensures Sane(After(u, hash, e), hash)
    ensures After(u, hash, e).size == u.size && After(u, hash, e).chunkSize == u.chunkSize
    ensures After(u, hash, e).expected == u.expected
  {
    match e
    case Chunk(q) => StoredSane(u, hash, q);
    case ChunkCut(q) => ChunkCutSane(u, hash, q);
    case Completion(late, fails) => FinishedSane(u, hash, late, fails);
    case CompletionCut(late) =>
    case RemovalCut(late, fails, _) => FinishedSane(u, hash, late, fails);
  }

  lemma ChunkCutSane(u: Upload, hash: Bytes -> Digest, q: Request)
    requires Sane(u, hash)
    ensures var v := After(u, hash, ChunkCut(q));
      Sane(v, hash) && v.size == u.size && v.chunkSize == u.chunkSize && v.expected == u.expected
  {
    var v := After(u, hash, ChunkCut(q));
    assert v.rows == u.rows && forall i :: i in u.files ==> i in v.files && v.files[i] == u.files[i];
  }

  lemma FinishedSane(u: Upload, hash: Bytes -> Digest, late: bool, fails: bool)
    requires Sane(u, hash)
    ensures var v := Finished(u, hash, late, fails).0;
      Sane(v, hash) && v.size == u.size && v.chunkSize == u.chunkSize && v.expected == u.expected
    ensures Removes(u, hash, late, fails) ==> var v := Finished(u, hash, late, fails).0;
      v.status.Completed? || v.rows == map[]
  {
    var v := Finished(u, hash, late, fails).0;
    assert v.rows == u.rows || v.rows == map[];
  }

  lemma StoredSane(u: Upload, hash: Bytes -> Digest, q: Request)
    requires Sane(u, hash)
    ensures var v := Stored(u, hash, q).0;
      Sane(v, hash) && v.size == u.size && v.chunkSize == u.chunkSize && v.expected == u.expected
  {
    var v := Stored(u, hash, q).0;
    assert v.rows == u.rows || v.rows == u.rows[q.index := v.rows[q.index]];
  }

  // Sets of indices below `n`.

  lemma {:induction false} FullSet(n: nat, s: set<int>)
    requires |s| == n && forall i :: i in s ==> 0 <= i < n
    ensures forall i :: 0 <= i < n ==> i in s
  {
    if n > 0 {
      var t := s - {n - 1};
      assert forall i :: i in t ==> i in s && i != n - 1;
      if n - 1 !in s {
        assert t == s;
      }
      assert |t| == if n - 1 in s then n - 1 else n;
      Pigeonhole(n - 1, t);
      FullSet(n - 1, t);
      assert forall i :: 0 <= i < n - 1 ==> i in t;
    }
  }

  lemma {:induction false} Pigeonhole(n: nat, s: set<int>)
    requires forall i :: i in s ==> 0 <= i < n
    ensures |s| <= n
  {
    if n == 0 {
      assert forall i :: i !in s;
      assert s == {};
    } else {
      var t := s - {n - 1};
      assert forall i :: i in t ==> i in s && i != n - 1;
      Pigeonhole(n - 1, t);
    }
  }

  /** All rows present means a row for every chunk. */
  lemma AllRows(rows: map<int, Row>, n: nat)
    requires |rows| == n && forall i :: i in rows ==> 0 <= i < n
    ensures forall i :: 0 <= i < n ==> i in rows
  {
    assert |rows.Keys| == |rows|;
    FullSet(n, rows.Keys);
  }

  // Reassembly.

  /** Where chunk `n` ends. */
  function EndOf(size: int, chunkSize: int, n: nat): int
    requires chunkSize >= 1
  {
    if n == TotalChunks(size, chunkSize) then size else n * chunkSize
  }

  lemma SliceExtends(file: Bytes, chunkSize: int, n: nat)
    requires |file| >= 1 && chunkSize >= 1 && n < TotalChunks(|file|, chunkSize)
    ensures 0 <= EndOf(|file|, chunkSize, n) <= EndOf(|file|, chunkSize, n + 1) <= |file|
    ensures file[..EndOf(|file|, chunkSize, n)] + Slice(file, chunkSize, n) == file[..EndOf(|file|, chunkSize, n + 1)]
  {
    EndInRange(|file|, chunkSize, n);
    ChunkCount(|file|, chunkSize);
    var start := n * chunkSize;
    var end := start + ExpectedSize(|file|, chunkSize, TotalChunks(|file|, chunkSize), n);
    assert (n + 1) * chunkSize == start + chunkSize;
    Geometry(|file|, chunkSize, n);
    assert end == EndOf(|file|, chunkSize, n + 1);
    assert file[..start] + file[start..end] == file[..end];
  }

  /** The parts of the file, put together in index order, are the file. */
  lemma {:induction false} SlicesAssemble(file: Bytes, chunkSize: int, files: map<int, Bytes>, n: nat)
    requires |file| >= 1 && chunkSize >= 1 && n <= TotalChunks(|file|, chunkSize)
    requires forall i :: 0 <= i < n ==> i in files && files[i] == Slice(file, chunkSize, i)
    ensures 0 <= EndOf(|file|, chunkSize, n) <= |file|
    ensures Assembled(files, n) == Some(file[..EndOf(|file|, chunkSize, n)])
  {
    ChunkCount(|file|, chunkSize);
    if n > 0 {
      SlicesAssemble(file, chunkSize, files, n - 1);
      SliceExtends(file, chunkSize, n - 1);
      assert files[n - 1] == Slice(file, chunkSize, n - 1);
    } else {
      assert file[..0] == [];
    }
  }

  /** With all rows in place, the files on disk are the parts of the file and give it back. */
  lemma ContentIsFile(u: Upload, hash: Bytes -> Digest, file: Bytes)
    requires Sane(u, hash) && Injective(hash) && |file| == u.size && RowsMatch(u, hash, file)
    requires |u.rows| == Total(u) && !u.status.Completed?
    ensures Total(u) >= 1 && Assembled(u.files, Total(u)) == Some(file)
  {
    ChunkCount(u.size, u.chunkSize);
    AllRows(u.rows, Total(u));
    SlicesAssemble(file, u.chunkSize, u.files, Total(u));
    assert file[..|file|] == file;
  }

  /** Completing, at any reachable state: it returns the file exactly when it is already done or everything is
      there, in time, without a fault, and the digest promised at the start, if any, is the file's. */
  lemma CompletionIsExact(u: Upload, hash: Bytes -> Digest, file: Bytes, late: bool, fails: bool)
    requires Sane(u, hash) && Injective(hash) && |file| == u.size && RowsMatch(u, hash, file)
    ensures var r := Finished(u, hash, late, fails).1;
      && (r.Ok? ==> r.value == file)
      && (r.Ok? <==> (u.status.Completed?
            || ((u.status.Completing? || (u.status.Uploading? && !late)) && |u.rows| == Total(u) && !fails
                && (u.expected.Some? ==> u.expected.value == hash(file)))))
      && (r == Err(HashMismatch) ==> u.expected.Some? && u.expected.value != hash(file))
  {
    if |u.rows| == Total(u) && !u.status.Completed? {
      ContentIsFile(u, hash, file);
    }
  }

  lemma StoredMatches(u: Upload, hash: Bytes -> Digest, q: Request, file: Bytes)
    requires u.size >= 1 && u.chunkSize >= 1 && |file| == u.size && RowsMatch(u, hash, file)
    requires HonestStep(u, hash, Chunk(q), file)
    ensures var v := Stored(u, hash, q).0; v.size == u.size && v.chunkSize == u.chunkSize && RowsMatch(v, hash, file)
  {
    var v := Stored(u, hash, q).0;
    assert v.rows == u.rows
      || (Stored(u, hash, q).1.Ok? && v.rows == u.rows[q.index := Row(v.rows[q.index].size, q.claimed)]);
  }

  lemma AfterMatches(u: Upload, hash: Bytes -> Digest, e: Event, file: Bytes)
    requires Sane(u, hash) && Injective(hash) && |file| == u.size && RowsMatch(u, hash, file)
    requires HonestStep(u, hash, e, file)
    ensures Sane(After(u, hash, e), hash) && After(u, hash, e).size == u.size
    ensures After(u, hash, e).chunkSize == u.chunkSize && RowsMatch(After(u, hash, e), hash, file)
  {
    AfterSane(u, hash, e);
    match e
    case Chunk(q) => StoredMatches(u, hash, q, file);
    case ChunkCut(q) => ChunkCutMatches(u, hash, q, file);
    case Completion(late, fails) => FinishedMatches(u, hash, file, late, fails);
    case CompletionCut(late) => CompletionCutMatches(u, hash, late, file);
    case RemovalCut(late, fails, left) => RemovalCutMatches(u, hash, late, fails, left, file);
  }

  lemma ChunkCutMatches(u: Upload, hash: Bytes -> Digest, q: Request, file: Bytes)
    requires u.size >= 1 && u.chunkSize >= 1 && |file| == u.size && RowsMatch(u, hash, file)
    ensures var v := After(u, hash, ChunkCut(q));
      v.size == u.size && v.chunkSize == u.chunkSize && RowsMatch(v, hash, file)
  {
    SameRowsMatch(u, After(u, hash, ChunkCut(q)), hash, file);
  }

  lemma CompletionCutMatches(u: Upload, hash: Bytes -> Digest, late: bool, file: Bytes)
    requires u.size >= 1 && u.chunkSize >= 1 && |file| == u.size && RowsMatch(u, hash, file)
    ensures var v := After(u, hash, CompletionCut(late));
      v.size == u.size && v.chunkSize == u.chunkSize && RowsMatch(v, hash, file)
  {
    SameRowsMatch(u, After(u, hash, CompletionCut(late)), hash, file);
  }

  lemma RemovalCutMatches(u: Upload, hash: Bytes -> Digest, late: bool, fails: bool, left: set<int>, file: Bytes)
    requires Sane(u, hash) && Injective(hash) && |file| == u.size && RowsMatch(u, hash, file)
    ensures var v := After(u, hash, RemovalCut(late, fails, left));
      v.size == u.size && v.chunkSize == u.chunkSize && RowsMatch(v, hash, file)
  {
    FinishedMatches(u, hash, file, late, fails);
    SameRowsMatch(Finished(u, hash, late, fails).0, After(u, hash, RemovalCut(late, fails, left)), hash, file);
  }

  lemma SameRowsMatch(u: Upload, v: Upload, hash: Bytes -> Digest, file: Bytes)
    requires u.size >= 1 && u.chunkSize >= 1 && |file| == u.size && RowsMatch(u, hash, file)
    requires v.size == u.size && v.chunkSize == u.chunkSize && v.rows == u.rows && v.attachment == u.attachment
    ensures RowsMatch(v, hash, file)
  {
  }

  lemma FinishedMatches(u: Upload, hash: Bytes -> Digest, file: Bytes, late: bool, fails: bool)
    requires Sane(u, hash) && Injective(hash) && |file| == u.size && RowsMatch(u, hash, file)
    ensures var v := Finished(u, hash, late, fails).0;
      v.size == u.size && v.chunkSize == u.chunkSize && RowsMatch(v, hash, file)
  {
    CompletionIsExact(u, hash, file, late, fails);
    var v := Finished(u, hash, late, fails).0;
    assert v.rows == u.rows || v.rows == map[];
    assert v.attachment == u.attachment || v.attachment == Some(file);
  }

  ghost predicate Matches(u: Upload, hash: Bytes -> Digest, file: Bytes) {
    Sane(u, hash) && |file| == u.size && RowsMatch(u, hash, file)
  }

  lemma NextMatches(us: seq<Upload>, hash: Bytes -> Digest, es: seq<Event>, file: Bytes, k: nat)
    requires Steps(us, hash, es) && Injective(hash) && k < |es| && HonestStep(us[k], hash, es[k], file)
    requires Matches(us[k], hash, file)
    ensures Matches(us[k + 1], hash, file) && us[k + 1].chunkSize == us[k].chunkSize
  {
    AfterMatches(us[k], hash, es[k], file);
  }

  lemma {:induction false} RunMatches(us: seq<Upload>, hash: Bytes -> Digest, es: seq<Event>, file: Bytes, k: nat)
    requires Steps(us, hash, es) && Injective(hash) && Matches(us[0], hash, file) && k < |us|
    requires Honest(us, hash, es, file)
    ensures Matches(us[k], hash, file) && us[k].chunkSize == us[0].chunkSize
  {
    if k > 0 {
      RunMatches(us, hash, es, file, k - 1);
      NextMatches(us, hash, es, file, k - 1);
    }
  }

  /** Over every run, whatever the order of accepted, repeated, conflicting and cut-off uploads, a completion that
      succeeds yields the original file. */
  lemma Reassembled(us: seq<Upload>, hash: Bytes -> Digest, es: seq<Event>, file: Bytes, k: nat)
    requires Run(us, hash, es) && Injective(hash) && |file| == us[0].size && k < |es| && es[k].Completion?
    requires Honest(us, hash, es, file)
    ensures us[k].chunkSize >= 1
    ensures var r := Finished(us[k], hash, es[k].late, es[k].finishFails).1; r.Ok? ==> r.value == file
  {
    ReassembledFrom(us, hash, es, file, k);
  }

  /** The same for an upload taken over half-way, as long as what is there is right. */
  lemma ReassembledFrom(us: seq<Upload>, hash: Bytes -> Digest, es: seq<Event>, file: Bytes, k: nat)
    requires Steps(us, hash, es) && Injective(hash) && Matches(us[0], hash, file) && k < |es| && es[k].Completion?
    requires Honest(us, hash, es, file)
    ensures us[k].chunkSize >= 1
    ensures var r := Finished(us[k], hash, es[k].late, es[k].finishFails).1; r.Ok? ==> r.value == file
  {
    RunMatches(us, hash, es, file, k);
    CompletionIsExact(us[k], hash, file, es[k].late, es[k].finishFails);
  }

  /** A published chunk keeps its content through every event; it goes only when the whole was wrong or done. */
  lemma PublishedIsFinal(u: Upload, hash: Bytes -> Digest, e: Event, i: int)
    requires u.chunkSize >= 1 && i in u.files
    ensures var v := After(u, hash, e);
      if i in v.files then v.files[i] == u.files[i]
      else (e.Completion? || e.RemovalCut?) && var r := Finished(u, hash, e.late, e.finishFails).1;
           r.Ok? || (r == Err(HashMismatch) && v.rows == map[])
  {
    match e
    case Chunk(q) => StoredFiles(u, hash, q);
    case ChunkCut(q) =>
    case Completion(late, fails) => FinishedFiles(u, hash, late, fails);
    case CompletionCut(late) =>
    case RemovalCut(late, fails, _) => FinishedFiles(u, hash, late, fails);
  }

  lemma StoredFiles(u: Upload, hash: Bytes -> Digest, q: Request)
    requires u.chunkSize >= 1
    ensures forall i :: i in u.files ==> i in Stored(u, hash, q).0.files && Stored(u, hash, q).0.files[i] == u.files[i]
  {
  }

  lemma FinishedFiles(u: Upload, hash: Bytes -> Digest, late: bool, fails: bool)
    requires u.chunkSize >= 1
    ensures var v := Finished(u, hash, late, fails);
      || v.0.files == u.files
      || (v.0.files == map[] && (v.1.Ok? || (v.1 == Err(HashMismatch) && v.0.rows == map[])))
    ensures Removes(u, hash, late, fails) ==>
      var v := Finished(u, hash, late, fails); v.1.Ok? || (v.1 == Err(HashMismatch) && v.0.rows == map[])
  {
  }

  /** A chunk file that is left behind, by a cut or by a failure, shuts out every other content for its place. */
  lemma LeftChunkBlocks(u: Upload, hash: Bytes -> Digest, q: Request)
    requires u.chunkSize >= 1 && q.index in u.files && q.claimed != hash(u.files[q.index])
    ensures Stored(u, hash, q).1.Err?
    ensures Stored(u, hash, q).0.files == u.files && Stored(u, hash, q).0.rows == u.rows
  {
  }

  /** So over a stretch of a run without such a reset it is the same bytes at both ends. */
  lemma {:induction false} PublishedStays(us: seq<Upload>, hash: Bytes -> Digest, es: seq<Event>, i: int, j: nat,
                                          k: nat)
    requires Run(us, hash, es) && j <= k < |us|
    requires forall m :: j <= m <= k ==> i in us[m].files
    ensures us[k].files[i] == us[j].files[i]
  {
    if j < k {
      PublishedStays(us, hash, es, i, j, k - 1);
      assert us[k - 1 + 1] == After(us[k - 1], hash, es[k - 1]);
      PublishedIsFinal(us[k - 1], hash, es[k - 1], i);
    }
  }

  // Sending the chunks in any order.

  function Send(file: Bytes, chunkSize: int, hash: Bytes -> Digest, i: nat): Request
    requires |file| >= 1 && chunkSize >= 1 && i < TotalChunks(|file|, chunkSize)
  {
    var part := Slice(file, chunkSize, i);
    Request(i, hash(part), part, |part|, false, false)
  }

  function SendAll(u: Upload, file: Bytes, hash: Bytes -> Digest, order: seq<nat>): Upload
    requires |file| >= 1 && u.chunkSize >= 1
    requires forall k :: 0 <= k < |order| ==> order[k] < TotalChunks(|file|, u.chunkSize)
  {
    if order == [] then u
    else
      var before := SendAll(u, file, hash, order[..|order| - 1]);
      if before.chunkSize != u.chunkSize then before
      else Stored(before, hash, Send(file, u.chunkSize, hash, order[|order| - 1])).0
  }

  /** Exactly the chunks in `sent` are recorded and published, each with its part of the file. */
  ghost predicate Holds(u: Upload, file: Bytes, chunkSize: int, expected: Option<Digest>, hash: Bytes -> Digest,
                        sent: set<int>)
    requires |file| >= 1 && chunkSize >= 1 && forall i :: i in sent ==> 0 <= i < TotalChunks(|file|, chunkSize)
  {
    && u.size == |file| && u.chunkSize == chunkSize && u.expected == expected && u.attachment.None?
    && (u.status == if sent == {} then Initialized else Uploading)
    && u.rows.Keys == sent && u.files.Keys == sent
    && (forall i :: i in sent ==> u.files[i] == Slice(file, chunkSize, i))
    && (forall i :: i in sent ==> u.rows[i] == Row(|Slice(file, chunkSize, i)|, hash(Slice(file, chunkSize, i))))
  }

  function Sent(order: seq<nat>): set<int> {
    set k | 0 <= k < |order| :: order[k]
  }

  lemma SendOne(u: Upload, file: Bytes, expected: Option<Digest>, hash: Bytes -> Digest, sent: set<int>, i: nat)
    requires |file| >= 1 && u.chunkSize >= 1 && forall j :: j in sent ==> 0 <= j < TotalChunks(|file|, u.chunkSize)
    requires i < TotalChunks(|file|, u.chunkSize) && Holds(u, file, u.chunkSize, expected, hash, sent)
    ensures Holds(Stored(u, hash, Send(file, u.chunkSize, hash, i)).0, file, u.chunkSize, expected, hash, sent + {i})
    ensures Stored(u, hash, Send(file, u.chunkSize, hash, i)).1 == Ok(i in sent)
  {
    EndInRange(|file|, u.chunkSize, i);
    Geometry(|file|, u.chunkSize, i);
    var want := ExpectedSize(|file|, u.chunkSize, Total(u), i);
    var part := Slice(file, u.chunkSize, i);
    assert |part| == want;
    var v := Stored(u, hash, Send(file, u.chunkSize, hash, i)).0;
    assert i in sent + {i};
    if i in sent {
      assert sent + {i} == sent;
      assert v == u;
    } else {
      assert v.rows == u.rows[i := Row(want, hash(part))];
      assert v.files == u.files[i := part];
    }
  }

  lemma {:induction false} SendAllHolds(file: Bytes, chunkSize: int, expected: Option<Digest>, hash: Bytes -> Digest,
                                        order: seq<nat>)
    requires |file| >= 1 && chunkSize >= 1
    requires forall k :: 0 <= k < |order| ==> order[k] < TotalChunks(|file|, chunkSize)
    ensures var u := SendAll(Fresh(|file|, chunkSize, expected), file, hash, order);
      Holds(u, file, chunkSize, expected, hash, Sent(order))
    decreases |order|
  {
    if order != [] {
      var n := |order| - 1;
      SendAllHolds(file, chunkSize, expected, hash, order[..n]);
      var u := SendAll(Fresh(|file|, chunkSize, expected), file, hash, order[..n]);
      SendOne(u, file, expected, hash, Sent(order[..n]), order[n]);
      SentGrows(order, n);
    }
  }

  lemma SentGrows(order: seq<nat>, n: nat)
    requires n + 1 == |order|
    ensures Sent(order) == Sent(order[..n]) + {order[n]}
  {
    forall i | i in Sent(order)
      ensures i in Sent(order[..n]) + {order[n]}
    {
      var k :| 0 <= k < |order| && order[k] == i;
      if k < n {
        assert order[..n][k] == i;
      }
    }
    forall i | i in Sent(order[..n]) + {order[n]}
      ensures i in Sent(order)
    {
      if i != order[n] {
        var k :| 0 <= k < n && order[..n][k] == i;
        assert order[k] == i;
      }
    }
    assert forall i :: i in Sent(order) <==> i in Sent(order[..n]) + {order[n]};
  }

  /** Sending every chunk at least once, in any order and with any repetition, and completing gives the file;
      leaving one out is always noticed. */
  lemma AnyOrderReassembles(file: Bytes, chunkSize: int, expected: Option<Digest>, hash: Bytes -> Digest,
                            order: seq<nat>)
    requires |file| >= 1 && chunkSize >= 1 && (expected.Some? ==> expected.value == hash(file))
    requires forall k :: 0 <= k < |order| ==> order[k] < TotalChunks(|file|, chunkSize)
    ensures var u := SendAll(Fresh(|file|, chunkSize, expected), file, hash, order);
      && u.chunkSize >= 1
      && Finished(u, hash, false, false).1 ==
         if forall i :: 0 <= i < TotalChunks(|file|, chunkSize) ==> i in Sent(order) then Ok(file) else Err(Conflict)
  {
    SendAllHolds(file, chunkSize, expected, hash, order);
    var u := SendAll(Fresh(|file|, chunkSize, expected), file, hash, order);
    var n := TotalChunks(|file|, chunkSize);
    ChunkCount(|file|, chunkSize);
    assert |u.rows.Keys| == |u.rows|;
    if |u.rows| == n {
      AllRows(u.rows, n);
      SlicesAssemble(file, chunkSize, u.files, n);
      assert file[..|file|] == file;
      assert 0 in Sent(order);
    } else if forall i :: 0 <= i < n ==> i in Sent(order) {
      FullCount(n, Sent(order));
      assert false;
    }
  }

  lemma {:induction false} FullCount(n: nat, s: set<int>)
    requires forall i :: i in s <==> 0 <= i < n
    ensures |s| == n
  {
    if n == 0 {
      assert forall i :: i !in s;
      assert s == {};
    } else {
      var t := s - {n - 1};
      assert forall i :: i in t <==> 0 <= i < n - 1;
      FullCount(n - 1, t);
    }
  }
}
