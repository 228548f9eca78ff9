/** The verdicts of the two upload requests and what each of them leaves, written out condition by condition. */
module UploadMeaning {
  import opened Collections
  import opened ChunkUpload

  /** Past its time, and marked so now or earlier. */
  predicate PastTime(u: Upload, late: bool) {
    u.status.Lapsed? || (late && (u.status.Initialized? || u.status.Uploading? || u.status.Failed?))
  }

  /** The upload still takes chunks. */
  predicate Open(u: Upload, late: bool) {
    !late && (u.status.Initialized? || u.status.Uploading? || u.status.Failed?)
  }

  /** The request is for a chunk of this upload and announces its size: the last chunk has what is left. */
  predicate Fits(u: Upload, q: Request)
    requires u.chunkSize >= 1
  {
    var total := (u.size + u.chunkSize - 1) / u.chunkSize;
    && 0 <= q.index < total
    && q.contentLength == if q.index == total - 1 then u.size - u.chunkSize * q.index else u.chunkSize
  }

  /** What arrives is what was announced. */
  predicate Arrives(hash: Bytes -> Digest, q: Request) {
    |q.source| == q.contentLength && hash(q.source) == q.claimed
  }

  /** A chunk file in this place has the same size and digest. */
  predicate FileAgrees(u: Upload, hash: Bytes -> Digest, q: Request) {
    q.index in u.files ==> |u.files[q.index]| == q.contentLength && hash(u.files[q.index]) == q.claimed
  }

  predicate RowAgrees(u: Upload, q: Request) {
    q.index in u.rows ==> u.rows[q.index] == Row(q.contentLength, q.claimed)
  }

  lemma SizeIsExact(u: Upload, q: Request)
    requires u.size >= 1 && u.chunkSize >= 1 && 0 <= q.index < Total(u)
    ensures Fits(u, q) <==> q.contentLength == ExpectedSize(u.size, u.chunkSize, Total(u), q.index)
    ensures 0 < ExpectedSize(u.size, u.chunkSize, Total(u), q.index) <= u.chunkSize
  {
    Geometry(u.size, u.chunkSize, q.index);
  }

  /** When a chunk is taken, and with which error it is refused otherwise. */
  lemma StoreVerdict(u: Upload, hash: Bytes -> Digest, q: Request)
    requires u.size >= 1 && u.chunkSize >= 1
    ensures var r := Stored(u, hash, q).1;
      && (r.Ok? <==> Open(u, q.late) && Fits(u, q) && Arrives(hash, q) && FileAgrees(u, hash, q) && !q.dbFails
                     && RowAgrees(u, q))
      && (r.Ok? ==> (r.value <==> q.index in u.rows))
      && (r == Err(Expired) <==> q.index >= 0 && PastTime(u, q.late))
      && (r == Err(InvalidInput) <==> q.index < 0 || (Open(u, q.late) && !Fits(u, q)))
      && (r == Err(HashMismatch) <==> Open(u, q.late) && Fits(u, q) && !Arrives(hash, q))
      && (r == Err(Failure) <==>
            Open(u, q.late) && Fits(u, q) && Arrives(hash, q) && FileAgrees(u, hash, q) && q.dbFails)
  {
    if 0 <= q.index < Total(u) {
      SizeIsExact(u, q);
    }
  }

  /** A chunk taken is on disk and on record and nothing else changes; one refused changes nothing, but that an upload
      past its time is marked so. */
  lemma StoreLeaves(u: Upload, hash: Bytes -> Digest, q: Request)
    requires u.size >= 1 && u.chunkSize >= 1
    ensures var r := Stored(u, hash, q); var v := r.0;
      && (r.1.Ok? ==>
            && v == u.(status := v.status, rows := v.rows, files := v.files)
            && v.rows == u.rows[q.index := Row(|q.source|, q.claimed)]
            && v.files == (if q.index in u.files then u.files else u.files[q.index := q.source])
            && v.status == (if q.index in u.rows && u.status.Initialized? then Initialized else Uploading))
      && (r.1.Err? ==> v == if PastTime(u, q.late) && q.index >= 0 then u.(status := Lapsed) else u)
  {
    if 0 <= q.index < Total(u) {
      SizeIsExact(u, q);
    }
  }

  /** Every chunk file is there. */
  predicate AllThere(u: Upload)
    requires u.chunkSize >= 1
  {
    forall i :: 0 <= i < (u.size + u.chunkSize - 1) / u.chunkSize ==> i in u.files
  }

  lemma {:induction false} AssembledIff(files: map<int, Bytes>, n: nat)
    ensures Assembled(files, n).Some? <==> forall i :: 0 <= i < n ==> i in files
  {
    if n > 0 {
      AssembledIff(files, n - 1);
    }
  }

  /** A completion has begun earlier, or all rows are there in time. */
  predicate Ready(u: Upload, late: bool)
    requires u.chunkSize >= 1
  {
    u.status.Completing? || (u.status.Uploading? && !late && |u.rows| == (u.size + u.chunkSize - 1) / u.chunkSize)
  }

  /** The chunk files in order have the declared size and the digest promised at the start, if one was. */
  predicate Right(u: Upload, hash: Bytes -> Digest)
    requires u.chunkSize >= 1 && u.size >= 1
  {
    ChunkCount(u.size, u.chunkSize);
    var content := Assembled(u.files, Total(u));
    content.Some? && |content.value| == u.size && (u.expected.Some? ==> hash(content.value) == u.expected.value)
  }

  /** When a completion succeeds, and with which error it is refused otherwise. */
  lemma FinishVerdict(u: Upload, hash: Bytes -> Digest, late: bool, fails: bool)
    requires u.size >= 1 && u.chunkSize >= 1 && !u.status.Completed?
    ensures var r := Finished(u, hash, late, fails).1;
      && (r.Ok? <==> Ready(u, late) && Right(u, hash) && !fails)
      && (r.Ok? ==> Assembled(u.files, Total(u)) == Some(r.value))
      && (r == Err(Expired) <==> PastTime(u, late))
      && (r == Err(Conflict) <==> !PastTime(u, late) && !Ready(u, late))
      && (r == Err(HashMismatch) <==> Ready(u, late) && AllThere(u) && !Right(u, hash))
      && (r == Err(Failure) <==> Ready(u, late) && (!AllThere(u) || (Right(u, hash) && fails)))
  {
    ChunkCount(u.size, u.chunkSize);
    AssembledIff(u.files, Total(u));
  }

  /** What a completion leaves: the attachment and no chunk files when it succeeds; no rows and no chunk files when the
      content was wrong; no rows, but all files, after another fault; and everything as it was when it is refused. A
      completed upload stays as it is. */
  lemma FinishLeaves(u: Upload, hash: Bytes -> Digest, late: bool, fails: bool)
    requires u.size >= 1 && u.chunkSize >= 1
    ensures var r := Finished(u, hash, late, fails); var v := r.0;
      if u.status.Completed? then v == u && (u.attachment.Some? ==> r.1 == Ok(u.attachment.value))
      else
      && v == u.(status := v.status, rows := v.rows, files := v.files, attachment := v.attachment)
      && (r.1.Ok? ==> v.status == Completed && v.attachment == Some(r.1.value) && v.files == map[] && v.rows == u.rows)
      && (r.1.Err? ==> v.attachment == u.attachment)
      && (r.1 == Err(HashMismatch) ==> v.status == Initialized && v.rows == map[] && v.files == map[])
      && (r.1 == Err(Failure) ==> v.status == Initialized && v.rows == map[] && v.files == u.files)
      && (r.1 == Err(Expired) ==> v == u.(status := Lapsed))
      && (r.1 == Err(Conflict) ==> v == u)
  {
  }
}
