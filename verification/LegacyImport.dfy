/** Taking over uploads that an older installation left unfinished: the chunk files of its directory
    are copied one by one, and a failure anywhere removes the copies again. */
module LegacyImport {
  import opened Collections
  import opened Numerals
  import U = ChunkUpload

  type Digest = U.Digest

  /** A directory entry; `regular` is false for a directory or a symbolic link. */
  datatype Entry = Entry(name: string, regular: bool, content: Bytes)

  /** The row of an upload as the older installation had it. */
  datatype Legacy = Legacy(size: int, chunkSize: int, received: int, expected: Option<Digest>, status: U.Status)

  datatype Piece = Piece(index: nat, size: int, digest: Digest)

  const PART := ".part"

  function ChunkName(index: nat): string {
    Decimal(index) + PART
  }

  /** The number in a chunk's file name. */
  function IndexOf(name: string): Option<nat> {
    var n := |name| - |PART|;
    if n < 0 || name[n..] != PART then None else NumberOf(name[..n])
  }

  /** Only the name that a chunk's number is printed to is taken for it. */
  lemma IndexIsPrinted(name: string, i: nat)
    ensures IndexOf(name) == Some(i) <==> name == ChunkName(i)
  {
    var n := |name| - |PART|;
    if name == ChunkName(i) {
      assert name[..n] == Decimal(i) && name[n..] == PART;
    }
    if n >= 0 && name[n..] == PART {
      NumberIsPrinted(name[..n], i);
      assert name == name[..n] + PART;
    }
  }

  predicate ValidRow(l: Legacy) {
    l.size >= 1 && l.chunkSize >= 1 && !l.status.Completed?
  }

  function Total(l: Legacy): int
    requires ValidRow(l)
  {
    U.TotalChunks(l.size, l.chunkSize)
  }

  /** An entry is a chunk file of the upload, of the size the chunk must have. */
  predicate Fits(l: Legacy, e: Entry)
    requires ValidRow(l)
  {
    && IndexOf(e.name).Some? && IndexOf(e.name).value < Total(l) && e.regular
    && |e.content| == U.LegacyExpectedSize(l.size, l.chunkSize, Total(l), IndexOf(e.name).value)
  }

  function PieceOf(l: Legacy, e: Entry, hash: Bytes -> Digest): Piece
    requires ValidRow(l) && Fits(l, e)
  {
    Piece(IndexOf(e.name).value, |e.content|, hash(e.content))
  }

  /** No two of the first `n` entries have one name, and none is there already. */
  predicate Apart(es: seq<Entry>, there: map<string, Bytes>, n: nat)
    requires n <= |es|
  {
    && (forall i :: 0 <= i < n ==> es[i].name !in there)
    && (forall i, j :: 0 <= i < j < n ==> es[i].name != es[j].name)
  }

  predicate AllFit(l: Legacy, es: seq<Entry>, n: nat)
    requires ValidRow(l) && n <= |es|
  {
    forall i :: 0 <= i < n ==> Fits(l, es[i])
  }

  /** The files that the first `n` entries amount to. */
  function Contents(es: seq<Entry>, n: nat): map<string, Bytes>
    requires n <= |es|
  {
    if n == 0 then map[] else Contents(es, n - 1)[es[n - 1].name := es[n - 1].content]
  }

  /** What an import needs: without a directory, that nothing had been received; otherwise that every
      entry is a chunk that is not there yet, that no fault comes in between, and that an upload
      which was completing has all its chunks. */
  predicate Importable(l: Legacy, listing: Option<seq<Entry>>, there: map<string, Bytes>, fault: Option<nat>)
    requires ValidRow(l)
  {
    match listing
    case None => l.received == 0
    case Some(es) =>
      && AllFit(l, es, |es|) && Apart(es, there, |es|) && (fault.Some? ==> fault.value >= |es|)
      && (l.status.Completing? ==> |es| == Total(l))
  }

  function Listed(listing: Option<seq<Entry>>): seq<Entry> {
    if listing.None? then [] else listing.value
  }

  /** One piece for each of the first `n` entries, in their order. */
  ghost predicate ArePieces(l: Legacy, es: seq<Entry>, n: nat, hash: Bytes -> Digest, pieces: seq<Piece>) {
    && ValidRow(l) && |pieces| == n <= |es|
    && forall i :: 0 <= i < n ==> Fits(l, es[i]) && pieces[i] == PieceOf(l, es[i], hash)
  }

  class Directory {
    var files: map<string, Bytes>
    const hash: Bytes -> Digest

    constructor (files: map<string, Bytes>, hash: Bytes -> Digest)
      ensures this.files == files && this.hash == hash
    {
      this.files, this.hash := files, hash;
    }

    /** Copies one chunk, never over an existing file; a copy that fails is removed. */
    method CopyLegacyChunk(e: Entry, want: int, fails: bool) returns (r: Option<Digest>)
      modifies this
      ensures r.Some? <==> |e.content| == want && e.name !in old(files) && !fails
      ensures if r.Some? then r.value == hash(e.content) && files == old(files)[e.name := e.content]
        else files == old(files)
    {
      if |e.content| != want || e.name in files {
        return None;
      }
      files := files[e.name := e.content];
      if fails {
        files := files - {e.name};
        assert files == old(files);
        return None;
      }
      r := Some(hash(e.content));
    }

    /** Removes the copies made so far, the last one first. */
    method Rollback(es: seq<Entry>, n: nat, ghost before: map<string, Bytes>)
      requires n <= |es| && Apart(es, before, n) && files == before + Contents(es, n)
      modifies this
      ensures files == before
    {
      var k := n;
      while k > 0
        invariant 0 <= k <= n && files == before + Contents(es, k)
      {
        k := k - 1;
        RemovedAgain(es, n, k, before);
        files := files - {es[k].name};
      }
    }

    /** One directory entry: a chunk of the upload that was not met before, copied whole. */
    method ImportEntry(l: Legacy, e: Entry, met: bool, fails: bool) returns (r: Option<Piece>)
      requires ValidRow(l)
      modifies this
      ensures r.Some? <==> Fits(l, e) && !met && e.name !in old(files) && !fails
      ensures if r.Some? then r.value == PieceOf(l, e, hash) && files == old(files)[e.name := e.content]
        else files == old(files)
    {
      var index := IndexOf(e.name);
      if index.None? || index.value >= Total(l) || !e.regular || met {
        return None;
      }
      var want := l.chunkSize;
      if index.value == Total(l) - 1 {
        want := l.size - l.chunkSize * (Total(l) - 1);
      }
      var digest := CopyLegacyChunk(e, want, fails);
      if digest.None? {
        return None;
      }
      r := Some(Piece(index.value, want, digest.value));
    }

    /** The chunks in the order of the directory, or none of them. */
    method CopyAll(l: Legacy, es: seq<Entry>, fault: Option<nat>) returns (r: Option<seq<Piece>>)
      requires ValidRow(l)
      modifies this
      ensures r.Some? <==> AllFit(l, es, |es|) && Apart(es, old(files), |es|) && (fault.Some? ==> fault.value >= |es|)
      ensures r.None? ==> files == old(files)
      ensures r.Some? ==> files == old(files) + Contents(es, |es|) && ArePieces(l, es, |es|, hash, r.value)
    {
      var pieces: seq<Piece>, seen: set<string> := [], {};
      ghost var before := files;
      for n := 0 to |es|
        invariant fault.Some? ==> fault.value >= n
        invariant Progress(l, es, n, before, files, hash, pieces)
        invariant seen == Contents(es, n).Keys
      {
        var cut := fault.Some? && fault.value == n;
        var piece := ImportEntry(l, es[n], es[n].name in seen, cut);
        if piece.None? {
          NotImportable(l, es, before, n);
          Rollback(es, n, before);
          return None;
        }
        ProgressMore(l, es, n, before, hash, pieces);
        seen := seen + {es[n].name};
        pieces := pieces + [piece.value];
      }
      r := Some(pieces);
    }

    /** All chunks of one upload, or none. `fault` is the entry at which the copying is cut off. */
    method ImportLegacyUploadChunks(l: Legacy, listing: Option<seq<Entry>>,
                                    fault: Option<nat>) returns (r: Option<seq<Piece>>)
      requires ValidRow(l)
      modifies this
      ensures r.Some? <==> Importable(l, listing, old(files), fault)
      ensures r.None? ==> files == old(files)
      ensures r.Some? ==> var es := Listed(listing);
        files == old(files) + Contents(es, |es|) && ArePieces(l, es, |es|, hash, r.value)
    {
      if listing.None? {
        return if l.received != 0 then None else Some([]);
      }
      var es := listing.value;
      ghost var before := files;
      var pieces := CopyAll(l, es, fault);
      if pieces.None? {
        return None;
      }
      if l.status.Completing? && |pieces.value| != Total(l) {
        Rollback(es, |es|, before);
        return None;
      }
      r := pieces;
    }
  }

  lemma {:induction false} ContentsKeys(es: seq<Entry>, n: nat)
    requires n <= |es|
    ensures forall name :: name in Contents(es, n) <==> exists i :: 0 <= i < n && es[i].name == name
  {
    if n > 0 {
      ContentsKeys(es, n - 1);
    }
  }

  lemma RemovedAgain(es: seq<Entry>, n: nat, k: nat, before: map<string, Bytes>)
    requires k < n <= |es| && Apart(es, before, n)
    ensures (before + Contents(es, k + 1)) - {es[k].name} == before + Contents(es, k)
  {
    ContentsKeys(es, k);
  }

  lemma ApartMore(es: seq<Entry>, there: map<string, Bytes>, n: nat)
    requires n < |es| && Apart(es, there, n) && es[n].name !in there && es[n].name !in Contents(es, n)
    ensures Apart(es, there, n + 1)
  {
    ContentsKeys(es, n);
  }

  lemma NotImportable(l: Legacy, es: seq<Entry>, there: map<string, Bytes>, n: nat)
    requires ValidRow(l) && n < |es| && Apart(es, there, n)
    ensures !Fits(l, es[n]) ==> !AllFit(l, es, |es|)
    ensures es[n].name in there || es[n].name in Contents(es, n) ==> !Apart(es, there, |es|)
  {
    ContentsKeys(es, n);
  }

  /** The first `n` entries have been copied, and nothing else has changed. */
  ghost predicate Progress(l: Legacy, es: seq<Entry>, n: nat, before: map<string, Bytes>, files: map<string, Bytes>,
                           hash: Bytes -> Digest, pieces: seq<Piece>) {
    n <= |es| && Apart(es, before, n) && files == before + Contents(es, n) && ArePieces(l, es, n, hash, pieces)
  }

  lemma ProgressMore(l: Legacy, es: seq<Entry>, n: nat, before: map<string, Bytes>, hash: Bytes -> Digest,
                     pieces: seq<Piece>)
    requires n < |es| && Progress(l, es, n, before, before + Contents(es, n), hash, pieces)
    requires Fits(l, es[n]) && es[n].name !in before && es[n].name !in Contents(es, n)
    ensures Progress(l, es, n + 1, before, (before + Contents(es, n))[es[n].name := es[n].content], hash,
      pieces + [PieceOf(l, es[n], hash)])
    ensures Contents(es, n + 1).Keys == Contents(es, n).Keys + {es[n].name}
  {
    ApartMore(es, before, n);
  }

  // Going on with an imported upload.

  function RowsOf(pieces: seq<Piece>): map<int, U.Row> {
    if pieces == [] then map[]
    else
      var n := |pieces| - 1;
      RowsOf(pieces[..n])[pieces[n].index := U.Row(pieces[n].size, pieces[n].digest)]
  }

  function ChunkFiles(files: map<string, Bytes>, total: int): map<int, Bytes> {
    map i: int | 0 <= i < total && ChunkName(i) in files :: files[ChunkName(i)]
  }

  /** The upload as the new installation sees it: a row for every piece, the chunk files by number. */
  function Imported(l: Legacy, files: map<string, Bytes>, pieces: seq<Piece>): U.Upload
    requires ValidRow(l)
  {
    U.Upload(l.size, l.chunkSize, l.expected, if l.status.Initialized? && pieces != [] then U.Uploading else l.status,
             RowsOf(pieces), ChunkFiles(files, Total(l)), None)
  }

  predicate DistinctPieces(pieces: seq<Piece>) {
    forall i, j :: 0 <= i < j < |pieces| ==> pieces[i].index != pieces[j].index
  }

  lemma {:induction false} RowsAre(pieces: seq<Piece>)
    requires DistinctPieces(pieces)
    ensures |RowsOf(pieces)| == |pieces|
    ensures forall i :: i in RowsOf(pieces) ==> exists k :: 0 <= k < |pieces| && pieces[k].index == i
    ensures forall k :: 0 <= k < |pieces| ==>
      pieces[k].index in RowsOf(pieces) && RowsOf(pieces)[pieces[k].index] == U.Row(pieces[k].size, pieces[k].digest)
    decreases |pieces|
  {
    if pieces != [] {
      var n := |pieces| - 1;
      var before, rows := RowsOf(pieces[..n]), RowsOf(pieces);
      RowsAre(pieces[..n]);
      assert rows == before[pieces[n].index := U.Row(pieces[n].size, pieces[n].digest)];
      assert pieces[n].index !in before;
      forall i | i in rows ensures exists k :: 0 <= k < |pieces| && pieces[k].index == i {
        if i in before {
          var k :| 0 <= k < n && pieces[..n][k].index == i;
          assert pieces[k].index == i;
        } else {
          assert pieces[n].index == i;
        }
      }
      forall k | 0 <= k < n
        ensures pieces[k].index in rows && rows[pieces[k].index] == U.Row(pieces[k].size, pieces[k].digest)
      {
        assert pieces[..n][k] == pieces[k];
      }
    }
  }

  lemma PiecesAreDistinct(l: Legacy, es: seq<Entry>, there: map<string, Bytes>, hash: Bytes -> Digest,
                          pieces: seq<Piece>)
    requires ArePieces(l, es, |es|, hash, pieces) && Apart(es, there, |es|)
    ensures DistinctPieces(pieces) && forall k :: 0 <= k < |es| ==> es[k].name == ChunkName(pieces[k].index)
  {
    forall k | 0 <= k < |es| ensures es[k].name == ChunkName(pieces[k].index) {
      IndexIsPrinted(es[k].name, pieces[k].index);
    }
  }

  lemma {:induction false} ContentsHold(es: seq<Entry>, there: map<string, Bytes>, n: nat, k: nat)
    requires k < n <= |es| && Apart(es, there, n)
    ensures es[k].name in Contents(es, n) && Contents(es, n)[es[k].name] == es[k].content
    decreases n
  {
    if k < n - 1 {
      ContentsHold(es, there, n - 1, k);
    }
  }

  /** Every chunk that was imported is the right part of the file. */
  ghost predicate PartsOf(l: Legacy, es: seq<Entry>, file: Bytes) {
    && ValidRow(l) && |file| == l.size
    && forall k :: 0 <= k < |es| ==>
      Fits(l, es[k]) && es[k].content == U.Slice(file, l.chunkSize, IndexOf(es[k].name).value)
  }

  /** A row comes with its chunk file, and both with the right part of the file. */
  ghost predicate RowIsRight(u: U.Upload, hash: Bytes -> Digest, file: Bytes, i: int)
    requires u.size >= 1 && u.chunkSize >= 1 && |file| == u.size
  {
    && 0 <= i < U.Total(u) && i in u.rows && i in u.files && hash(u.files[i]) == u.rows[i].digest
    && u.rows[i].digest == hash(U.Slice(file, u.chunkSize, i))
  }

  lemma ImportedRow(l: Legacy, es: seq<Entry>, before: map<string, Bytes>, hash: Bytes -> Digest, pieces: seq<Piece>,
                    file: Bytes, i: int)
    requires PartsOf(l, es, file) && Apart(es, before, |es|) && ArePieces(l, es, |es|, hash, pieces)
    requires i in RowsOf(pieces)
    ensures RowIsRight(Imported(l, before + Contents(es, |es|), pieces), hash, file, i)
  {
    PiecesAreDistinct(l, es, before, hash, pieces);
    RowsAre(pieces);
    var k :| 0 <= k < |pieces| && pieces[k].index == i;
    ContentsHold(es, before, |es|, k);
    assert es[k].name == ChunkName(i) && pieces[k] == PieceOf(l, es[k], hash);
  }

  lemma RightRowsMatch(u: U.Upload, hash: Bytes -> Digest, file: Bytes)
    requires u.size >= 1 && u.chunkSize >= 1 && |file| == u.size && !u.status.Completed? && u.attachment.None?
    requires forall i :: i in u.rows ==> RowIsRight(u, hash, file, i)
    ensures U.Matches(u, hash, file) <==> (u.status.Completing? ==> |u.rows| == U.Total(u))
  {
  }

  /** An imported upload is in a state from which it can be completed correctly, except in one case: an upload that
      was completing but has no directory is taken over without any chunk. */
  lemma ImportIsSound(l: Legacy, listing: Option<seq<Entry>>, before: map<string, Bytes>, fault: Option<nat>,
                      hash: Bytes -> Digest, pieces: seq<Piece>, file: Bytes)
    requires ValidRow(l) && Importable(l, listing, before, fault)
    requires ArePieces(l, Listed(listing), |Listed(listing)|, hash, pieces) && PartsOf(l, Listed(listing), file)
    ensures U.Matches(Imported(l, before + Contents(Listed(listing), |Listed(listing)|), pieces), hash, file) <==>
      !(listing.None? && l.status.Completing?)
  {
    var es := Listed(listing);
    var u := Imported(l, before + Contents(es, |es|), pieces);
    U.ChunkCount(l.size, l.chunkSize);
    PiecesAreDistinct(l, es, before, hash, pieces);
    RowsAre(pieces);
    forall i | i in u.rows ensures RowIsRight(u, hash, file, i) {
      ImportedRow(l, es, before, hash, pieces, file, i);
    }
    RightRowsMatch(u, hash, file);
  }

  /** The exception can happen: the copying itself does not refuse it. */
  lemma LostDirectoryIsImported(hash: Bytes -> Digest)
    ensures var l := Legacy(1, 1, 0, None, U.Completing);
      && Importable(l, None, map[], None) && ArePieces(l, [], 0, hash, [])
      && !U.Sane(Imported(l, map[], []), hash)
  {
    U.ChunkCount(1, 1);
  }

  /** Whatever happens to an imported upload afterwards, a completion that succeeds yields the original file. */
  lemma ImportedReassembles(l: Legacy, listing: Option<seq<Entry>>, before: map<string, Bytes>, fault: Option<nat>,
                            hash: Bytes -> Digest,
                            pieces: seq<Piece>, file: Bytes, us: seq<U.Upload>, events: seq<U.Event>, k: nat)
    requires ValidRow(l) && Importable(l, listing, before, fault) && !(listing.None? && l.status.Completing?)
    requires ArePieces(l, Listed(listing), |Listed(listing)|, hash, pieces) && PartsOf(l, Listed(listing), file)
    requires U.Injective(hash) && U.Steps(us, hash, events)
    requires us[0] == Imported(l, before + Contents(Listed(listing), |Listed(listing)|), pieces)
    requires U.Honest(us, hash, events, file) && k < |events| && events[k].Completion?
    ensures us[k].chunkSize >= 1
    ensures var r := U.Finished(us[k], hash, events[k].late, events[k].finishFails).1; r.Ok? ==> r.value == file
  {
    ImportIsSound(l, listing, before, fault, hash, pieces, file);
    U.ReassembledFrom(us, hash, events, file, k);
  }
}
