/** What an encrypted archive consists of, byte by byte, and when a file is accepted, told without the two loops. */
module ArchiveMeaning {
  import opened Collections
  import opened EncryptedArchive

  // Numbers and text.

  /** Four bytes as a number, the most significant first. */
  function Number(a: int, b: int, c: int, d: int): int {
    a * 0x100_0000 + b * 0x1_0000 + c * 0x100 + d
  }

  lemma ValueMore(b: Bytes, n: nat)
    requires 0 < n <= |b|
    ensures Value(b[..n]) == Value(b[..n - 1]) * 256 + b[n - 1]
  {
    assert b[..n][..n - 1] == b[..n - 1];
  }

  lemma ValueOf4(b: Bytes)
    requires |b| >= 4
    ensures Value(b[..4]) == Number(b[0], b[1], b[2], b[3])
  {
    ValueMore(b, 4);
    ValueMore(b, 3);
    ValueMore(b, 2);
    ValueMore(b, 1);
  }

  lemma ValueOf8(b: Bytes)
    requires |b| == 8
    ensures Value(b) == Number(b[0], b[1], b[2], b[3]) * 0x1_0000_0000 + Number(b[4], b[5], b[6], b[7])
  {
    ValueOf4(b);
    ValueMore(b, 8);
    ValueMore(b, 7);
    ValueMore(b, 6);
    ValueMore(b, 5);
    assert b[..8] == b;
  }

  /** The four bytes of a length, most significant first. */
  lemma LengthBytes(n: nat)
    requires n < 0x1_0000_0000
    ensures var b := BigEndian(n, 4); n == Number(b[0], b[1], b[2], b[3])
  {
    var b := BigEndian(n, 4);
    Widths();
    ValueOfBigEndian(n, 4);
    ValueOf4(b);
    assert b[..4] == b;
  }

  /** A nonce has twelve bytes: the prefix of the archive, then the chunk number, most significant byte first. */
  lemma NonceBytes(prefix: Bytes, chunk: nat)
    requires |prefix| == 4 && chunk < 0x1_0000_0000_0000_0000
    ensures var b := Nonce(prefix, chunk);
      && |b| == 12 && b[..4] == prefix
      && chunk == Number(b[4], b[5], b[6], b[7]) * 0x1_0000_0000 + Number(b[8], b[9], b[10], b[11])
  {
    Widths();
    ValueOfBigEndian(chunk, 8);
    ValueOf8(BigEndian(chunk, 8));
  }

  /** Two lower-case digits a byte, the high half first. */
  lemma {:induction false} HexDigits(s: Bytes, i: nat)
    requires i < |s|
    ensures Hex(s)[2 * i] == "0123456789abcdef"[s[i] / 16] && Hex(s)[2 * i + 1] == "0123456789abcdef"[s[i] % 16]
    decreases i
  {
    if i > 0 {
      HexDigits(s[1..], i - 1);
    }
  }

  // The layout of an archive.

  /** Where chunk `k` of the plaintext begins, or its end. */
  function StartOf(plain: Bytes, k: nat): nat {
    if 4_194_304 * k < |plain| then 4_194_304 * k else |plain|
  }

  lemma {:induction false} RemainingIs(plain: Bytes, k: nat)
    ensures Remaining(plain, k) == plain[StartOf(plain, k)..]
    ensures Head(Remaining(plain, k)) == plain[StartOf(plain, k)..StartOf(plain, k + 1)]
    decreases k
  {
    if k > 0 {
      RemainingIs(plain, k - 1);
    }
  }

  /** And where it begins in the body: twenty bytes a chunk further. */
  function OffsetOf(plain: Bytes, k: nat): nat {
    StartOf(plain, k) + 20 * k
  }

  lemma {:induction false} BodyFrom(a: Aead, prefix: Bytes, header: Bytes, plain: Bytes, body: Bytes, k: nat)
    requires Correct(a) && StartsBefore(plain, k) && body == Encode(a, prefix, header, plain, 0)
    ensures OffsetOf(plain, k) <= |body|
    ensures body[OffsetOf(plain, k)..] == Encode(a, prefix, header, Remaining(plain, k), k)
    decreases k
  {
    if k == 0 {
      assert body[0..] == body;
    } else {
      BodyFrom(a, prefix, header, plain, body, k - 1);
      BodyNext(a, prefix, header, plain, body, k - 1);
    }
  }

  /** The chunk before number `k` is not empty. */
  predicate StartsBefore(plain: Bytes, k: nat) {
    k > 0 ==> 4_194_304 * (k - 1) < |plain|
  }

  lemma BodyNext(a: Aead, prefix: Bytes, header: Bytes, plain: Bytes, body: Bytes, k: nat)
    requires Correct(a) && StartsBefore(plain, k + 1) && OffsetOf(plain, k) <= |body|
    requires body[OffsetOf(plain, k)..] == Encode(a, prefix, header, Remaining(plain, k), k)
    ensures OffsetOf(plain, k + 1) <= |body|
    ensures body[OffsetOf(plain, k + 1)..] == Encode(a, prefix, header, Remaining(plain, k + 1), k + 1)
  {
    var rest := Remaining(plain, k);
    PieceSize(plain, k);
    assert Remaining(plain, k + 1) == Tail(rest);
    BodyStep(a, prefix, header, rest, k, body, OffsetOf(plain, k), OffsetOf(plain, k + 1));
  }

  lemma PieceSize(plain: Bytes, k: nat)
    requires 4_194_304 * k < |plain|
    ensures Remaining(plain, k) != [] && |Head(Remaining(plain, k))| == StartOf(plain, k + 1) - StartOf(plain, k)
  {
    RemainingIs(plain, k);
  }

  lemma BodyStep(a: Aead, prefix: Bytes, header: Bytes, rest: Bytes, k: nat, body: Bytes, m: nat, n: nat)
    requires Correct(a) && rest != [] && m <= |body| && body[m..] == Encode(a, prefix, header, rest, k)
    requires n == m + |Head(rest)| + 20
    ensures n <= |body| && body[n..] == Encode(a, prefix, header, Tail(rest), k + 1)
  {
    var frame := FirstFrame(a, prefix, header, rest, k);
    AfterFrame(body, m, frame, Encode(a, prefix, header, Tail(rest), k + 1));
  }

  lemma FirstFrame(a: Aead, prefix: Bytes, header: Bytes, rest: Bytes, k: nat) returns (frame: Bytes)
    requires Correct(a) && rest != []
    ensures |frame| == |Head(rest)| + 20
    ensures Encode(a, prefix, header, rest, k) == frame + Encode(a, prefix, header, Tail(rest), k + 1)
  {
    frame := Frame(a.seal(Nonce(prefix, k), Head(rest), header));
    SealedSize(a, Nonce(prefix, k), Head(rest), header);
  }

  lemma AfterFrame(body: Bytes, m: nat, frame: Bytes, more: Bytes)
    requires m <= |body| && body[m..] == frame + more
    ensures m + |frame| <= |body| && body[m + |frame|..] == more
  {
    assert body[m..][|frame|..] == body[m + |frame|..];
  }

  /** Chunk `k` of the body: four bytes of length, then the chunk's bytes of the plaintext sealed under the archive's
      prefix and the number `k`, at twenty bytes a chunk beyond where it stands in the plaintext. */
  lemma ChunkAt(a: Aead, prefix: Bytes, header: Bytes, plain: Bytes, k: nat)
    requires Correct(a) && 4_194_304 * k < |plain|
    ensures var body, piece := Encode(a, prefix, header, plain, 0), plain[StartOf(plain, k)..StartOf(plain, k + 1)];
      var sealed, n := a.seal(prefix + BigEndian(k, 8), piece, header), (4_194_304 + 20) * k;
      && |sealed| == |piece| + 16 && n + 4 + |sealed| <= |body|
      && body[n..n + 4] == BigEndian(|sealed|, 4) && body[n + 4..n + 4 + |sealed|] == sealed
      && (4_194_304 * (k + 1) >= |plain| ==> n + 4 + |sealed| == |body|)
  {
    RemainingIs(plain, k);
    var rest := Remaining(plain, k);
    var body, sealed, n := Encode(a, prefix, header, plain, 0), a.seal(Nonce(prefix, k), Head(rest), header),
      (4_194_304 + 20) * k;
    assert OffsetOf(plain, k) == n;
    BodyFrom(a, prefix, header, plain, body, k);
    SealedSize(a, Nonce(prefix, k), Head(rest), header);
    var more := Encode(a, prefix, header, Tail(rest), k + 1);
    assert body[n..] == Frame(sealed) + more;
    assert body[n..][..4] == BigEndian(|sealed|, 4) && body[n..][4..4 + |sealed|] == sealed;
  }

  /** The fixed parts in front: the magic line, and the header behind its length. */
  lemma FrontOf(a: Aead, prefix: Bytes, header: Bytes, plain: Bytes)
    ensures var file := Archive(a, prefix, header, plain);
      && |file| == 25 + |header| + |Encode(a, prefix, header, plain, 0)|
      && (forall i :: 0 <= i < 21 ==> file[i] == "XBOARD-GO-BACKUP-ENC\n"[i] as int)
      && file[21..25] == BigEndian(|header|, 4) && file[25..25 + |header|] == header
      && file[25 + |header|..] == Encode(a, prefix, header, plain, 0)
  {
    MagicText();
    var file, body := Archive(a, prefix, header, plain), Encode(a, prefix, header, plain, 0);
    assert file == MAGIC + (BigEndian(|header|, 4) + header + body);
    assert file[..21] == MAGIC && forall i :: 0 <= i < 21 ==> file[i] == MAGIC[i];
  }

  lemma MagicText()
    ensures |MAGIC| == 21 && forall i :: 0 <= i < 21 ==> MAGIC[i] == "XBOARD-GO-BACKUP-ENC\n"[i] as int
  {
  }

  // Accepted files.

  /** Chunks one after the other, each behind its length. */
  function Framed(cs: seq<Bytes>): Bytes {
    if cs == [] then [] else BigEndian(|cs[0]|, 4) + cs[0] + Framed(cs[1..])
  }

  /** Each chunk is longer than a tag, no longer than a full chunk with one, and opens under its own number. */
  predicate AllOpen(a: Aead, prefix: Bytes, header: Bytes, cs: seq<Bytes>, k: nat) {
    forall i :: 0 <= i < |cs| ==>
      16 < |cs[i]| <= 4_194_304 + 16 && a.open(prefix + BigEndian(k + i, 8), cs[i], header).Some?
  }

  function PlainOf(a: Aead, prefix: Bytes, header: Bytes, cs: seq<Bytes>, k: nat): Bytes
    requires AllOpen(a, prefix, header, cs, k)
  {
    if cs == [] then []
    else
      assert forall i :: 0 <= i < |cs| - 1 ==> cs[1..][i] == cs[i + 1] && (k + 1) + i == k + (i + 1);
      a.open(prefix + BigEndian(k + 0, 8), cs[0], header).value + PlainOf(a, prefix, header, cs[1..], k + 1)
  }

  /** The body is these chunks, and they open to `plain`. */
  ghost predicate Holds(a: Aead, prefix: Bytes, header: Bytes, body: Bytes, k: nat, plain: Bytes, cs: seq<Bytes>) {
    body == Framed(cs) && AllOpen(a, prefix, header, cs, k) && plain == PlainOf(a, prefix, header, cs, k)
  }

  lemma {:induction false} DecodedHolds(a: Aead, prefix: Bytes, header: Bytes, size: int, body: Bytes, k: nat,
                                        done: Bytes) returns (cs: seq<Bytes>, plain: Bytes)
    requires Decode(a, prefix, header, size, body, k, done).Ok?
    ensures Holds(a, prefix, header, body, k, plain, cs) && (cs == [] || |done| + |plain| <= size)
    ensures Decode(a, prefix, header, size, body, k, done) == Ok(done + plain)
    decreases |body|
  {
    if body == [] {
      cs, plain := [], [];
      assert done + plain == done;
    } else {
      var length := Value(body[..4]);
      var c, more := body[4..4 + length], body[4 + length..];
      var piece := a.open(Nonce(prefix, k), c, header).value;
      FrameIsUnique(body, length);
      var ds, rest := DecodedHolds(a, prefix, header, size, more, k + 1, done + piece);
      cs, plain := [c] + ds, piece + rest;
      HoldsMore(a, prefix, header, c, more, k, rest, ds);
      Associates(done, piece, rest);
    }
  }

  lemma Associates(a: Bytes, b: Bytes, c: Bytes)
    ensures a + b + c == a + (b + c)
  {
  }

  lemma HoldsMore(a: Aead, prefix: Bytes, header: Bytes, c: Bytes, more: Bytes, k: nat, rest: Bytes, ds: seq<Bytes>)
    requires Holds(a, prefix, header, more, k + 1, rest, ds)
    requires 16 < |c| <= 4_194_304 + 16 && a.open(Nonce(prefix, k), c, header).Some?
    ensures Holds(a, prefix, header, Frame(c) + more, k, a.open(Nonce(prefix, k), c, header).value + rest, [c] + ds)
  {
    var cs := [c] + ds;
    assert cs[1..] == ds;
    forall i | 0 <= i < |cs|
      ensures 16 < |cs[i]| <= 4_194_304 + 16 && a.open(prefix + BigEndian(k + i, 8), cs[i], header).Some?
    {
      if i > 0 {
        assert cs[i] == ds[i - 1] && k + i == k + 1 + (i - 1);
      }
    }
  }

  lemma {:induction false} HeldDecodes(a: Aead, prefix: Bytes, header: Bytes, size: int, body: Bytes, k: nat,
                                       done: Bytes, plain: Bytes, cs: seq<Bytes>)
    requires Holds(a, prefix, header, body, k, plain, cs) && (cs == [] || |done| + |plain| <= size)
    ensures Decode(a, prefix, header, size, body, k, done) == Ok(done + plain)
    decreases |cs|
  {
    if cs == [] {
      assert done + plain == done;
    } else {
      var c, ds := cs[0], cs[1..];
      var piece, rest := HeldFirst(a, prefix, header, k, plain, cs);
      DecodeStep(a, prefix, header, size, c, Framed(ds), k, done, piece);
      HeldDecodes(a, prefix, header, size, Framed(ds), k + 1, done + piece, rest, ds);
      Associates(done, piece, rest);
    }
  }

  lemma HeldFirst(a: Aead, prefix: Bytes, header: Bytes, k: nat, plain: Bytes, cs: seq<Bytes>)
    returns (piece: Bytes, rest: Bytes)
    requires cs != [] && AllOpen(a, prefix, header, cs, k) && plain == PlainOf(a, prefix, header, cs, k)
    ensures Framed(cs) == Frame(cs[0]) + Framed(cs[1..]) && 16 < |cs[0]| <= 4_194_304 + 16
    ensures a.open(Nonce(prefix, k), cs[0], header) == Some(piece) && plain == piece + rest
    ensures Holds(a, prefix, header, Framed(cs[1..]), k + 1, rest, cs[1..])
  {
    HeldRest(a, prefix, header, k, cs);
    assert Nonce(prefix, k) == prefix + BigEndian(k + 0, 8);
    piece := a.open(prefix + BigEndian(k + 0, 8), cs[0], header).value;
    rest := PlainOf(a, prefix, header, cs[1..], k + 1);
  }

  lemma HeldRest(a: Aead, prefix: Bytes, header: Bytes, k: nat, cs: seq<Bytes>)
    requires cs != [] && AllOpen(a, prefix, header, cs, k)
    ensures AllOpen(a, prefix, header, cs[1..], k + 1)
  {
    forall i | 0 <= i < |cs| - 1
      ensures 16 < |cs[1..][i]| <= 4_194_304 + 16
      ensures a.open(prefix + BigEndian(k + 1 + i, 8), cs[1..][i], header).Some?
    {
      assert cs[1..][i] == cs[i + 1] && k + 1 + i == k + (i + 1);
    }
  }

  /** What the manifest says that its own check can tell. */
  predicate Sensible(m: Manifest) {
    && m.version == 1 && m.algorithm == "AES-256-GCM-CHUNKED-SHA256" && m.kdf == "direct-32-byte-key"
    && m.chunkSize == 4_194_304 && 0 < m.plaintextSize <= 68_719_476_736
    && |m.plaintextSHA256| == 64 && (forall c :: c in m.plaintextSHA256 ==> '0' <= c <= '9' || 'a' <= c <= 'f')
    && Unhex(m.noncePrefix).Some? && |Unhex(m.noncePrefix).value| == 4
  }

  /** The file is the magic line, a header of this manifest behind its length, and chunks that open to the plaintext
      which the manifest describes. */
  ghost predicate IsArchive(tools: Tools, file: Bytes, m: Manifest, plain: Bytes, header: Bytes, cs: seq<Bytes>) {
    && 25 < |file| <= 68_719_476_736 + 16_385 * 20 + 65_536 + 25
    && file == MAGIC + BigEndian(|header|, 4) + header + Framed(cs)
    && 0 < |header| <= 65_536 && tools.codec.decode(header) == Some(m) && Sensible(m)
    && Holds(tools.aead, Unhex(m.noncePrefix).value, header, Framed(cs), 0, plain, cs)
    && |plain| == m.plaintextSize && Hex(tools.sha256(plain)) == m.plaintextSHA256
  }

  /** Exactly when a file is accepted, and what it then gives. */
  lemma DecryptMeans(tools: Tools, file: Bytes, m: Manifest, plain: Bytes)
    ensures Decrypt(tools, file) == Ok((m, plain)) <==>
      exists header, cs :: IsArchive(tools, file, m, plain, header, cs)
  {
    if Decrypt(tools, file) == Ok((m, plain)) {
      AcceptedIsArchive(tools, file, m, plain);
    }
    forall header, cs | IsArchive(tools, file, m, plain, header, cs)
      ensures Decrypt(tools, file) == Ok((m, plain))
    {
      ArchiveIsAccepted(tools, file, m, plain, header, cs);
    }
  }

  lemma Limits()
    ensures |MAGIC| == 21 && MAX_ENCRYPTED == 68_719_476_736 + 16_385 * 20 + 65_536 + 25
  {
  }

  lemma SensibleIsValid(m: Manifest)
    ensures Sensible(m) <==> ValidManifest(m)
  {
  }

  lemma AcceptedIsArchive(tools: Tools, file: Bytes, m: Manifest, plain: Bytes)
    requires Decrypt(tools, file) == Ok((m, plain))
    ensures exists header, cs :: IsArchive(tools, file, m, plain, header, cs)
  {
    var o := ReadHeader(tools.codec, file).value;
    Limits();
    SensibleIsValid(m);
    HeaderIsUnique(tools.codec, file);
    HeaderLength(tools.codec, file);
    var cs, out := DecodedHolds(tools.aead, Unhex(m.noncePrefix).value, o.header, m.plaintextSize, o.body, 0, []);
    assert [] + out == out;
    Grouped(o.header, cs);
    assert IsArchive(tools, file, m, plain, o.header, cs);
  }

  lemma Grouped(header: Bytes, cs: seq<Bytes>)
    ensures MAGIC + Frame(header) + Framed(cs) == MAGIC + BigEndian(|header|, 4) + header + Framed(cs)
  {
    assert MAGIC + Frame(header) == MAGIC + BigEndian(|header|, 4) + header;
  }

  lemma HeaderLength(codec: Codec, file: Bytes)
    requires ReadHeader(codec, file).Ok?
    ensures 0 < |ReadHeader(codec, file).value.header| <= 65_536
  {
  }

  lemma ArchiveIsAccepted(tools: Tools, file: Bytes, m: Manifest, plain: Bytes, header: Bytes, cs: seq<Bytes>)
    requires IsArchive(tools, file, m, plain, header, cs)
    ensures Decrypt(tools, file) == Ok((m, plain))
  {
    Limits();
    SensibleIsValid(m);
    HeaderReads(tools.codec, header, m, Framed(cs));
    Grouped(header, cs);
    HeldDecodes(tools.aead, Unhex(m.noncePrefix).value, header, m.plaintextSize, Framed(cs), 0, [], plain, cs);
    assert [] + plain == plain;
    DecryptOf(tools, file, m, plain, header, Framed(cs));
  }

  lemma DecryptOf(tools: Tools, file: Bytes, m: Manifest, plain: Bytes, header: Bytes, body: Bytes)
    requires |MAGIC| + 4 < |file| <= MAX_ENCRYPTED && ReadHeader(tools.codec, file) == Ok(Opened(header, m, body))
    requires ValidManifest(m) && |plain| == m.plaintextSize && Hex(tools.sha256(plain)) == m.plaintextSHA256
    requires Decode(tools.aead, Unhex(m.noncePrefix).value, header, m.plaintextSize, body, 0, []) == Ok(plain)
    ensures Decrypt(tools, file) == Ok((m, plain))
  {
  }
}
