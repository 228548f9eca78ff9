/** The encrypted backup archive: a magic line, a length-prefixed manifest, and the plaintext cut
    into chunks, each sealed under a counter nonce with the manifest as associated data and framed
    by its length. The cipher, the hash and the manifest's JSON form are parameters; framing, nonces,
    sizes and both loops are concrete. */
module EncryptedArchive {
  import opened Collections


  const MAGIC: Bytes := [88, 66, 79, 65, 82, 68, 45, 71, 79, 45, 66, 65, 67, 75, 85, 80, 45, 69, 78, 67, 10]
  const FORMAT_VERSION := 1
  const ALGORITHM := "AES-256-GCM-CHUNKED-SHA256"
  const KDF := "direct-32-byte-key"
  const CHUNK_SIZE := 4_194_304
  const MAX_HEADER := 65_536
  const OVERHEAD := 16
  const MAX_ARCHIVE := 68_719_476_736
  const MAX_ENCRYPTED := MAX_ARCHIVE + (MAX_ARCHIVE / CHUNK_SIZE + 1) * (OVERHEAD + 4) + MAX_HEADER + |MAGIC| + 4

  // Big-endian integers. A value too wide for its field is truncated, as a conversion to uint32 is.

  function Pow256(width: nat): nat {
    if width == 0 then 1 else 256 * Pow256(width - 1)
  }

  function BigEndian(n: nat, width: nat): (s: Bytes)
    ensures |s| == width
  {
    if width == 0 then [] else BigEndian(n / 256, width - 1) + [n % 256]
  }

  function Value(s: Bytes): nat {
    if s == [] then 0 else Value(s[..|s| - 1]) * 256 + s[|s| - 1]
  }

  lemma {:induction false} ValueOfBigEndian(n: nat, width: nat)
    requires n < Pow256(width)
    ensures Value(BigEndian(n, width)) == n
    decreases width
  {
    if width > 0 {
      ValueOfBigEndian(n / 256, width - 1);
      var s := BigEndian(n, width);
      assert s[..|s| - 1] == BigEndian(n / 256, width - 1);
    }
  }

  lemma {:induction false} BigEndianOfValue(s: Bytes)
    ensures BigEndian(Value(s), |s|) == s
    ensures Value(s) < Pow256(|s|)
    decreases |s|
  {
    if s != [] {
      var front := s[..|s| - 1];
      BigEndianOfValue(front);
      assert Value(s) / 256 == Value(front) && Value(s) % 256 == s[|s| - 1];
      assert s == front + [s[|s| - 1]];
    }
  }

  lemma Widths()
    ensures Pow256(4) == 0x1_0000_0000 && Pow256(8) == 0x1_0000_0000_0000_0000
  {
    assert Pow256(2) == 65_536;
    assert Pow256(4) == 0x1_0000_0000;
    assert Pow256(6) == 0x1_0000_0000_0000;
  }

  /** Four bytes of prefix and a 64-bit chunk counter. */
  function Nonce(prefix: Bytes, chunk: nat): Bytes {
    prefix + BigEndian(chunk, 8)
  }

  /** Chunk counters below 2^64 never share a nonce. */
  lemma NonceInjective(prefix: Bytes, i: nat, j: nat)
    requires i < 0x1_0000_0000_0000_0000 && j < 0x1_0000_0000_0000_0000 && Nonce(prefix, i) == Nonce(prefix, j)
    ensures i == j
  {
    Widths();
    assert Nonce(prefix, i)[|prefix|..] == BigEndian(i, 8) && Nonce(prefix, j)[|prefix|..] == BigEndian(j, 8);
    ValueOfBigEndian(i, 8);
    ValueOfBigEndian(j, 8);
  }

  // Lower-case hexadecimal.

  const DIGITS := "0123456789abcdef"

  function Hex(s: Bytes): (t: string)
    ensures |t| == 2 * |s|
  {
    if s == [] then [] else [DIGITS[s[0] / 16], DIGITS[s[0] % 16]] + Hex(s[1..])
  }

  function Digit(c: char): Option<int> {
    if '0' <= c <= '9' then Some(c as int - '0' as int)
    else if 'a' <= c <= 'f' then Some(c as int - 'a' as int + 10)
    else if 'A' <= c <= 'F' then Some(c as int - 'A' as int + 10)
    else None
  }

  function Unhex(t: string): Option<Bytes> {
    if t == [] then Some([])
    else if |t| == 1 || Digit(t[0]).None? || Digit(t[1]).None? || Unhex(t[2..]).None? then None
    else
      var high, low := Digit(t[0]).value, Digit(t[1]).value;
      Some([high * 16 + low] + Unhex(t[2..]).value)
  }

  lemma {:induction false} UnhexOfHex(s: Bytes)
    ensures Unhex(Hex(s)) == Some(s)
    decreases |s|
  {
    if s != [] {
      UnhexOfHex(s[1..]);
      UnhexMore(s[0], Hex(s[1..]), s[1..]);
      assert s == [s[0]] + s[1..];
    }
  }

  lemma UnhexMore(b: Byte, t: string, s: Bytes)
    requires Unhex(t) == Some(s)
    ensures Unhex([DIGITS[b / 16], DIGITS[b % 16]] + t) == Some([b] + s)
  {
    DigitOfDigits(b / 16);
    DigitOfDigits(b % 16);
    assert ([DIGITS[b / 16], DIGITS[b % 16]] + t)[2..] == t;
  }

  lemma DigitOfDigits(d: int)
    requires 0 <= d < 16
    ensures Digit(DIGITS[d]) == Some(d)
  {
  }

  // The parameters.

  datatype Aead = Aead(seal: (Bytes, Bytes, Bytes) -> Bytes, open: (Bytes, Bytes, Bytes) -> Option<Bytes>)

  /** What is assumed of the cipher: opening undoes sealing, and a tag of fixed size is added. */
  ghost predicate Correct(a: Aead) {
    && (forall n, p, h :: a.open(n, a.seal(n, p, h), h) == Some(p))
    && (forall n, c, h :: a.open(n, c, h).Some? ==> |a.open(n, c, h).value| + OVERHEAD == |c|)
  }

  lemma SealedSize(a: Aead, n: Bytes, p: Bytes, h: Bytes)
    requires Correct(a)
    ensures |a.seal(n, p, h)| == |p| + OVERHEAD
  {
    assert a.open(n, a.seal(n, p, h), h) == Some(p);
  }

  datatype Manifest = Manifest(version: int, algorithm: string, kdf: string, chunkSize: int, plaintextSize: int,
                               plaintextSHA256: string, noncePrefix: string)

  datatype Codec = Codec(encode: Manifest -> Bytes, decode: Bytes -> Option<Manifest>)

  datatype Tools = Tools(aead: Aead, sha256: Bytes -> Bytes, codec: Codec)

  predicate LowerHex(t: string) {
    forall c :: c in t ==> '0' <= c <= '9' || 'a' <= c <= 'f'
  }

  predicate ValidManifest(m: Manifest) {
    && m.version == FORMAT_VERSION && m.algorithm == ALGORITHM && m.kdf == KDF && m.chunkSize == CHUNK_SIZE
    && 0 < m.plaintextSize <= MAX_ARCHIVE
    && |m.plaintextSHA256| == 64 && LowerHex(m.plaintextSHA256)
    && Unhex(m.noncePrefix).Some? && |Unhex(m.noncePrefix).value| == 4
  }

  // Writing.

  function Frame(ciphertext: Bytes): Bytes {
    BigEndian(|ciphertext|, 4) + ciphertext
  }

  function Head(rest: Bytes): (p: Bytes)
    ensures rest != [] ==> p != []
  {
    if |rest| <= CHUNK_SIZE then rest else rest[..CHUNK_SIZE]
  }

  function Tail(rest: Bytes): (t: Bytes)
    ensures Head(rest) + t == rest
  {
    if |rest| <= CHUNK_SIZE then [] else rest[CHUNK_SIZE..]
  }

  /** The body of an archive from chunk number `chunk` on. */
  function Encode(a: Aead, prefix: Bytes, header: Bytes, rest: Bytes, chunk: nat): Bytes
    decreases |rest|
  {
    if rest == [] then []
    else Frame(a.seal(Nonce(prefix, chunk), Head(rest), header)) + Encode(a, prefix, header, Tail(rest), chunk + 1)
  }

  function Archive(a: Aead, prefix: Bytes, header: Bytes, plain: Bytes): Bytes {
    MAGIC + Frame(header) + Encode(a, prefix, header, plain, 0)
  }

  // Reading.

  /** The reader loop: what it has written so far is `done`. */
  function Decode(a: Aead, prefix: Bytes, header: Bytes, size: int, body: Bytes, chunk: nat,
                  done: Bytes): Result<Bytes, string>
    decreases |body|
  {
    if body == [] then Ok(done)
    else if |body| < 4 then Err("read encrypted backup chunk length")
    else
      var length := Value(body[..4]);
      if length <= OVERHEAD || length > CHUNK_SIZE + OVERHEAD then Err("encrypted backup chunk size is invalid")
      else if |body| < 4 + length then Err("read encrypted backup chunk")
      else
        var plain := a.open(Nonce(prefix, chunk), body[4..4 + length], header);
        if plain.None? then Err("decrypt encrypted backup chunk")
        else if |done| > size - |plain.value| then Err("encrypted backup plaintext exceeds the manifest size")
        else Decode(a, prefix, header, size, body[4 + length..], chunk + 1, done + plain.value)
  }

  datatype Opened = Opened(header: Bytes, manifest: Manifest, body: Bytes)

  function ReadHeader(codec: Codec, file: Bytes): Result<Opened, string> {
    var m := |MAGIC|;
    if |file| < m || file[..m] != MAGIC then Err("encrypted backup magic is invalid")
    else if |file| < m + 4 then Err("read encrypted backup header length")
    else
      var length := Value(file[m..m + 4]);
      if length == 0 || length > MAX_HEADER then Err("encrypted backup header size is invalid")
      else if |file| < m + 4 + length then Err("read encrypted backup header")
      else
        var header := file[m + 4..m + 4 + length];
        var manifest := codec.decode(header);
        if manifest.None? then Err("decode encrypted backup header")
        else Ok(Opened(header, manifest.value, file[m + 4 + length..]))
  }

  function Finish(tools: Tools, m: Manifest, r: Result<Bytes, string>): Result<(Manifest, Bytes), string> {
    match r
    case Err(e) => Err(e)
    case Ok(plain) =>
      if |plain| != m.plaintextSize || Hex(tools.sha256(plain)) != m.plaintextSHA256
      then Err("decrypted backup archive does not match encrypted metadata")
      else Ok((m, plain))
  }

  function Decrypt(tools: Tools, file: Bytes): Result<(Manifest, Bytes), string> {
    if |file| <= |MAGIC| + 4 || |file| > MAX_ENCRYPTED
    then Err("encrypted backup archive must be within the size limit")
    else
      match ReadHeader(tools.codec, file)
      case Err(e) => Err(e)
      case Ok(o) =>
        if !ValidManifest(o.manifest) then Err("invalid manifest")
        else
          var prefix := Unhex(o.manifest.noncePrefix).value;
          Finish(tools, o.manifest, Decode(tools.aead, prefix, o.header, o.manifest.plaintextSize, o.body, 0, []))
  }

  // The loops.

  method SealChunk(a: Aead, prefix: Bytes, header: Bytes, piece: Bytes, chunk: nat) returns (frame: Bytes)
    requires Correct(a) && |piece| <= CHUNK_SIZE
    ensures frame == Frame(a.seal(Nonce(prefix, chunk), piece, header))
    ensures |frame| == 4 + |piece| + OVERHEAD && Value(frame[..4]) == |piece| + OVERHEAD
    ensures a.open(Nonce(prefix, chunk), frame[4..], header) == Some(piece)
  {
    var ciphertext := a.seal(Nonce(prefix, chunk), piece, header);
    SealedSize(a, Nonce(prefix, chunk), piece, header);
    assert |ciphertext| <= CHUNK_SIZE + OVERHEAD;
    frame := BigEndian(|ciphertext|, 4);
    frame := frame + ciphertext;
    FrameReads(ciphertext, []);
    assert frame == Frame(ciphertext) + [];
    assert frame[4..] == frame[4..4 + |ciphertext|];
  }

  /** The writer loop: full chunks until a short or empty read ends the file. */
  method WriteChunks(a: Aead, prefix: Bytes, header: Bytes, plain: Bytes) returns (body: Bytes)
    requires Correct(a)
    ensures body == Encode(a, prefix, header, plain, 0)
  {
    body := [];
    var position, chunk, eof := 0, 0, false;
    assert plain[0..] == plain;
    while !eof
      invariant 0 <= position <= |plain| && (eof ==> position == |plain|)
      invariant body + Encode(a, prefix, header, plain[position..], chunk) == Encode(a, prefix, header, plain, 0)
      decreases |plain| - position, !eof
    {
      var read := if |plain| - position < CHUNK_SIZE then |plain| - position else CHUNK_SIZE;
      eof := read < CHUNK_SIZE;
      if read > 0 {
        var piece := plain[position..position + read];
        PieceSplits(plain, position, read);
        EncodeStep(a, prefix, header, plain[position..], chunk, body);
        var frame := SealChunk(a, prefix, header, piece, chunk);
        body := body + frame;
        position, chunk := position + read, chunk + 1;
      }
    }
    assert plain[position..] == [];
  }

  lemma PieceSplits(plain: Bytes, position: nat, read: nat)
    requires position <= |plain|
    requires read == if |plain| - position < CHUNK_SIZE then |plain| - position else CHUNK_SIZE
    ensures plain[position..position + read] == Head(plain[position..])
    ensures plain[position + read..] == Tail(plain[position..])
  {
  }

  method WriteEncryptedArchive(a: Aead, prefix: Bytes, header: Bytes, plain: Bytes) returns (output: Bytes)
    requires Correct(a)
    ensures output == Archive(a, prefix, header, plain)
  {
    output := MAGIC;
    output := output + BigEndian(|header|, 4);
    output := output + header;
    assert output == MAGIC + Frame(header);
    var body := WriteChunks(a, prefix, header, plain);
    output := output + body;
  }

  lemma EncodeStep(a: Aead, prefix: Bytes, header: Bytes, rest: Bytes, chunk: nat, body: Bytes)
    requires rest != []
    ensures body + Encode(a, prefix, header, rest, chunk) ==
      body + Frame(a.seal(Nonce(prefix, chunk), Head(rest), header)) + Encode(a, prefix, header, Tail(rest), chunk + 1)
  {
  }

  /** One framed chunk, opened; `next` is where the one after it begins. */
  method ReadChunk(a: Aead, prefix: Bytes, header: Bytes, size: int, body: Bytes, position: nat, chunk: nat, total: nat,
                   ghost done: Bytes)
    returns (r: Result<Bytes, string>, next: nat)
    requires position < |body| && total == |done|
    ensures r.Err? ==> Decode(a, prefix, header, size, body[position..], chunk, done) == Err(r.error)
    ensures r.Ok? ==> position < next <= |body|
    ensures r.Ok? ==> Decode(a, prefix, header, size, body[position..], chunk, done)
                      == Decode(a, prefix, header, size, body[next..], chunk + 1, done + r.value)
  {
    next := position;
    var rest := body[position..];
    if |rest| < 4 {
      return Err("read encrypted backup chunk length"), next;
    }
    var length := Value(rest[..4]);
    if length <= OVERHEAD || length > CHUNK_SIZE + OVERHEAD {
      return Err("encrypted backup chunk size is invalid"), next;
    }
    if |rest| < 4 + length {
      return Err("read encrypted backup chunk"), next;
    }
    var piece := a.open(Nonce(prefix, chunk), rest[4..4 + length], header);
    if piece.None? {
      return Err("decrypt encrypted backup chunk"), next;
    }
    if total > size - |piece.value| {
      return Err("encrypted backup plaintext exceeds the manifest size"), next;
    }
    next := position + 4 + length;
    r := Ok(piece.value);
  }

  /** The reader loop over the framed chunks. */
  method ReadChunks(a: Aead, prefix: Bytes, header: Bytes, size: int, body: Bytes) returns (r: Result<Bytes, string>)
    ensures r == Decode(a, prefix, header, size, body, 0, [])
  {
    var position, chunk, total := 0, 0, 0;
    var plain: Bytes := [];
    assert body[0..] == body;
    while position < |body|
      invariant 0 <= position <= |body| && total == |plain|
      invariant Decode(a, prefix, header, size, body[position..], chunk, plain) ==
        Decode(a, prefix, header, size, body, 0, [])
    {
      var piece, next := ReadChunk(a, prefix, header, size, body, position, chunk, total, plain);
      if piece.Err? {
        return Err(piece.error);
      }
      plain, total := plain + piece.value, total + |piece.value|;
      position, chunk := next, chunk + 1;
    }
    assert body[position..] == [];
    r := Ok(plain);
  }

  method DecryptToPath(tools: Tools, file: Bytes) returns (r: Result<(Manifest, Bytes), string>)
    ensures r == Decrypt(tools, file)
  {
    if |file| <= |MAGIC| + 4 || |file| > MAX_ENCRYPTED {
      return Err("encrypted backup archive must be within the size limit");
    }
    var start := ReadHeader(tools.codec, file);
    if start.Err? {
      return Err(start.error);
    }
    var m := start.value.manifest;
    if !ValidManifest(m) {
      return Err("invalid manifest");
    }
    var plain := ReadChunks(tools.aead, Unhex(m.noncePrefix).value, start.value.header, m.plaintextSize,
      start.value.body);
    r := Finish(tools, m, plain);
  }

  function ManifestFor(tools: Tools, plain: Bytes, prefix: Bytes): Manifest {
    Manifest(FORMAT_VERSION, ALGORITHM, KDF, CHUNK_SIZE, |plain|, Hex(tools.sha256(plain)), Hex(prefix))
  }

  /** Encrypting a plaintext archive under a fresh four-byte nonce prefix. */
  method Encrypt(tools: Tools, plain: Bytes, prefix: Bytes) returns (r: Result<Bytes, string>)
    requires Correct(tools.aead) && |prefix| == 4
    ensures r.Ok? <==> 0 < |plain| <= MAX_ARCHIVE && Writable(tools, plain, prefix)
    ensures var m := ManifestFor(tools, plain, prefix);
      r.Ok? ==> r.value == Archive(tools.aead, prefix, tools.codec.encode(m), plain)
  {
    if |plain| == 0 || |plain| > MAX_ARCHIVE {
      return Err("plaintext backup archive must be within the size limit");
    }
    var m := ManifestFor(tools, plain, prefix);
    if !ValidManifest(m) {
      return Err("invalid manifest");
    }
    var header := tools.codec.encode(m);
    if |header| == 0 || |header| > MAX_HEADER {
      return Err("encrypted backup header exceeds the supported limit");
    }
    var output := WriteEncryptedArchive(tools.aead, prefix, header, plain);
    r := Ok(output);
  }

  /** The manifest is valid and its encoding fits the header. */
  predicate Writable(tools: Tools, plain: Bytes, prefix: Bytes) {
    var m := ManifestFor(tools, plain, prefix);
    ValidManifest(m) && 0 < |tools.codec.encode(m)| <= MAX_HEADER
  }

  // Round trip.

  lemma FrameReads(ciphertext: Bytes, more: Bytes)
    requires |ciphertext| < 0x1_0000_0000
    ensures var body := Frame(ciphertext) + more;
      && |body| >= 4 + |ciphertext| && Value(body[..4]) == |ciphertext|
      && body[4..4 + |ciphertext|] == ciphertext && body[4 + |ciphertext|..] == more
  {
    Widths();
    ValueOfBigEndian(|ciphertext|, 4);
    assert (Frame(ciphertext) + more)[..4] == BigEndian(|ciphertext|, 4);
  }

  lemma DecodeStep(a: Aead, prefix: Bytes, header: Bytes, size: int, c: Bytes, more: Bytes, chunk: nat, done: Bytes,
                   p: Bytes)
    requires OVERHEAD < |c| <= CHUNK_SIZE + OVERHEAD && a.open(Nonce(prefix, chunk), c, header) == Some(p)
    requires |done| + |p| <= size
    ensures Decode(a, prefix, header, size, Frame(c) + more, chunk, done) ==
      Decode(a, prefix, header, size, more, chunk + 1, done + p)
  {
    FrameReads(c, more);
  }

  /** The reader recovers exactly what the writer consumed, whatever the length of the last chunk. */
  lemma {:induction false} DecodeOfEncode(a: Aead, prefix: Bytes, header: Bytes, size: int, rest: Bytes, chunk: nat,
                                          done: Bytes)
    requires Correct(a) && size == |done| + |rest|
    ensures Decode(a, prefix, header, size, Encode(a, prefix, header, rest, chunk), chunk, done) == Ok(done + rest)
    decreases |rest|
  {
    if rest == [] {
      assert done + rest == done;
    } else {
      var c := a.seal(Nonce(prefix, chunk), Head(rest), header);
      var more := Encode(a, prefix, header, Tail(rest), chunk + 1);
      SealedSize(a, Nonce(prefix, chunk), Head(rest), header);
      assert a.open(Nonce(prefix, chunk), c, header) == Some(Head(rest));
      DecodeStep(a, prefix, header, size, c, more, chunk, done, Head(rest));
      DecodeOfEncode(a, prefix, header, size, Tail(rest), chunk + 1, done + Head(rest));
      Regroup(done, rest);
    }
  }

  lemma Regroup(done: Bytes, rest: Bytes)
    ensures done + Head(rest) + Tail(rest) == done + rest
  {
  }

  function Chunks(rest: Bytes): nat
    decreases |rest|
  {
    if rest == [] then 0 else 1 + Chunks(Tail(rest))
  }

  lemma {:induction false} EncodedSize(a: Aead, prefix: Bytes, header: Bytes, rest: Bytes, chunk: nat)
    requires Correct(a)
    ensures |Encode(a, prefix, header, rest, chunk)| == |rest| + Chunks(rest) * (OVERHEAD + 4)
    decreases |rest|
  {
    if rest != [] {
      SealedSize(a, Nonce(prefix, chunk), Head(rest), header);
      EncodedSize(a, prefix, header, Tail(rest), chunk + 1);
    }
  }

  lemma {:induction false} ChunksBound(rest: Bytes)
    ensures Chunks(rest) <= |rest| / CHUNK_SIZE + 1
    ensures Chunks(rest) * CHUNK_SIZE < |rest| + CHUNK_SIZE
    decreases |rest|
  {
    if rest != [] {
      ChunksBound(Tail(rest));
    }
  }

  /** What the writer writes is never longer than what the decoder admits. */
  lemma ArchiveFits(a: Aead, prefix: Bytes, header: Bytes, plain: Bytes)
    requires Correct(a) && |plain| <= MAX_ARCHIVE && |header| <= MAX_HEADER
    ensures |Archive(a, prefix, header, plain)| <= MAX_ENCRYPTED
  {
    EncodedSize(a, prefix, header, plain, 0);
    ChunksBound(plain);
    SizesFit(|plain|, Chunks(plain), |header|);
  }

  lemma SizesFit(size: nat, chunks: nat, header: nat)
    requires size <= MAX_ARCHIVE && chunks <= size / CHUNK_SIZE + 1 && header <= MAX_HEADER
    ensures |MAGIC| + 4 + header + (size + chunks * (OVERHEAD + 4)) <= MAX_ENCRYPTED
  {
  }

  lemma SliceOfDrop(s: Bytes, n: nat, i: nat, j: nat)
    requires i <= j && n + j <= |s|
    ensures s[n..][i..j] == s[n + i..n + j]
  {
  }

  lemma HeaderReads(codec: Codec, header: Bytes, m: Manifest, body: Bytes)
    requires 0 < |header| <= MAX_HEADER && codec.decode(header) == Some(m)
    ensures ReadHeader(codec, MAGIC + Frame(header) + body) == Ok(Opened(header, m, body))
  {
    var file := MAGIC + Frame(header) + body;
    FrameReads(header, body);
    assert file == MAGIC + (Frame(header) + body);
    assert file[..|MAGIC|] == MAGIC;
    assert file[|MAGIC|..] == Frame(header) + body;
    SliceOfDrop(file, |MAGIC|, 0, 4);
    SliceOfDrop(file, |MAGIC|, 4, 4 + |header|);
    SliceOfDrop(file, |MAGIC|, 4 + |header|, |file| - |MAGIC|);
  }

  /** Decrypting an encrypted archive gives back the plaintext and its manifest, for every nonempty
      plaintext within the limit. */
  lemma RoundTrip(tools: Tools, plain: Bytes, prefix: Bytes)
    requires Correct(tools.aead) && |prefix| == 4 && 0 < |plain| <= MAX_ARCHIVE && Writable(tools, plain, prefix)
    requires var m := ManifestFor(tools, plain, prefix); tools.codec.decode(tools.codec.encode(m)) == Some(m)
    ensures var m := ManifestFor(tools, plain, prefix);
      Decrypt(tools, Archive(tools.aead, prefix, tools.codec.encode(m), plain)) == Ok((m, plain))
  {
    var m := ManifestFor(tools, plain, prefix);
    var header := tools.codec.encode(m);
    UnhexOfHex(prefix);
    ArchiveFits(tools.aead, prefix, header, plain);
    HeaderReads(tools.codec, header, m, Encode(tools.aead, prefix, header, plain, 0));
    DecodeOfEncode(tools.aead, prefix, header, |plain|, plain, 0, []);
    assert [] + plain == plain;
  }

  // Exact-sequence decoding.

  /** What is left of the plaintext before chunk number `k`. */
  function Remaining(plain: Bytes, k: nat): Bytes {
    if k == 0 then plain else Tail(Remaining(plain, k - 1))
  }

  lemma {:induction false} RemainingShrinks(plain: Bytes, k: nat)
    requires Remaining(plain, k) != []
    ensures k + |Remaining(plain, k)| <= |plain|
    decreases k
  {
    if k > 0 {
      RemainingShrinks(plain, k - 1);
    }
  }

  ghost predicate OwnChunk(a: Aead, prefix: Bytes, header: Bytes, plain: Bytes, i: nat, nonce: Bytes, c: Bytes) {
    Remaining(plain, i) != [] && nonce == Nonce(prefix, i) && c == a.seal(nonce, Head(Remaining(plain, i)), header)
  }

  ghost predicate Within(c: Bytes, whole: Bytes) {
    exists i, j :: 0 <= i <= j <= |whole| && whole[i..j] == c
  }

  /** Authenticity: of what the file holds nothing opens under the header `h` and the nonces of prefix `p` but the
      chunks the encoder sealed for its one archive. Whoever lacks the key cannot put anything else there that does.
      Other headers and nonces do not matter, and nothing is said of them. */
  ghost predicate OnlyOwnChunks(a: Aead, prefix: Bytes, header: Bytes, plain: Bytes, file: Bytes, p: Bytes, h: Bytes) {
    forall k: nat, c :: k <= MAX_ARCHIVE && Within(c, file) && a.open(Nonce(p, k), c, h).Some? ==>
      h == header && exists i :: OwnChunk(a, prefix, header, plain, i, Nonce(p, k), c)
  }

  ghost predicate Suffix(s: Bytes, whole: Bytes) {
    |s| <= |whole| && whole[|whole| - |s|..] == s
  }

  lemma SuffixHolds(s: Bytes, whole: Bytes, i: nat, j: nat)
    requires Suffix(s, whole) && i <= j <= |s|
    ensures Within(s[i..j], whole) && Suffix(s[i..], whole)
  {
    var n := |whole| - |s|;
    SliceOfDrop(whole, n, i, j);
    SliceOfDrop(whole, n, i, |s|);
    assert whole[n + i..n + j] == s[i..j] && whole[n + i..] == s[i..];
  }

  /** By injectivity of the counter nonce, chunk `k` of an accepted body is the encoder's chunk `k`. */
  lemma AcceptedIsOwn(a: Aead, prefix: Bytes, header: Bytes, plain: Bytes, file: Bytes, k: nat, c: Bytes)
    requires Correct(a) && OnlyOwnChunks(a, prefix, header, plain, file, prefix, header)
    requires Within(c, file) && |plain| <= MAX_ARCHIVE && k <= MAX_ARCHIVE
    requires a.open(Nonce(prefix, k), c, header).Some?
    ensures Remaining(plain, k) != [] && c == a.seal(Nonce(prefix, k), Head(Remaining(plain, k)), header)
    ensures a.open(Nonce(prefix, k), c, header) == Some(Head(Remaining(plain, k)))
  {
    var i :| OwnChunk(a, prefix, header, plain, i, Nonce(prefix, k), c);
    RemainingShrinks(plain, i);
    NonceInjective(prefix, i, k);
  }

  lemma FrameIsUnique(body: Bytes, length: nat)
    requires 4 + length <= |body| && Value(body[..4]) == length
    ensures body == Frame(body[4..4 + length]) + body[4 + length..]
  {
    BigEndianOfValue(body[..4]);
    assert body == body[..4] + body[4..4 + length] + body[4 + length..];
  }

  /** The body is read to its end without a complaint, and gives as many bytes as announced. */
  ghost predicate Accepts(a: Aead, prefix: Bytes, header: Bytes, size: int, body: Bytes, k: nat, done: Bytes) {
    var r := Decode(a, prefix, header, size, body, k, done);
    r.Ok? && |r.value| == size
  }

  /** An accepted body that is not empty starts with a whole frame that opens, and its rest is accepted. */
  lemma AcceptedFrame(a: Aead, prefix: Bytes, header: Bytes, size: int, body: Bytes, k: nat, done: Bytes)
    returns (c: Bytes, more: Bytes)
    requires body != [] && Accepts(a, prefix, header, size, body, k, done)
    ensures body == Frame(c) + more && |more| < |body|
    ensures var piece := a.open(Nonce(prefix, k), c, header);
      piece.Some? && Accepts(a, prefix, header, size, more, k + 1, done + piece.value)
  {
    var length := Value(body[..4]);
    c, more := body[4..4 + length], body[4 + length..];
    FrameIsUnique(body, length);
  }

  lemma FrameWithin(c: Bytes, more: Bytes, file: Bytes)
    requires Suffix(Frame(c) + more, file)
    ensures Within(c, file) && Suffix(more, file)
  {
    var body := Frame(c) + more;
    SuffixHolds(body, file, 4, 4 + |c|);
    SuffixHolds(body, file, 4 + |c|, 4 + |c|);
    assert body[4..4 + |c|] == c && body[4 + |c|..] == more;
  }

  /** The first frame of an accepted body is the encoder's next chunk. */
  lemma AcceptedStep(a: Aead, prefix: Bytes, header: Bytes, plain: Bytes, file: Bytes, body: Bytes, k: nat, done: Bytes)
    requires Correct(a) && OnlyOwnChunks(a, prefix, header, plain, file, prefix, header)
    requires Suffix(body, file) && |plain| <= MAX_ARCHIVE && k <= MAX_ARCHIVE
    requires body != [] && Accepts(a, prefix, header, |plain|, body, k, done)
    ensures Remaining(plain, k) != [] && exists more :: Continues(a, prefix, header, plain, file, body, k, done, more)
  {
    var c, more := AcceptedFrame(a, prefix, header, |plain|, body, k, done);
    FrameWithin(c, more, file);
    AcceptedIsOwn(a, prefix, header, plain, file, k, c);
    assert Continues(a, prefix, header, plain, file, body, k, done, more);
  }

  /** The body is the encoder's chunk `k` followed by `more`, which is accepted in its turn. */
  ghost predicate Continues(a: Aead, prefix: Bytes, header: Bytes, plain: Bytes, file: Bytes, body: Bytes, k: nat,
                            done: Bytes, more: Bytes) {
    var piece := Head(Remaining(plain, k));
    && |more| < |body| && Suffix(more, file) && body == Frame(a.seal(Nonce(prefix, k), piece, header)) + more
    && Accepts(a, prefix, header, |plain|, more, k + 1, done + piece)
  }

  /** An accepted body is the encoder's: nothing was reordered, repeated, dropped or cut off. */
  lemma {:induction false} ExactBody(a: Aead, prefix: Bytes, header: Bytes, plain: Bytes, file: Bytes, body: Bytes,
                                     k: nat, done: Bytes)
    requires Correct(a) && OnlyOwnChunks(a, prefix, header, plain, file, prefix, header)
    requires Suffix(body, file) && |plain| <= MAX_ARCHIVE
    requires done + Remaining(plain, k) == plain && k <= |done|
    requires Accepts(a, prefix, header, |plain|, body, k, done)
    ensures body == Encode(a, prefix, header, Remaining(plain, k), k)
    decreases |body|
  {
    if body == [] {
      assert Encode(a, prefix, header, [], k) == [];
    } else {
      AcceptedStep(a, prefix, header, plain, file, body, k, done);
      var more :| Continues(a, prefix, header, plain, file, body, k, done, more);
      NextPiece(plain, k, done);
      ExactBody(a, prefix, header, plain, file, more, k + 1, done + Head(Remaining(plain, k)));
      assert Remaining(plain, k + 1) == Tail(Remaining(plain, k));
    }
  }

  lemma NextPiece(plain: Bytes, k: nat, done: Bytes)
    requires done + Remaining(plain, k) == plain && k <= |done| && Remaining(plain, k) != []
    ensures done + Head(Remaining(plain, k)) + Remaining(plain, k + 1) == plain
    ensures k + 1 <= |done + Head(Remaining(plain, k))|
  {
    Regroup(done, Remaining(plain, k));
  }

  lemma HeaderIsUnique(codec: Codec, file: Bytes)
    requires ReadHeader(codec, file).Ok?
    ensures var o := ReadHeader(codec, file).value;
      file == MAGIC + Frame(o.header) + o.body && codec.decode(o.header) == Some(o.manifest)
  {
    var m := |MAGIC|;
    var length := Value(file[m..m + 4]);
    SliceOfDrop(file, m, 0, 4);
    SliceOfDrop(file, m, 4, 4 + length);
    SliceOfDrop(file, m, 4 + length, |file| - m);
    Framed(file, length);
  }

  lemma Framed(file: Bytes, length: nat)
    requires var m := |MAGIC|; m + 4 + length <= |file| && file[..m] == MAGIC && Value(file[m..][..4]) == length
    ensures var rest := file[|MAGIC|..]; file == MAGIC + Frame(rest[4..4 + length]) + rest[4 + length..]
  {
    var rest := file[|MAGIC|..];
    FrameIsUnique(rest, length);
    assert file == MAGIC + rest;
  }

  /** If nothing in a file opens under the header and the prefix it carries itself but what the encoder sealed, whatever
      decrypts is the encoder's archive, byte for byte, and gives its plaintext. */
  lemma ExactArchive(tools: Tools, plain: Bytes, prefix: Bytes, file: Bytes)
    requires Correct(tools.aead) && |prefix| == 4 && 0 < |plain| <= MAX_ARCHIVE
    requires var m := ManifestFor(tools, plain, prefix); tools.codec.decode(tools.codec.encode(m)) == Some(m)
    requires Decrypt(tools, file).Ok?
    requires var m, o := ManifestFor(tools, plain, prefix), ReadHeader(tools.codec, file).value;
      var p := Unhex(o.manifest.noncePrefix).value;
      OnlyOwnChunks(tools.aead, prefix, tools.codec.encode(m), plain, file, p, o.header)
    ensures var m := ManifestFor(tools, plain, prefix);
      && file == Archive(tools.aead, prefix, tools.codec.encode(m), plain)
      && Decrypt(tools, file) == Ok((m, plain))
  {
    var m := ManifestFor(tools, plain, prefix);
    var header := tools.codec.encode(m);
    var o := ReadHeader(tools.codec, file).value;
    var p := Unhex(o.manifest.noncePrefix).value;
    HeaderIsUnique(tools.codec, file);
    FirstChunkOpens(tools.aead, p, o.header, o.manifest.plaintextSize, file, o.body);
    assert o.header == header && o.manifest == m;
    UnhexOfHex(prefix);
    ExactBody(tools.aead, prefix, header, plain, file, o.body, 0, []);
    DecodeOfEncode(tools.aead, prefix, header, |plain|, plain, 0, []);
  }

  /** A nonempty result needs at least one chunk that opens under its own header. */
  lemma FirstChunkOpens(a: Aead, prefix: Bytes, header: Bytes, size: int, file: Bytes, body: Bytes)
    requires Suffix(body, file)
    requires var r := Decode(a, prefix, header, size, body, 0, []); r.Ok? && r.value != []
    ensures exists c :: Within(c, file) && a.open(Nonce(prefix, 0), c, header).Some?
  {
    assert body != [];
    var length := Value(body[..4]);
    SuffixHolds(body, file, 4, 4 + length);
    assert a.open(Nonce(prefix, 0), body[4..4 + length], header).Some?;
  }

  // The assumptions can be met together: a cipher with one tag for one sealed message and another for all the rest.

  const TOY_PREFIX: Bytes := [0, 0, 0, 0]
  const TOY_HEADER: Bytes := [1]

  function ToyTag(n: Bytes, p: Bytes, h: Bytes): (tag: Bytes)
    ensures |tag| == OVERHEAD
  {
    seq(OVERHEAD, i => if n == Nonce(TOY_PREFIX, 0) && p == [0] && h == TOY_HEADER then 1 else 2)
  }

  function ToySeal(n: Bytes, p: Bytes, h: Bytes): Bytes {
    p + ToyTag(n, p, h)
  }

  function ToyOpen(n: Bytes, c: Bytes, h: Bytes): Option<Bytes> {
    if |c| < OVERHEAD then None
    else
      var p := c[..|c| - OVERHEAD];
      if c == ToySeal(n, p, h) then Some(p) else None
  }

  const TOY_CIPHER := Aead(ToySeal, ToyOpen)

  function ToyDigest(s: Bytes): (digest: Bytes) {
    seq(32, i => 0)
  }

  /** The manifest of the one plaintext, and the one header that decodes to it. */
  function ToyManifest(): Manifest {
    Manifest(FORMAT_VERSION, ALGORITHM, KDF, CHUNK_SIZE, 1, Hex(ToyDigest([0])), Hex(TOY_PREFIX))
  }

  function ToyDecode(header: Bytes): Option<Manifest> {
    if header == TOY_HEADER then Some(ToyManifest()) else None
  }

  lemma ToyIsCorrect()
    ensures Correct(TOY_CIPHER)
  {
    forall n, p, h ensures ToyOpen(n, ToySeal(n, p, h), h) == Some(p) {
      assert ToySeal(n, p, h)[..|p|] == p;
    }
  }

  lemma {:induction false} HexOfZeros(s: Bytes)
    requires forall i :: 0 <= i < |s| ==> s[i] == 0
    ensures LowerHex(Hex(s))
  {
    if s != [] {
      HexOfZeros(s[1..]);
    }
  }

  lemma ToyManifestIsValid()
    ensures ValidManifest(ToyManifest())
  {
    HexOfZeros(ToyDigest([0]));
    UnhexOfHex(TOY_PREFIX);
  }

  lemma ToyFrames()
    ensures 2 !in Frame(TOY_HEADER) && 2 !in Frame(ToySeal(Nonce(TOY_PREFIX, 0), [0], TOY_HEADER))
  {
    assert BigEndian(1, 4) == [0, 0, 0, 1];
    assert BigEndian(17, 4) == [0, 0, 0, 17];
    assert 2 !in ToyTag(Nonce(TOY_PREFIX, 0), [0], TOY_HEADER);
  }

  lemma ToyFile(file: Bytes)
    requires file == Archive(TOY_CIPHER, TOY_PREFIX, TOY_HEADER, [0])
    ensures 2 !in file
  {
    var front, rear := Frame(TOY_HEADER), Frame(ToySeal(Nonce(TOY_PREFIX, 0), [0], TOY_HEADER));
    ToyFrames();
    assert Encode(TOY_CIPHER, TOY_PREFIX, TOY_HEADER, [0], 0) == rear;
    assert file == MAGIC + front + rear;
  }

  lemma ToyOpensOne(n: Bytes, c: Bytes, h: Bytes)
    requires ToyOpen(n, c, h).Some? && 2 !in c
    ensures n == Nonce(TOY_PREFIX, 0) && h == TOY_HEADER && c == ToySeal(n, [0], h)
  {
    var tag := ToyTag(n, c[..|c| - OVERHEAD], h);
    assert tag[0] in tag && tag[0] in c;
  }

  lemma ToyOpensItsOwn(file: Bytes)
    requires 2 !in file
    ensures OnlyOwnChunks(TOY_CIPHER, TOY_PREFIX, TOY_HEADER, [0], file, TOY_PREFIX, TOY_HEADER)
  {
    forall k: nat, c | Within(c, file) && ToyOpen(Nonce(TOY_PREFIX, k), c, TOY_HEADER).Some?
      ensures OwnChunk(TOY_CIPHER, TOY_PREFIX, TOY_HEADER, [0], 0, Nonce(TOY_PREFIX, k), c)
    {
      var i, j :| 0 <= i <= j <= |file| && file[i..j] == c;
      assert forall b :: b in c ==> b in file;
      ToyOpensOne(Nonce(TOY_PREFIX, k), c, TOY_HEADER);
    }
  }

  /** There are tools, a plaintext and an accepted file that meet everything the exactness theorem asks for. */
  lemma AssumptionsCanBeMet() returns (tools: Tools, plain: Bytes, prefix: Bytes, file: Bytes)
    ensures Correct(tools.aead) && |prefix| == 4 && 0 < |plain| <= MAX_ARCHIVE
    ensures var m := ManifestFor(tools, plain, prefix); tools.codec.decode(tools.codec.encode(m)) == Some(m)
    ensures Decrypt(tools, file).Ok?
    ensures var m, o := ManifestFor(tools, plain, prefix), ReadHeader(tools.codec, file).value;
      var p := Unhex(o.manifest.noncePrefix).value;
      OnlyOwnChunks(tools.aead, prefix, tools.codec.encode(m), plain, file, p, o.header)
  {
    tools := Tools(TOY_CIPHER, ToyDigest, Codec(m => TOY_HEADER, ToyDecode));
    plain, prefix, file := [0], TOY_PREFIX, Archive(TOY_CIPHER, TOY_PREFIX, TOY_HEADER, [0]);
    ToyIsCorrect();
    ToyManifestIsValid();
    ToyFile(file);
    ToyOpensItsOwn(file);
    assert ManifestFor(tools, plain, prefix) == ToyManifest();
    RoundTrip(tools, plain, prefix);
    HeaderReads(tools.codec, TOY_HEADER, ToyManifest(), Encode(TOY_CIPHER, TOY_PREFIX, TOY_HEADER, [0], 0));
    UnhexOfHex(TOY_PREFIX);
  }
}
