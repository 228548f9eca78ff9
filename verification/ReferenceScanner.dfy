/** Attachment references in article text. A reference is the scheme, in any case, followed by a
    UUID and then the end of the text, white space or a closing delimiter; anything else after the
    scheme makes the whole text invalid. Texts are sequences of code points. */
module ReferenceScanner {
  import opened Collections

  const SCHEME := "knowledge-attachment://"
  const SCHEME_LENGTH := 23
  const UUID_LENGTH := 36
  const SPAN := SCHEME_LENGTH + UUID_LENGTH

  predicate Ascii(c: char) {
    (c as int) < 128
  }

  function Utf8Length(c: char): nat {
    if c as int < 0x80 then 1 else if c as int < 0x800 then 2 else if c as int < 0x1_0000 then 3 else 4
  }

  /** By how many bytes lower-casing makes a character longer. */
  function Growth(lower: char -> char, c: char): int {
    Utf8Length(lower(c)) - Utf8Length(c)
  }

  function TotalGrowth(lower: char -> char, s: string): int {
    if s == "" then 0 else Growth(lower, s[0]) + TotalGrowth(lower, s[1..])
  }

  /** Unicode lower-casing, which makes no ASCII character out of another one and, up to the first thing that is no
      reference, neither lengthens nor shortens in total what precedes an occurrence. The scan needs this: it uses byte
      offsets found in the lowered text on the text itself. */
  ghost predicate KeepsPositions(lower: char -> char, body: string) {
    && (forall c: char :: Ascii(c) ==> lower(c) == LowerChar(c))
    && (forall i :: 0 <= i < |body| && !Ascii(body[i]) ==> !Ascii(lower(body[i])))
    && (forall i :: 0 <= i < |body| && Met(body, i) ==> TotalGrowth(lower, body[..i]) == 0)
  }

  /** An occurrence that the scan comes to: all before it are references. */
  predicate Met(body: string, i: int) {
    Occurs(body, i) && forall j :: 0 <= j < i && Occurs(body, j) ==> WellFormed(body, j)
  }

  function LowerChar(c: char): char {
    if 'A' <= c <= 'Z' then (c as int - 'A' as int + 'a' as int) as char else c
  }

  function Lower(s: string): (r: string)
    ensures |r| == |s| && forall i :: 0 <= i < |s| ==> r[i] == LowerChar(s[i])
  {
    seq(|s|, i requires 0 <= i < |s| => LowerChar(s[i]))
  }

  predicate HexDigit(c: char) {
    '0' <= c <= '9' || 'a' <= c <= 'f' || 'A' <= c <= 'F'
  }

  predicate Dash(i: int) {
    i == 8 || i == 13 || i == 18 || i == 23
  }

  /** A UUID of the RFC 4122 variant (section 4.1.1), version 1 to 5 (section 4.1.3). */
  predicate ValidUuid(id: string) {
    && |id| == UUID_LENGTH
    && (forall i :: 0 <= i < |id| ==> if Dash(i) then id[i] == '-' else HexDigit(id[i]))
    && '1' <= id[14] <= '5'
    && id[19] in "89abAB"
  }

  /** White space as Unicode defines it. */
  predicate Space(c: char) {
    var n := c as int;
    9 <= n <= 13 || n in {0x20, 0x85, 0xA0, 0x1680, 0x2028, 0x2029, 0x202F, 0x205F, 0x3000} || 0x2000 <= n <= 0x200A
  }

  /** White space, or one of the closing delimiters. */
  predicate Terminator(c: char) {
    Space(c) || c in ")]}>\"'"
  }

  predicate Occurs(body: string, i: int) {
    0 <= i && i + SCHEME_LENGTH <= |body| && Lower(body)[i..i + SCHEME_LENGTH] == SCHEME
  }

  predicate WellFormed(body: string, i: int) {
    && 0 <= i && i + SPAN <= |body|
    && ValidUuid(body[i + SCHEME_LENGTH..i + SPAN])
    && (i + SPAN < |body| ==> Terminator(body[i + SPAN]))
  }

  /** Every occurrence of the scheme, wherever it starts, introduces a reference. */
  predicate AllWellFormed(body: string) {
    forall i :: 0 <= i < |body| && Occurs(body, i) ==> WellFormed(body, i)
  }

  function IdAt(body: string, i: int): string
    requires 0 <= i && i + SPAN <= |body|
  {
    Lower(body[i + SCHEME_LENGTH..i + SPAN])
  }

  /** The canonical identifiers of the occurrences that start before `n`, in order. */
  function Ids(body: string, n: nat): seq<string>
    requires n <= |body|
  {
    if n == 0 then []
    else if Occurs(body, n - 1) && WellFormed(body, n - 1) then Ids(body, n - 1) + [IdAt(body, n - 1)]
    else Ids(body, n - 1)
  }

  /** Each value once, where it was first used. */
  function Distinct(ids: seq<string>): (r: seq<string>)
    ensures forall x :: x in r <==> x in ids
    ensures forall i, j :: 0 <= i < j < |r| ==> r[i] != r[j]
  {
    if ids == [] then []
    else
      var n := |ids| - 1;
      var before := Distinct(ids[..n]);
      assert forall x :: x in ids <==> x in ids[..n] || x == ids[n];
      if ids[n] in before then before else before + [ids[n]]
  }

  predicate Inside(body: string, j: int) {
    exists i :: j - SPAN < i <= j && Occurs(body, i)
  }

  /** The text with every reference in canonical lower case, and nothing else changed. */
  function Normalized(body: string): (r: string)
    ensures |r| == |body|
    ensures forall j :: 0 <= j < |body| ==> r[j] == if Inside(body, j) then LowerChar(body[j]) else body[j]
  {
    seq(|body|, j requires 0 <= j < |body| => if Inside(body, j) then LowerChar(body[j]) else body[j])
  }

  function References(body: string): seq<string> {
    Distinct(Ids(body, |body|))
  }

  // No occurrence can start inside another one.

  lemma OccursAt(body: string, i: int, j: int)
    requires Occurs(body, i) && 0 <= j < SCHEME_LENGTH
    ensures LowerChar(body[i + j]) == SCHEME[j]
  {
    assert Lower(body)[i..i + SCHEME_LENGTH][j] == Lower(body)[i + j];
  }

  lemma UuidHasNoK(id: string, j: int)
    requires ValidUuid(id) && 0 <= j < |id|
    ensures LowerChar(id[j]) != 'k'
  {
    assert id[j] == '-' || HexDigit(id[j]);
  }

  /** The scheme has one `k`, at its start, and an identifier has none. */
  lemma NoOccurrenceInside(body: string, i: int, j: int)
    requires Occurs(body, i) && WellFormed(body, i) && i < j < i + SPAN
    ensures !Occurs(body, j)
  {
    if j < i + SCHEME_LENGTH {
      OccursAt(body, i, j - i);
      SchemeHasOneK(j - i);
    } else {
      UuidHasNoK(body[i + SCHEME_LENGTH..i + SPAN], j - i - SCHEME_LENGTH);
    }
    assert LowerChar(body[j]) != SCHEME[0];
    if Occurs(body, j) {
      OccursAt(body, j, 0);
      assert false;
    }
  }

  lemma SchemeHasOneK(d: int)
    requires 0 <= d < SCHEME_LENGTH
    ensures SCHEME[d] == 'k' <==> d == 0
    ensures LowerChar(SCHEME[d]) == SCHEME[d]
  {
    assert forall e :: 1 <= e < SCHEME_LENGTH ==> SCHEME[e] != 'k';
    assert forall e :: 0 <= e < SCHEME_LENGTH ==> !('A' <= SCHEME[e] <= 'Z');
  }

  // Facts the scan relies on.

  lemma {:induction false} IdsSkip(body: string, m: nat, n: nat)
    requires m <= n <= |body| && forall i :: m <= i < n ==> !Occurs(body, i)
    ensures Ids(body, n) == Ids(body, m)
    decreases n
  {
    if m < n {
      IdsSkip(body, m, n - 1);
    }
  }

  /** Passing one reference adds exactly its identifier. */
  lemma IdsPass(body: string, cursor: nat, start: nat)
    requires cursor <= start && Occurs(body, start) && WellFormed(body, start)
    requires forall i :: cursor <= i < start ==> !Occurs(body, i)
    ensures Ids(body, start + SPAN) == Ids(body, cursor) + [IdAt(body, start)]
  {
    IdsSkip(body, cursor, start);
    forall i | start + 1 <= i < start + SPAN ensures !Occurs(body, i) {
      NoOccurrenceInside(body, start, i);
    }
    IdsSkip(body, start + 1, start + SPAN);
  }

  lemma DistinctStep(ids: seq<string>, id: string)
    ensures Distinct(ids + [id]) == if id in ids then Distinct(ids) else Distinct(ids) + [id]
  {
    assert (ids + [id])[..|ids|] == ids;
  }

  ghost function DistinctCount(body: string, n: nat): nat
    requires n <= |body|
  {
    |Distinct(Ids(body, n))|
  }

  lemma {:induction false} DistinctGrows(body: string, m: nat, n: nat)
    requires m <= n <= |body|
    ensures DistinctCount(body, m) <= DistinctCount(body, n)
    decreases n
  {
    if m < n {
      DistinctGrows(body, m, n - 1);
    }
  }

  /** Everything before the cursor is settled: no reference reaches past it, and all are well formed. */
  ghost predicate Settled(body: string, cursor: nat) {
    forall i :: 0 <= i < cursor && Occurs(body, i) ==> WellFormed(body, i) && i + SPAN <= cursor
  }

  lemma GapIsPlain(body: string, cursor: nat, start: nat)
    requires cursor <= start <= |body| && Settled(body, cursor) && forall i :: cursor <= i < start ==> !Occurs(body, i)
    ensures Normalized(body)[cursor..start] == body[cursor..start]
  {
    forall j | cursor <= j < start ensures !Inside(body, j) {
    }
  }

  lemma ReferenceIsLower(body: string, start: nat)
    requires Occurs(body, start) && WellFormed(body, start)
    ensures Normalized(body)[start..start + SPAN] == SCHEME + IdAt(body, start)
  {
    var n := Normalized(body);
    forall j | 0 <= j < SPAN ensures n[start + j] == (SCHEME + IdAt(body, start))[j] {
      assert Inside(body, start + j);
      if j < SCHEME_LENGTH {
        OccursAt(body, start, j);
      } else {
        assert body[start + SCHEME_LENGTH..start + SPAN][j - SCHEME_LENGTH] == body[start + j];
      }
    }
    assert n[start..start + SPAN] == SCHEME + IdAt(body, start);
  }

  function Mapped(lower: char -> char, s: string): (r: string)
    ensures |r| == |s| && forall i :: 0 <= i < |s| ==> r[i] == lower(s[i])
  {
    seq(|s|, i requires 0 <= i < |s| => lower(s[i]))
  }

  /** The scheme as a search of lowered text finds it. */
  predicate Found(lowered: string, i: int) {
    0 <= i && i + SCHEME_LENGTH <= |lowered| && lowered[i..i + SCHEME_LENGTH] == SCHEME
  }

  /** Only ASCII text can match the scheme, so the lowered text shows exactly the occurrences. */
  lemma FoundIffOccurs(body: string, lower: char -> char, i: nat)
    requires KeepsPositions(lower, body)
    ensures Occurs(body, i) <==> Found(Mapped(lower, body), i)
  {
    if i + SCHEME_LENGTH <= |body| {
      var a, b := Mapped(lower, body)[i..i + SCHEME_LENGTH], Lower(body)[i..i + SCHEME_LENGTH];
      forall j | 0 <= j < SCHEME_LENGTH ensures a[j] == SCHEME[j] <==> b[j] == SCHEME[j] {
        assert Ascii(SCHEME[j]);
        assert a[j] == lower(body[i + j]) && b[j] == LowerChar(body[i + j]);
      }
      assert a == SCHEME <==> forall j :: 0 <= j < SCHEME_LENGTH ==> a[j] == SCHEME[j];
      assert b == SCHEME <==> forall j :: 0 <= j < SCHEME_LENGTH ==> b[j] == SCHEME[j];
    }
  }

  lemma NothingBetween(body: string, lower: char -> char, cursor: nat, n: nat)
    requires KeepsPositions(lower, body) && forall k :: cursor <= k < n ==> !Found(Mapped(lower, body), k)
    ensures forall k :: cursor <= k < n ==> !Occurs(body, k)
  {
    forall k | cursor <= k < n ensures !Occurs(body, k) {
      FoundIffOccurs(body, lower, k);
    }
  }

  /** The first occurrence of the scheme at or after the cursor. */
  method IndexFrom(body: string, lowered: string, ghost lower: char -> char, cursor: nat) returns (r: Option<nat>)
    requires cursor <= |body| && KeepsPositions(lower, body) && lowered == Mapped(lower, body)
    ensures r.None? ==> forall i :: cursor <= i < |body| ==> !Occurs(body, i)
    ensures r.Some? ==>
      cursor <= r.value && Occurs(body, r.value) && forall i :: cursor <= i < r.value ==> !Occurs(body, i)
  {
    r := Index(lowered, cursor);
    NothingBetween(body, lower, cursor, if r.Some? then r.value else |body|);
    if r.Some? {
      FoundIffOccurs(body, lower, r.value);
    }
  }

  method Index(lowered: string, cursor: nat) returns (r: Option<nat>)
    requires cursor <= |lowered|
    ensures r.None? ==> forall i :: cursor <= i < |lowered| ==> !Found(lowered, i)
    ensures r.Some? ==>
      cursor <= r.value && Found(lowered, r.value) && forall i :: cursor <= i < r.value ==> !Found(lowered, i)
  {
    for i := cursor to |lowered|
      invariant forall k :: cursor <= k < i ==> !Found(lowered, k)
    {
      if Found(lowered, i) {
        return Some(i);
      }
    }
    r := None;
  }

  /** The canonical form of an identifier, if it is a UUID the service accepts. */
  function Canonical(id: string): (r: Option<string>)
    ensures r.Some? <==> ValidUuid(id)
    ensures r.Some? ==> r.value == Lower(id) && ValidUuid(r.value)
  {
    if ValidUuid(id) then
      LowerKeepsUuid(id);
      Some(Lower(id))
    else None
  }

  lemma LowerKeepsUuid(id: string)
    requires ValidUuid(id)
    ensures ValidUuid(Lower(id)) && Lower(Lower(id)) == Lower(id)
  {
  }

  /** Checks the identifier after an occurrence, and what follows it. */
  method ReadReference(body: string, start: nat) returns (r: Option<string>)
    requires Occurs(body, start)
    ensures r.Some? <==> WellFormed(body, start)
    ensures r.Some? ==> r.value == IdAt(body, start)
  {
    var first := start + SCHEME_LENGTH;
    var end := first + UUID_LENGTH;
    if end > |body| {
      return None;
    }
    var canonical := Canonical(body[first..end]);
    if canonical.None? {
      return None;
    }
    if end < |body| && !Terminator(body[end]) {
      return None;
    }
    r := canonical;
  }

  /** The scan succeeds exactly on texts in which every occurrence of the scheme is a reference and the
      distinct references are within the maximum; it then returns the canonical text and the distinct
      identifiers in first-use order. */
  method ParseKnowledgeReferences(body: string, maximum: int,
                                  lower: char -> char) returns (r: Option<(string, seq<string>)>)
    requires KeepsPositions(lower, body)
    ensures r.Some? <==> maximum >= 1 && AllWellFormed(body) && |References(body)| <= maximum
    ensures r.Some? ==> r.value == (Normalized(body), References(body))
  {
    if maximum < 1 {
      return None;
    }
    var lowered := Mapped(lower, body);
    var text: string, references: seq<string>, seen: set<string> := [], [], {};
    var cursor := 0;
    while true
      invariant 0 <= cursor <= |body| && Settled(body, cursor)
      invariant text == Normalized(body)[..cursor]
      invariant references == Distinct(Ids(body, cursor)) && |references| <= maximum
      invariant forall id :: id in seen <==> id in references
      decreases |body| - cursor
    {
      var found := IndexFrom(body, lowered, lower, cursor);
      if found.None? {
        LastStep(body, cursor);
        text := text + body[cursor..];
        break;
      }
      var start := found.value;
      var id := ReadReference(body, start);
      if id.None? {
        assert Occurs(body, start) && !WellFormed(body, start);
        return None;
      }
      PassText(body, cursor, start);
      PassList(body, cursor, start);
      SettledPast(body, cursor, start);
      text := text + body[cursor..start];
      text := text + (SCHEME + id.value);
      if id.value !in seen {
        seen := seen + {id.value};
        references := references + [id.value];
        if |references| > maximum {
          DistinctGrows(body, start + SPAN, |body|);
          return None;
        }
      }
      cursor := start + SPAN;
    }
    r := Some((text, references));
  }

  /** What one pass of the loop adds to the text. */
  lemma PassText(body: string, cursor: nat, start: nat)
    requires Settled(body, cursor) && cursor <= start && Occurs(body, start) && WellFormed(body, start)
    requires forall i :: cursor <= i < start ==> !Occurs(body, i)
    ensures Normalized(body)[..start + SPAN] ==
      Normalized(body)[..cursor] + body[cursor..start] + (SCHEME + IdAt(body, start))
  {
    GapIsPlain(body, cursor, start);
    ReferenceIsLower(body, start);
    SplitThree(Normalized(body), cursor, start, start + SPAN);
  }

  lemma SplitThree(s: string, i: nat, j: nat, k: nat)
    requires i <= j <= k <= |s|
    ensures s[..k] == s[..i] + s[i..j] + s[j..k]
  {
  }

  /** What it adds to the list. */
  lemma PassList(body: string, cursor: nat, start: nat)
    requires cursor <= start && Occurs(body, start) && WellFormed(body, start)
    requires forall i :: cursor <= i < start ==> !Occurs(body, i)
    ensures var id := IdAt(body, start); var before := Distinct(Ids(body, cursor));
      Distinct(Ids(body, start + SPAN)) == if id in before then before else before + [id]
  {
    IdsPass(body, cursor, start);
    DistinctStep(Ids(body, cursor), IdAt(body, start));
  }

  lemma LastStep(body: string, cursor: nat)
    requires cursor <= |body| && Settled(body, cursor) && forall i :: cursor <= i < |body| ==> !Occurs(body, i)
    ensures AllWellFormed(body) && References(body) == Distinct(Ids(body, cursor))
    ensures Normalized(body) == Normalized(body)[..cursor] + body[cursor..]
  {
    IdsSkip(body, cursor, |body|);
    LastText(body, cursor);
  }

  lemma LastText(body: string, cursor: nat)
    requires cursor <= |body| && Settled(body, cursor) && forall i :: cursor <= i < |body| ==> !Occurs(body, i)
    ensures Normalized(body) == Normalized(body)[..cursor] + body[cursor..]
  {
    GapIsPlain(body, cursor, |body|);
    SplitThree(Normalized(body), cursor, |body|, |body|);
    assert body[cursor..] == body[cursor..|body|];
  }

  lemma SettledPast(body: string, cursor: nat, start: nat)
    requires Settled(body, cursor) && cursor <= start && Occurs(body, start) && WellFormed(body, start)
    requires forall i :: cursor <= i < start ==> !Occurs(body, i)
    ensures Settled(body, start + SPAN)
  {
    forall i | start < i < start + SPAN ensures !Occurs(body, i) {
      NoOccurrenceInside(body, start, i);
    }
  }

  // Scanning the result again changes nothing.

  lemma LowerOfNormalized(body: string)
    ensures Lower(Normalized(body)) == Lower(body)
    ensures forall i :: Occurs(Normalized(body), i) <==> Occurs(body, i)
  {
  }

  lemma NormalizedIsSettled(body: string, i: int)
    requires Occurs(body, i) && WellFormed(body, i) && AllWellFormed(body)
    ensures WellFormed(Normalized(body), i) && IdAt(Normalized(body), i) == IdAt(body, i)
  {
    var n := Normalized(body);
    var id := body[i + SCHEME_LENGTH..i + SPAN];
    var id' := n[i + SCHEME_LENGTH..i + SPAN];
    LowerKeepsUuid(id);
    forall j | 0 <= j < UUID_LENGTH ensures id'[j] == Lower(id)[j] {
      assert Inside(body, i + SCHEME_LENGTH + j);
    }
    assert id' == Lower(id);
    if i + SPAN < |body| {
    }
  }

  lemma {:induction false} NormalizedIds(body: string, n: nat)
    requires AllWellFormed(body) && n <= |body|
    ensures Ids(Normalized(body), n) == Ids(body, n)
    decreases n
  {
    if n > 0 {
      NormalizedIds(body, n - 1);
      LowerOfNormalized(body);
      if Occurs(body, n - 1) {
        NormalizedIsSettled(body, n - 1);
      }
    }
  }

  /** The result of a successful scan is itself scanned successfully, to the same text and list. */
  lemma ScanIsIdempotent(body: string, maximum: int, lower: char -> char)
    requires KeepsPositions(lower, body) && maximum >= 1 && AllWellFormed(body) && |References(body)| <= maximum
    ensures var n := Normalized(body);
      && KeepsPositions(lower, n) && AllWellFormed(n) && |References(n)| <= maximum
      && Normalized(n) == n && References(n) == References(body)
  {
    var n := Normalized(body);
    LowerOfNormalized(body);
    forall i | 0 <= i < |n| && Occurs(n, i) ensures WellFormed(n, i) {
      NormalizedIsSettled(body, i);
    }
    NormalizedIds(body, |body|);
    forall j | 0 <= j < |n| ensures Normalized(n)[j] == n[j] {
      assert Inside(n, j) ==> Inside(body, j);
    }
    NormalizedKeepsPositions(body, lower);
  }

  lemma NormalizedKeepsPositions(body: string, lower: char -> char)
    requires KeepsPositions(lower, body) && AllWellFormed(body)
    ensures KeepsPositions(lower, Normalized(body))
  {
    var n := Normalized(body);
    LowerOfNormalized(body);
    forall i | 0 <= i < |n| && Met(n, i) ensures TotalGrowth(lower, n[..i]) == 0 {
      assert Met(body, i);
      forall j | 0 <= j < i ensures Growth(lower, n[..i][j]) == Growth(lower, body[..i][j]) {
        assert n[..i][j] == n[j] && body[..i][j] == body[j];
      }
      SameGrowth(lower, n[..i], body[..i]);
    }
  }

  lemma {:induction false} SameGrowth(lower: char -> char, s: string, t: string)
    requires |s| == |t| && forall i :: 0 <= i < |s| ==> Growth(lower, s[i]) == Growth(lower, t[i])
    ensures TotalGrowth(lower, s) == TotalGrowth(lower, t)
  {
    if s != "" {
      SameGrowth(lower, s[1..], t[1..]);
    }
  }

  /** Every listed identifier is a canonical UUID. */
  lemma ReferencesAreCanonical(body: string, id: string)
    requires id in References(body)
    ensures ValidUuid(id) && Lower(id) == id
  {
    IdsAreCanonical(body, |body|, id);
  }

  lemma {:induction false} IdsAreCanonical(body: string, n: nat, id: string)
    requires n <= |body| && id in Ids(body, n)
    ensures ValidUuid(id) && Lower(id) == id
    decreases n
  {
    if Occurs(body, n - 1) && WellFormed(body, n - 1) && id == IdAt(body, n - 1) {
      LowerKeepsUuid(body[n - 1 + SCHEME_LENGTH..n - 1 + SPAN]);
    } else {
      IdsAreCanonical(body, n - 1, id);
    }
  }

  // Text whose lower-casing moves byte positions.

  function ByteLength(s: string): nat {
    if s == "" then 0 else Utf8Length(s[0]) + ByteLength(s[1..])
  }

  lemma {:induction false} ByteLengthOfJoined(s: string, t: string)
    ensures ByteLength(s + t) == ByteLength(s) + ByteLength(t)
  {
    if s == "" {
      assert s + t == t;
    } else {
      ByteLengthOfJoined(s[1..], t);
      assert (s + t)[1..] == s[1..] + t;
    }
  }

  lemma {:induction false} ByteLengthOfSame(s: string, bytes: nat)
    requires forall i :: 0 <= i < |s| ==> Utf8Length(s[i]) == bytes
    ensures ByteLength(s) == bytes * |s|
  {
    if s != "" {
      ByteLengthOfSame(s[1..], bytes);
      assert bytes * |s| == bytes + bytes * |s[1..]|;
    }
  }

  /** The offset found in the lowered text is the offset in the text itself plus what lower-casing adds to the text
      before it; so it is the right one if and only if that is nothing in total. */
  lemma {:induction false} OffsetMoves(lower: char -> char, before: string)
    ensures ByteLength(Mapped(lower, before)) == ByteLength(before) + TotalGrowth(lower, before)
    ensures ByteLength(Mapped(lower, before)) == ByteLength(before) <==> TotalGrowth(lower, before) == 0
  {
    if before != "" {
      OffsetMoves(lower, before[1..]);
      assert Mapped(lower, before)[1..] == Mapped(lower, before[1..]);
    }
  }

  const STROKE_A: char := '\U{023A}'
  const SMALL_STROKE_A: char := '\U{2C65}'

  function StrokeAs(n: nat): string {
    seq(n, i requires 0 <= i < n => STROKE_A)
  }

  lemma ReferenceAtEnd(prefix: string, id: string)
    requires ValidUuid(id)
    ensures var body := prefix + SCHEME + id; Occurs(body, |prefix|) && WellFormed(body, |prefix|)
  {
    var body, n := prefix + SCHEME + id, |prefix|;
    forall j | 0 <= j < SCHEME_LENGTH ensures Lower(body)[n + j] == SCHEME[j] {
      assert body[n + j] == SCHEME[j];
      SchemeHasOneK(j);
    }
    assert Lower(body)[n..n + SCHEME_LENGTH] == SCHEME;
    assert body[n + SCHEME_LENGTH..n + SPAN] == id;
  }

  lemma OnlyOneReference(n: nat, id: string)
    requires ValidUuid(id)
    ensures AllWellFormed(StrokeAs(n) + SCHEME + id)
  {
    var body := StrokeAs(n) + SCHEME + id;
    ReferenceAtEnd(StrokeAs(n), id);
    forall i | 0 <= i < n ensures !Occurs(body, i) {
      assert Lower(body)[i] == STROKE_A != SCHEME[0];
      assert i + SCHEME_LENGTH <= |body| ==> Lower(body)[i..i + SCHEME_LENGTH][0] == STROKE_A;
    }
    forall i | n < i < |body| ensures !Occurs(body, i) {
      NoOccurrenceInside(body, n, i);
    }
  }

  lemma ByteLengthOfReference(prefix: string, id: string)
    requires ValidUuid(id)
    ensures ByteLength(prefix + SCHEME + id) == ByteLength(prefix) + SPAN
  {
    ByteLengthOfSame(SCHEME, 1);
    forall i | 0 <= i < |id| ensures Utf8Length(id[i]) == 1 {
      assert id[i] == '-' || HexDigit(id[i]);
    }
    ByteLengthOfSame(id, 1);
    ByteLengthOfJoined(prefix + SCHEME, id);
    ByteLengthOfJoined(prefix, SCHEME);
  }

  /** The letter U+023A takes two bytes and its lower-case form U+2C65 three. A text of such letters before one
      reference is well formed, but the offset of the reference in the lowered text is beyond the end of the text itself
      if and only if there are at least sixty of them. */
  lemma OffsetLeavesText(lower: char -> char, n: nat, id: string)
    requires lower(STROKE_A) == SMALL_STROKE_A && ValidUuid(id)
    ensures var body := StrokeAs(n) + SCHEME + id;
      && AllWellFormed(body) && Occurs(body, n)
      && (ByteLength(Mapped(lower, body[..n])) > ByteLength(body) <==> n >= 60)
  {
    OnlyOneReference(n, id);
    ReferenceAtEnd(StrokeAs(n), id);
    assert (StrokeAs(n) + SCHEME + id)[..n] == StrokeAs(n);
    ByteLengthOfSame(Mapped(lower, StrokeAs(n)), 3);
    ByteLengthOfSame(StrokeAs(n), 2);
    ByteLengthOfReference(StrokeAs(n), id);
  }
}
