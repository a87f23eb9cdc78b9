/** The binary form of the entries of a compiled surface table. */
module CompiledFormat {
  import opened Wrappers
  import opened Bytes
  import opened Utf8
  import opened LosslessFormat
  import opened Codecs
  import opened CompiledTable

  // ---------------------------------------------------------------- the head of a candidate

  /** The fixed fields: list sizes, byte lengths of the texts, and the two scalars. */
  datatype Counts = Counts(cuts: nat, unknown: bool, javaHash: int, canonical: nat, lexeme: nat, igs: nat)

  function I32Code(value: int): (code: nat)
    ensures code <= U32_MAX
  {
    value % 0x1_0000_0000
  }

  function I32Of(code: nat): int {
    if code >= 0x8000_0000 then code - 0x1_0000_0000 else code
  }

  predicate IsI32(value: int) {
    -0x8000_0000 <= value < 0x8000_0000
  }

  function Flags(unknown: bool): seq<byte> {
    [if unknown then 1 else 0, 0, 0, 0]
  }

  function Low32(value: nat): seq<byte> {
    U32(value % 0x1_0000_0000)
  }

  function EncodeCounts(k: Counts): (code: seq<byte>)
    ensures |code| == 24
  {
    Low32(k.cuts) + (Flags(k.unknown) + (U32(I32Code(k.javaHash))
    + (Low32(k.canonical) + (Low32(k.lexeme) + Low32(k.igs)))))
  }

  predicate CountsCodable(k: Counts) {
    k.cuts <= U32_MAX && IsI32(k.javaHash) && k.canonical <= U32_MAX && k.lexeme <= U32_MAX && k.igs <= U32_MAX
  }

  /** The fixed fields found at a position, if the flag is canonical and the reserved bytes are zero. */
  function CountsFields(bytes: seq<byte>, position: nat): Option<Counts>
    requires position + 24 <= |bytes|
  {
    if bytes[position + 4] > 1 || bytes[position + 5..position + 8] != [0, 0, 0] then None
    else
      Some(Counts(ReadU32(bytes, position), bytes[position + 4] == 1, I32Of(ReadU32(bytes, position + 8)),
                  ReadU32(bytes, position + 12), ReadU32(bytes, position + 16), ReadU32(bytes, position + 20)))
  }

  lemma CountsAt(bytes: seq<byte>, position: nat, k: Counts)
    ensures CountsCodable(k) && Embedded(bytes, position, EncodeCounts(k)) <==>
      position + 24 <= |bytes| && CountsFields(bytes, position) == Some(k)
  {
    hide U32, ReadU32;
    if CountsCodable(k) && Embedded(bytes, position, EncodeCounts(k)) {
      CountsParts(bytes, position, k);
    } else if position + 24 <= |bytes| && CountsFields(bytes, position) == Some(k) {
      CountsJoined(bytes, position, k);
    }
  }

  lemma CountsParts(bytes: seq<byte>, position: nat, k: Counts)
    requires CountsCodable(k) && Embedded(bytes, position, EncodeCounts(k))
    ensures position + 24 <= |bytes| && CountsFields(bytes, position) == Some(k)
  {
    hide U32, ReadU32;
    var at20 := Low32(k.igs);
    var at16 := Low32(k.lexeme) + at20;
    var at12 := Low32(k.canonical) + at16;
    var at8 := U32(I32Code(k.javaHash)) + at12;
    EmbeddedSplit(bytes, position, Low32(k.cuts), Flags(k.unknown) + at8);
    EmbeddedSplit(bytes, position + 4, Flags(k.unknown), at8);
    EmbeddedSplit(bytes, position + 8, U32(I32Code(k.javaHash)), at12);
    EmbeddedSplit(bytes, position + 12, Low32(k.canonical), at16);
    EmbeddedSplit(bytes, position + 16, Low32(k.lexeme), at20);
    ReadCounts(bytes, position, k);
    FlagsAt(bytes, position + 4, k.unknown);
  }

  lemma CountsJoined(bytes: seq<byte>, position: nat, k: Counts)
    requires position + 24 <= |bytes| && CountsFields(bytes, position) == Some(k)
    ensures CountsCodable(k) && Embedded(bytes, position, EncodeCounts(k))
  {
    hide U32, ReadU32;
    var at20 := Low32(k.igs);
    var at16 := Low32(k.lexeme) + at20;
    var at12 := Low32(k.canonical) + at16;
    var at8 := U32(I32Code(k.javaHash)) + at12;
    ReadCounts(bytes, position, k);
    FlagsAt(bytes, position + 4, k.unknown);
    EmbeddedJoin(bytes, position + 16, Low32(k.lexeme), at20);
    EmbeddedJoin(bytes, position + 12, Low32(k.canonical), at16);
    EmbeddedJoin(bytes, position + 8, U32(I32Code(k.javaHash)), at12);
    EmbeddedJoin(bytes, position + 4, Flags(k.unknown), at8);
    EmbeddedJoin(bytes, position, Low32(k.cuts), Flags(k.unknown) + at8);
  }

  lemma ReadCounts(bytes: seq<byte>, position: nat, k: Counts)
    requires position + 24 <= |bytes| && CountsCodable(k)
    ensures Embedded(bytes, position, Low32(k.cuts)) <==> ReadU32(bytes, position) == k.cuts
    ensures Embedded(bytes, position + 8, U32(I32Code(k.javaHash))) <==> I32Of(ReadU32(bytes, position + 8)) == k.javaHash
    ensures Embedded(bytes, position + 12, Low32(k.canonical)) <==> ReadU32(bytes, position + 12) == k.canonical
    ensures Embedded(bytes, position + 16, Low32(k.lexeme)) <==> ReadU32(bytes, position + 16) == k.lexeme
    ensures Embedded(bytes, position + 20, Low32(k.igs)) <==> ReadU32(bytes, position + 20) == k.igs
  {
    hide U32, ReadU32;
    ReadOfU32(bytes, position, k.cuts);
    ReadOfU32(bytes, position + 8, I32Code(k.javaHash));
    ReadOfU32(bytes, position + 12, k.canonical);
    ReadOfU32(bytes, position + 16, k.lexeme);
    ReadOfU32(bytes, position + 20, k.igs);
  }

  lemma FlagsAt(bytes: seq<byte>, position: nat, unknown: bool)
    requires position + 4 <= |bytes|
    ensures Embedded(bytes, position, Flags(unknown)) <==>
      bytes[position] == (if unknown then 1 else 0) && bytes[position + 1..position + 4] == [0, 0, 0]
  {
    assert bytes[position..position + 4] == [bytes[position]] + bytes[position + 1..position + 4];
    assert Flags(unknown) == [if unknown then 1 else 0] + [0, 0, 0];
    assert Flags(unknown)[1..] == [0, 0, 0];
    assert ([bytes[position]] + bytes[position + 1..position + 4])[1..] == bytes[position + 1..position + 4];
  }

  // ----------------------------------------------------------------------- candidates

  function TextBytes(values: seq<int>): seq<byte> {
    if AllScalars(values) then EncodeText(values) else []
  }

  predicate AllU32(values: seq<nat>) {
    forall i | 0 <= i < |values| :: values[i] <= U32_MAX
  }

  function EncodeCutWords(cuts: seq<nat>): seq<byte> {
    if AllU32(cuts) then Words(cuts) else []
  }

  function CountsOf(c: Candidate): Counts {
    Counts(|c.cuts|, c.unknown, c.javaHash, |TextBytes(c.canonical)|, |TextBytes(c.lexeme)|, |c.igs|)
  }

  function EncodeIgs(igs: seq<seq<int>>): seq<byte> {
    EncodeList(EncodeString, igs)
  }

  function EncodeCandidate(c: Candidate): seq<byte> {
    EncodeCounts(CountsOf(c))
    + (EncodeCutWords(c.cuts) + (TextBytes(c.canonical) + (TextBytes(c.lexeme) + EncodeIgs(c.igs))))
  }

  /** The candidates a surface of n bytes may have. */
  predicate Fits(n: nat, c: Candidate) {
    && CutsValid(0, n, c.cuts) && AllU32(c.cuts) && AllScalars(c.canonical) && AllScalars(c.lexeme)
    && CountsCodable(CountsOf(c)) && forall i: nat | i < |c.igs| :: IsShortText(c.igs[i])
  }

  function CandidateFits(n: nat): Candidate -> bool {
    (c: Candidate) => Fits(n, c)
  }

  /** The places of the parts behind the fixed fields. */
  function CanonicalAt(position: nat, k: Counts): nat {
    position + 24 + 4 * k.cuts
  }

  function LexemeAt(position: nat, k: Counts): nat {
    CanonicalAt(position, k) + k.canonical
  }

  function IgsAt(position: nat, k: Counts): nat {
    LexemeAt(position, k) + k.lexeme
  }

  /** Everything but the inflectional groups is found at the position. */
  predicate FixedPart(bytes: seq<byte>, position: nat, c: Candidate) {
    && position + 24 <= |bytes| && CountsFields(bytes, position) == Some(CountsOf(c))
    && IgsAt(position, CountsOf(c)) <= |bytes| && ReadWords(bytes, position + 24, |c.cuts|) == c.cuts
    && TextOf(bytes[CanonicalAt(position, CountsOf(c))..LexemeAt(position, CountsOf(c))]) == Some(c.canonical)
    && TextOf(bytes[LexemeAt(position, CountsOf(c))..IgsAt(position, CountsOf(c))]) == Some(c.lexeme)
  }

  predicate IgsPart(bytes: seq<byte>, position: nat, c: Candidate) {
    Embedded(bytes, IgsAt(position, CountsOf(c)), EncodeIgs(c.igs)) && forall i: nat | i < |c.igs| :: IsShortText(c.igs[i])
  }

  lemma TextBytesIff(bytes: seq<byte>, values: seq<int>)
    ensures TextOf(bytes) == Some(values) <==> AllScalars(values) && TextBytes(values) == bytes
  {
    hide EncodeText, AllScalars, TextOf;
    TextOfIff(bytes, values);
  }

  lemma CandidateParts(n: nat, bytes: seq<byte>, position: nat, c: Candidate)
    requires Fits(n, c) && Embedded(bytes, position, EncodeCandidate(c))
    ensures FixedPart(bytes, position, c) && IgsPart(bytes, position, c) && CutsValid(0, n, c.cuts)
    ensures |EncodeCandidate(c)| == IgsAt(position, CountsOf(c)) - position + |EncodeIgs(c.igs)|
  {
    hide EncodeCounts, CountsCodable, CountsFields, Words, ReadWords, TextBytes, TextOf, AllScalars, IsShortText, EncodeIgs,
      CutsValid;
    var k := CountsOf(c);
    var fromLexeme := TextBytes(c.lexeme) + EncodeIgs(c.igs);
    var fromCanonical := TextBytes(c.canonical) + fromLexeme;
    EmbeddedSplit(bytes, position, EncodeCounts(k), EncodeCutWords(c.cuts) + fromCanonical);
    EmbeddedSplit(bytes, position + 24, EncodeCutWords(c.cuts), fromCanonical);
    EmbeddedSplit(bytes, CanonicalAt(position, k), TextBytes(c.canonical), fromLexeme);
    EmbeddedSplit(bytes, LexemeAt(position, k), TextBytes(c.lexeme), EncodeIgs(c.igs));
    CountsAt(bytes, position, k);
    WordsRead(bytes, position + 24, c.cuts);
    TextBytesIff(TextBytes(c.canonical), c.canonical);
    TextBytesIff(TextBytes(c.lexeme), c.lexeme);
  }

  lemma CandidateJoined(n: nat, bytes: seq<byte>, position: nat, c: Candidate)
    requires FixedPart(bytes, position, c) && IgsPart(bytes, position, c) && CutsValid(0, n, c.cuts)
    ensures Fits(n, c) && Embedded(bytes, position, EncodeCandidate(c))
    ensures |EncodeCandidate(c)| == IgsAt(position, CountsOf(c)) - position + |EncodeIgs(c.igs)|
  {
    hide EncodeCounts, CountsCodable, CountsFields, Words, TextBytes, TextOf, AllScalars, IsShortText, EncodeIgs,
      CutsValid, ReadU32;
    var k := CountsOf(c);
    CountsAt(bytes, position, k);
    ReadWordsBack(bytes, position + 24, |c.cuts|);
    assert AllU32(c.cuts);
    TextBytesIff(bytes[CanonicalAt(position, k)..LexemeAt(position, k)], c.canonical);
    TextBytesIff(bytes[LexemeAt(position, k)..IgsAt(position, k)], c.lexeme);
    var fromLexeme := TextBytes(c.lexeme) + EncodeIgs(c.igs);
    var fromCanonical := TextBytes(c.canonical) + fromLexeme;
    EmbeddedJoin(bytes, LexemeAt(position, k), TextBytes(c.lexeme), EncodeIgs(c.igs));
    EmbeddedJoin(bytes, CanonicalAt(position, k), TextBytes(c.canonical), fromLexeme);
    EmbeddedJoin(bytes, position + 24, EncodeCutWords(c.cuts), fromCanonical);
    EmbeddedJoin(bytes, position, EncodeCounts(k), EncodeCutWords(c.cuts) + fromCanonical);
  }

  lemma SameFixedPart(bytes: seq<byte>, position: nat, c: Candidate, d: Candidate)
    requires FixedPart(bytes, position, c) && FixedPart(bytes, position, d)
    ensures CountsOf(c) == CountsOf(d) && c == d.(igs := c.igs) && |c.igs| == |d.igs|
  {
    hide TextBytes, TextOf, ReadWords, CountsFields;
  }

  lemma CandidatePrefixFree(n: nat)
    ensures PrefixFree(EncodeCandidate, CandidateFits(n))
  {
    hide EncodeCandidate, Fits, FixedPart, EncodeString, IsShortText, EncodeList, CountsOf, CutsValid, PrefixFree;
    StringPrefixFree();
    forall bytes: seq<byte>, position: nat, x: Candidate, y: Candidate
      | CandidateFits(n)(x) && CandidateFits(n)(y)
        && Embedded(bytes, position, EncodeCandidate(x)) && Embedded(bytes, position, EncodeCandidate(y))
      ensures x == y
    {
      CandidateParts(n, bytes, position, x);
      CandidateParts(n, bytes, position, y);
      SameFixedPart(bytes, position, x, y);
      ListUnique(EncodeString, IsShortText, x.igs, y.igs, bytes, IgsAt(position, CountsOf(x)));
    }
    IsPrefixFree(EncodeCandidate, CandidateFits(n));
  }

  // -------------------------------------------------------------------------- entries

  function EncodeEntry(e: ParsedEntry): seq<byte> {
    Low32(|e.surface|) + (Low32(|e.candidates|) + (e.surface + EncodeList(EncodeCandidate, e.candidates)))
  }

  predicate EntryCodable(e: ParsedEntry) {
    && e.surface != [] && |e.surface| <= U32_MAX && TextOf(e.surface).Some?
    && e.candidates != [] && |e.candidates| <= U32_MAX
    && forall i: nat | i < |e.candidates| :: Fits(|e.surface|, e.candidates[i])
  }

  /** The sizes and the surface of an entry are found at the position. */
  predicate SurfacePart(bytes: seq<byte>, position: nat, e: ParsedEntry) {
    && position + 8 + |e.surface| <= |bytes|
    && ReadU32(bytes, position) == |e.surface| && ReadU32(bytes, position + 4) == |e.candidates|
    && bytes[position + 8..position + 8 + |e.surface|] == e.surface
  }

  lemma EntryParts(bytes: seq<byte>, position: nat, e: ParsedEntry)
    requires |e.surface| <= U32_MAX && |e.candidates| <= U32_MAX && Embedded(bytes, position, EncodeEntry(e))
    ensures SurfacePart(bytes, position, e)
    ensures Embedded(bytes, position + 8 + |e.surface|, EncodeList(EncodeCandidate, e.candidates))
  {
    hide U32, ReadU32, EncodeCandidate, EncodeList;
    var list := EncodeList(EncodeCandidate, e.candidates);
    EmbeddedSplit(bytes, position, Low32(|e.surface|), Low32(|e.candidates|) + (e.surface + list));
    EmbeddedSplit(bytes, position + 4, Low32(|e.candidates|), e.surface + list);
    EmbeddedSplit(bytes, position + 8, e.surface, list);
    ReadOfU32(bytes, position, |e.surface|);
    ReadOfU32(bytes, position + 4, |e.candidates|);
  }

  lemma EntryJoined(bytes: seq<byte>, position: nat, e: ParsedEntry)
    requires SurfacePart(bytes, position, e)
    requires Embedded(bytes, position + 8 + |e.surface|, EncodeList(EncodeCandidate, e.candidates))
    ensures Embedded(bytes, position, EncodeEntry(e)) && |e.surface| <= U32_MAX && |e.candidates| <= U32_MAX
    ensures |EncodeEntry(e)| == 8 + |e.surface| + |EncodeList(EncodeCandidate, e.candidates)|
  {
    hide U32, ReadU32, EncodeCandidate, EncodeList;
    var list := EncodeList(EncodeCandidate, e.candidates);
    ReadOfU32(bytes, position, |e.surface|);
    ReadOfU32(bytes, position + 4, |e.candidates|);
    EmbeddedJoin(bytes, position + 8, e.surface, list);
    EmbeddedJoin(bytes, position + 4, Low32(|e.candidates|), e.surface + list);
    EmbeddedJoin(bytes, position, Low32(|e.surface|), Low32(|e.candidates|) + (e.surface + list));
  }

  lemma EntryPrefixFree()
    ensures PrefixFree(EncodeEntry, EntryCodable)
  {
    hide EncodeEntry, Fits, EncodeCandidate, EncodeList, ReadU32, TextOf, PrefixFree;
    forall bytes: seq<byte>, position: nat, x: ParsedEntry, y: ParsedEntry
      | EntryCodable(x) && EntryCodable(y)
        && Embedded(bytes, position, EncodeEntry(x)) && Embedded(bytes, position, EncodeEntry(y))
      ensures x == y
    {
      EntryParts(bytes, position, x);
      EntryParts(bytes, position, y);
      assert x.surface == y.surface;
      CandidatePrefixFree(|x.surface|);
      ListUnique(EncodeCandidate, CandidateFits(|x.surface|), x.candidates, y.candidates, bytes, position + 8 + |x.surface|);
    }
    IsPrefixFree(EncodeEntry, EntryCodable);
  }
}
