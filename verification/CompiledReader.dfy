/** Parsing and writing the entries of a compiled surface table. */
module CompiledReader {
  import opened Wrappers
  import opened Bytes
  import opened Utf8
  import opened LosslessFormat
  import opened Codecs
  import opened CompiledTable
  import opened CompiledFormat
  import TokenizedReader

  // ---------------------------------------------------------------------- validation

  method ValidateCuts(surface: seq<byte>, cuts: seq<nat>) returns (ok: bool)
    requires surface != []
    ensures ok <==> CutsValid(0, |surface|, cuts)
  {
    var previous: nat := 0;
    for index := 0 to |cuts|
      invariant CutsValid(0, |surface|, cuts[..index])
      invariant index > 0 ==> previous == cuts[index - 1]
    {
      var cut := cuts[index];
      if cut == 0 || cut >= |surface| {
        return false;
      }
      if index > 0 && cut <= previous {
        assert !(cuts[index - 1] < cuts[index]);
        return false;
      }
      previous := cut;
    }
    assert cuts[..|cuts|] == cuts;
    ok := true;
  }

  function ValidateSurface(surface: seq<byte>): (ok: bool)
    ensures ok <==> surface != [] && WellFormed(surface)
  {
    TextOfWellFormed(surface);
    surface != [] && TextOf(surface).Some?
  }

  lemma TextOfWellFormed(bytes: seq<byte>)
    ensures TextOf(bytes).Some? <==> WellFormed(bytes)
  {
    hide TextOf, EncodeText, AllScalars;
    if TextOf(bytes).Some? {
      TextOfIff(bytes, TextOf(bytes).value);
    }
    if WellFormed(bytes) {
      var values :| AllScalars(values) && EncodeText(values) == bytes;
      TextOfIff(bytes, values);
    }
  }

  // ------------------------------------------------------------------------- reading

  method ReadCounts(reader: BinaryReader) returns (r: Option<Counts>)
    requires reader.Valid()
    modifies reader
    ensures reader.Valid()
    ensures r.Some? ==> reader.position == old(reader.position) + 24
    ensures r.Some? <==>
      old(reader.position) + 24 <= |reader.input| && CountsFields(reader.input, old(reader.position)).Some?
    ensures r.Some? ==> r == CountsFields(reader.input, old(reader.position))
  {
    hide ReadU32;
    var cuts := reader.TakeU32();
    if cuts.None? {
      return None;
    }
    var unknown := reader.Take(1);
    if unknown.None? || unknown.value[0] > 1 {
      return None;
    }
    var reserved := reader.Take(3);
    if reserved.None? || reserved.value != [0, 0, 0] {
      return None;
    }
    var javaHash := reader.TakeU32();
    if javaHash.None? {
      return None;
    }
    var canonical := reader.TakeU32();
    if canonical.None? {
      return None;
    }
    var lexeme := reader.TakeU32();
    if lexeme.None? {
      return None;
    }
    var igs := reader.TakeU32();
    if igs.None? {
      return None;
    }
    r := Some(Counts(cuts.value, unknown.value[0] == 1, I32Of(javaHash.value), canonical.value, lexeme.value, igs.value));
  }

  method ReadCutWords(reader: BinaryReader, count: nat) returns (r: Option<seq<nat>>)
    requires reader.Valid()
    modifies reader
    ensures reader.Valid()
    ensures r.Some? <==> old(reader.position) + 4 * count <= |reader.input|
    ensures r.Some? ==> r.value == ReadWords(reader.input, old(reader.position), count)
    ensures r.Some? ==> reader.position == old(reader.position) + 4 * count
  {
    hide ReadU32;
    ghost var start := reader.position;
    var cuts: seq<nat> := [];
    for i := 0 to count
      invariant reader.Valid() && reader.position == start + 4 * i && cuts == ReadWords(reader.input, start, i)
    {
      var cut := reader.TakeU32();
      if cut.None? {
        return None;
      }
      ReadWordsStep(reader.input, start, i);
      cuts := cuts + [cut.value];
    }
    r := Some(cuts);
  }

  method ReadText(reader: BinaryReader, length: nat) returns (r: Option<seq<int>>)
    requires reader.Valid()
    modifies reader
    ensures reader.Valid()
    ensures old(reader.position) + length > |reader.input| ==> r == None
    ensures old(reader.position) + length <= |reader.input| ==>
      && r == TextOf(reader.input[old(reader.position)..old(reader.position) + length])
      && reader.position == old(reader.position) + length
  {
    var text := reader.Take(length);
    if text.None? {
      return None;
    }
    r := TextOf(text.value);
  }

  method ReadIgs(reader: BinaryReader, count: nat) returns (r: Option<seq<seq<int>>>)
    requires reader.Valid()
    modifies reader
    ensures reader.Valid()
    ensures r.Some? ==> |r.value| == count
    ensures r.Some? ==> ListFound(EncodeString, IsShortText, reader.input, old(reader.position), r.value, reader.position)
    ensures r.None? ==> NoList(EncodeString, IsShortText, reader.input, old(reader.position), count)
  {
    hide ListFound, NoList, PrefixFree, Found, EncodeString, IsShortText;
    ghost var start := reader.position;
    StringPrefixFree();
    ListStart(EncodeString, IsShortText, reader.input, start);
    var igs: seq<seq<int>> := [];
    for i := 0 to count
      invariant reader.Valid() && |igs| == i
      invariant ListFound(EncodeString, IsShortText, reader.input, start, igs, reader.position)
    {
      ghost var middle := reader.position;
      var ig := TokenizedReader.ReadString(reader);
      if ig.None? {
        ListMisses(EncodeString, IsShortText, reader.input, start, igs, middle, count, reader.position);
        return None;
      }
      ListGrows(EncodeString, IsShortText, reader.input, start, igs, middle, ig.value, reader.position);
      igs := igs + [ig.value];
    }
    r := Some(igs);
  }

  /** What every candidate of a surface of n bytes at the position has. */
  lemma CandidatesAt(n: nat, bytes: seq<byte>, position: nat)
    ensures forall c: Candidate | Fits(n, c) && Embedded(bytes, position, EncodeCandidate(c)) ::
      FixedPart(bytes, position, c) && IgsPart(bytes, position, c) && CutsValid(0, n, c.cuts)
  {
    hide Fits, EncodeCandidate, FixedPart, IgsPart, CutsValid;
    forall c: Candidate | Fits(n, c) && Embedded(bytes, position, EncodeCandidate(c))
      ensures FixedPart(bytes, position, c) && IgsPart(bytes, position, c) && CutsValid(0, n, c.cuts)
    {
      CandidateParts(n, bytes, position, c);
    }
  }

  lemma IgsAreTexts(c: Candidate)
    requires forall i: nat | i < |c.igs| :: IsShortText(c.igs[i])
    ensures AllValid(IsShortText, c.igs)
  {
    hide IsShortText;
  }

  lemma NoIgs(n: nat, bytes: seq<byte>, position: nat, k: Counts)
    requires position + 24 <= |bytes| && CountsFields(bytes, position) == Some(k)
    requires NoList(EncodeString, IsShortText, bytes, IgsAt(position, k), k.igs)
    ensures forall c: Candidate | Fits(n, c) :: !Embedded(bytes, position, EncodeCandidate(c))
  {
    hide Fits, EncodeCandidate, CutsValid, TextOf, ReadWords, EncodeString, IsShortText, EncodeList, TextBytes, CountsFields;
    CandidatesAt(n, bytes, position);
    forall c: Candidate | Fits(n, c)
      ensures !Embedded(bytes, position, EncodeCandidate(c))
    {
      if Embedded(bytes, position, EncodeCandidate(c)) {
        IgsAreTexts(c);
      }
    }
  }

  method ReadCandidate(reader: BinaryReader, surface: seq<byte>) returns (r: Option<Candidate>)
    requires reader.Valid() && surface != []
    modifies reader
    ensures reader.Valid()
    ensures Found(EncodeCandidate, CandidateFits(|surface|), reader.input, old(reader.position), r, reader.position)
  {
    hide Fits, EncodeCandidate, CutsValid, TextOf, ReadWords, CountsFields, IgsPart, TextBytes, Embedded, ListFound, NoList;
    ghost var n, start := |surface|, reader.position;
    CandidatesAt(n, reader.input, start);
    var counts := ReadCounts(reader);
    if counts.None? {
      return None;
    }
    var k := counts.value;
    var cuts := ReadCutWords(reader, k.cuts);
    if cuts.None? {
      return None;
    }
    var valid := ValidateCuts(surface, cuts.value);
    if !valid {
      return None;
    }
    var canonical := ReadText(reader, k.canonical);
    if canonical.None? {
      return None;
    }
    var lexeme := ReadText(reader, k.lexeme);
    if lexeme.None? {
      return None;
    }
    var igs := ReadIgs(reader, k.igs);
    if igs.None? {
      NoIgs(n, reader.input, start, k);
      return None;
    }
    r := Some(Candidate(cuts.value, k.unknown, canonical.value, lexeme.value, igs.value, k.javaHash));
    CandidateFound(n, reader.input, start, k, r.value, reader.position);
  }

  lemma CandidateFound(n: nat, bytes: seq<byte>, position: nat, k: Counts, c: Candidate, end: nat)
    requires position + 24 <= |bytes| && CountsFields(bytes, position) == Some(k)
    requires IgsAt(position, k) <= |bytes| && k.cuts == |c.cuts| && k.unknown == c.unknown && k.javaHash == c.javaHash
    requires ReadWords(bytes, position + 24, |c.cuts|) == c.cuts && CutsValid(0, n, c.cuts) && k.igs == |c.igs|
    requires TextOf(bytes[CanonicalAt(position, k)..LexemeAt(position, k)]) == Some(c.canonical)
    requires TextOf(bytes[LexemeAt(position, k)..IgsAt(position, k)]) == Some(c.lexeme)
    requires ListFound(EncodeString, IsShortText, bytes, IgsAt(position, k), c.igs, end)
    ensures Fits(n, c) && Embedded(bytes, position, EncodeCandidate(c)) && end == position + |EncodeCandidate(c)|
  {
    hide Fits, EncodeCandidate, CutsValid, TextOf, ReadWords, EncodeString, IsShortText, EncodeList, TextBytes, CountsFields;
    TextBytesIff(bytes[CanonicalAt(position, k)..LexemeAt(position, k)], c.canonical);
    TextBytesIff(bytes[LexemeAt(position, k)..IgsAt(position, k)], c.lexeme);
    assert CountsOf(c) == k;
    CandidateJoined(n, bytes, position, c);
  }

  method ReadCandidates(reader: BinaryReader, surface: seq<byte>, count: nat) returns (r: Option<seq<Candidate>>)
    requires reader.Valid() && surface != []
    modifies reader
    ensures reader.Valid()
    ensures r.Some? ==> |r.value| == count
    ensures r.Some? ==>
      ListFound(EncodeCandidate, CandidateFits(|surface|), reader.input, old(reader.position), r.value, reader.position)
    ensures r.None? ==> NoList(EncodeCandidate, CandidateFits(|surface|), reader.input, old(reader.position), count)
  {
    hide ListFound, NoList, PrefixFree, Found, EncodeCandidate, Fits;
    ghost var start := reader.position;
    CandidatePrefixFree(|surface|);
    ListStart(EncodeCandidate, CandidateFits(|surface|), reader.input, start);
    var candidates: seq<Candidate> := [];
    for i := 0 to count
      invariant reader.Valid() && |candidates| == i
      invariant ListFound(EncodeCandidate, CandidateFits(|surface|), reader.input, start, candidates, reader.position)
    {
      ghost var middle := reader.position;
      var next := ReadCandidate(reader, surface);
      if next.None? {
        ListMisses(EncodeCandidate, CandidateFits(|surface|), reader.input, start, candidates, middle, count, reader.position);
        return None;
      }
      ListGrows(EncodeCandidate, CandidateFits(|surface|), reader.input, start, candidates, middle, next.value, reader.position);
      candidates := candidates + [next.value];
    }
    r := Some(candidates);
  }

  lemma EntriesAt(bytes: seq<byte>, position: nat)
    ensures forall e: ParsedEntry | EntryCodable(e) && Embedded(bytes, position, EncodeEntry(e)) ::
      && SurfacePart(bytes, position, e) && e.candidates != [] && ValidateSurface(e.surface)
      && AllValid(CandidateFits(|e.surface|), e.candidates)
      && Embedded(bytes, position + 8 + |e.surface|, EncodeList(EncodeCandidate, e.candidates))
  {
    hide EncodeEntry, Fits, EncodeCandidate, EncodeList, SurfacePart, TextOf, WellFormed;
    forall e: ParsedEntry | EntryCodable(e) && Embedded(bytes, position, EncodeEntry(e))
      ensures SurfacePart(bytes, position, e) && AllValid(CandidateFits(|e.surface|), e.candidates)
      ensures Embedded(bytes, position + 8 + |e.surface|, EncodeList(EncodeCandidate, e.candidates))
    {
      EntryParts(bytes, position, e);
    }
  }

  method ReadEntry(reader: BinaryReader) returns (r: Option<ParsedEntry>)
    requires reader.Valid()
    modifies reader
    ensures reader.Valid() && Found(EncodeEntry, EntryCodable, reader.input, old(reader.position), r, reader.position)
  {
    hide EncodeEntry, EntryCodable, EncodeList, EncodeCandidate, Fits, ValidateSurface, ReadU32, NoList, ListFound, AllValid,
      Embedded;
    ghost var position := reader.position;
    EntriesAt(reader.input, position);
    var length := reader.TakeU32();
    if length.None? {
      return None;
    }
    var count := reader.TakeU32();
    if count.None? || count.value == 0 {
      return None;
    }
    var surface := reader.Take(length.value);
    if surface.None? || !ValidateSurface(surface.value) {
      return None;
    }
    SurfaceNotEmpty(surface.value);
    ghost var start := reader.position;
    var candidates := ReadCandidates(reader, surface.value, count.value);
    if candidates.None? {
      NoCandidates(reader.input, position, surface.value, count.value);
      return None;
    }
    r := Some(ParsedEntry(surface.value, candidates.value));
    EntryFound(reader.input, position, r.value, reader.position);
  }

  lemma SurfaceNotEmpty(surface: seq<byte>)
    requires ValidateSurface(surface)
    ensures surface != [] && TextOf(surface).Some?
  {
  }

  lemma SameSurface(bytes: seq<byte>, position: nat, surface: seq<byte>, e: ParsedEntry)
    requires SurfacePart(bytes, position, e) && ReadU32(bytes, position) == |surface|
    requires position + 8 + |surface| <= |bytes| && bytes[position + 8..position + 8 + |surface|] == surface
    ensures e.surface == surface
  {
  }

  lemma NoCandidates(bytes: seq<byte>, position: nat, surface: seq<byte>, count: nat)
    requires position + 8 + |surface| <= |bytes| && bytes[position + 8..position + 8 + |surface|] == surface
    requires ReadU32(bytes, position) == |surface| && ReadU32(bytes, position + 4) == count
    requires NoList(EncodeCandidate, CandidateFits(|surface|), bytes, position + 8 + |surface|, count)
    ensures forall e: ParsedEntry | EntryCodable(e) :: !Embedded(bytes, position, EncodeEntry(e))
  {
    hide EncodeEntry, EntryCodable, EncodeList, EncodeCandidate, Fits, ReadU32, AllValid, Embedded, ValidateSurface;
    EntriesAt(bytes, position);
    forall e: ParsedEntry | EntryCodable(e)
      ensures !Embedded(bytes, position, EncodeEntry(e))
    {
      if Embedded(bytes, position, EncodeEntry(e)) {
        SameSurface(bytes, position, surface, e);
      }
    }
  }

  lemma EntryFound(bytes: seq<byte>, position: nat, e: ParsedEntry, end: nat)
    requires SurfacePart(bytes, position, e) && e.surface != [] && e.candidates != [] && TextOf(e.surface).Some?
    requires ListFound(EncodeCandidate, CandidateFits(|e.surface|), bytes, position + 8 + |e.surface|, e.candidates, end)
    ensures EntryCodable(e) && Embedded(bytes, position, EncodeEntry(e)) && end == position + |EncodeEntry(e)|
  {
    hide EncodeEntry, EncodeList, EncodeCandidate, Fits, TextOf;
    EntryJoined(bytes, position, e);
  }

  // ------------------------------------------------------------------------- writing

  /** Representable values: texts are text, cuts are 32-bit words, hashes 32-bit integers. */
  predicate Representable(c: Candidate) {
    && AllU32(c.cuts) && AllScalars(c.canonical) && AllScalars(c.lexeme) && IsI32(c.javaHash)
    && forall i: nat | i < |c.igs| :: AllScalars(c.igs[i])
  }

  method WriteCandidate(before: seq<byte>, surface: seq<byte>, c: Candidate) returns (r: Option<seq<byte>>)
    requires surface != [] && |surface| <= U32_MAX && Representable(c)
    ensures r.Some? <==> Fits(|surface|, c)
    ensures r.Some? ==> r.value == before + EncodeCandidate(c)
  {
    hide CutsValid, EncodeText, Words, AllScalars, EncodeIgs, IsShortText, EncodeCounts;
    var valid := ValidateCuts(surface, c.cuts);
    if !valid {
      return None;
    }
    var canonical, lexeme := EncodeText(c.canonical), EncodeText(c.lexeme);
    if |c.cuts| > U32_MAX || |canonical| > U32_MAX || |lexeme| > U32_MAX || |c.igs| > U32_MAX {
      return None;
    }
    var output := WriteCounts(before, CountsOf(c));
    output := output + Words(c.cuts) + canonical + lexeme;
    r := WriteIgs(output, c.igs);
    CandidateWritten(before, c, output);
  }

  method WriteCounts(before: seq<byte>, k: Counts) returns (output: seq<byte>)
    requires CountsCodable(k)
    ensures output == before + EncodeCounts(k)
  {
    hide U32;
    output := before + U32(k.cuts) + Flags(k.unknown) + U32(I32Code(k.javaHash));
    output := output + U32(k.canonical) + U32(k.lexeme) + U32(k.igs);
  }

  lemma CandidateWritten(before: seq<byte>, c: Candidate, output: seq<byte>)
    requires AllU32(c.cuts)
    requires output == before + EncodeCounts(CountsOf(c)) + Words(c.cuts) + TextBytes(c.canonical) + TextBytes(c.lexeme)
    ensures output + EncodeIgs(c.igs) == before + EncodeCandidate(c)
  {
    hide EncodeCounts, Words, TextBytes, EncodeIgs, CountsOf;
  }

  method WriteIgs(before: seq<byte>, igs: seq<seq<int>>) returns (r: Option<seq<byte>>)
    requires forall i: nat | i < |igs| :: AllScalars(igs[i])
    ensures r.Some? <==> forall i: nat | i < |igs| :: IsShortText(igs[i])
    ensures r.Some? ==> r.value == before + EncodeIgs(igs)
  {
    hide EncodeString, IsShortText, AllScalars, EncodeList;
    var output := before;
    ListNone(EncodeString, igs[..0]);
    for i := 0 to |igs|
      invariant forall k: nat | k < i :: IsShortText(igs[k])
      invariant output == before + EncodeList(EncodeString, igs[..i])
    {
      var next := TokenizedReader.WriteString(output, igs[i]);
      if next.None? {
        return None;
      }
      output := next.value;
      ListPush(EncodeString, igs[..i], igs[i]);
      assert igs[..i + 1] == igs[..i] + [igs[i]];
    }
    assert igs[..|igs|] == igs;
    r := Some(output);
  }

  method WriteCandidates(before: seq<byte>, surface: seq<byte>, candidates: seq<Candidate>) returns (r: Option<seq<byte>>)
    requires surface != [] && |surface| <= U32_MAX && forall i: nat | i < |candidates| :: Representable(candidates[i])
    ensures r.Some? <==> forall i: nat | i < |candidates| :: Fits(|surface|, candidates[i])
    ensures r.Some? ==> r.value == before + EncodeList(EncodeCandidate, candidates)
  {
    hide EncodeCandidate, Fits, Representable, EncodeList;
    var output := before;
    ListNone(EncodeCandidate, candidates[..0]);
    for i := 0 to |candidates|
      invariant forall k: nat | k < i :: Fits(|surface|, candidates[k])
      invariant output == before + EncodeList(EncodeCandidate, candidates[..i])
    {
      var next := WriteCandidate(output, surface, candidates[i]);
      if next.None? {
        return None;
      }
      output := next.value;
      ListPush(EncodeCandidate, candidates[..i], candidates[i]);
      assert candidates[..i + 1] == candidates[..i] + [candidates[i]];
    }
    assert candidates[..|candidates|] == candidates;
    r := Some(output);
  }
}
