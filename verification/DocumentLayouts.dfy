/** The binary forms of documents and tables, written out byte by byte. */
module DocumentLayouts {
  import opened Wrappers
  import opened Bytes
  import opened Utf8
  import opened Codecs
  import opened Layouts
  import LosslessFormat
  import opened LexicalClasses
  import opened Splitting
  import opened Alignment
  import opened Document
  import TokenizedCodec
  import TokenizedDocuments
  import CompiledTable
  import CompiledFormat
  import CompiledCodec

  function Word64(): nat -> seq<byte> {
    (value: nat) => Le(value, 8)
  }

  lemma WordsAreLaid(values: seq<nat>)
    requires forall i: nat | i < |values| :: values[i] <= U64_MAX
    ensures Each(Word64(), values) == EncodeList(U64, values)
  {
    hide Le, U64;
    forall i: nat | i < |values|
      ensures Word64()(values[i]) == U64(values[i])
    {
      LittleEndian64(values[i]);
    }
    EachIsList(Word64(), U64, values, values);
  }

  // ------------------------------------------------------------------------ lossless documents

  function SurfaceLaid(): LosslessFormat.SurfaceUnit -> seq<byte> {
    (unit: LosslessFormat.SurfaceUnit) =>
      Le(unit.start, 8) + Le(unit.end, 8) + Le(|unit.cuts|, 4) + Each(Word64(), unit.cuts)
  }

  lemma SurfaceIsLaid(unit: LosslessFormat.SurfaceUnit)
    requires LosslessFormat.UnitEncodable(unit)
    ensures SurfaceLaid()(unit) == LosslessFormat.EncodeUnit(unit)
  {
    hide Le, U64, U32, EncodeList, Each;
    LittleEndian64(unit.start);
    LittleEndian64(unit.end);
    LittleEndian32(|unit.cuts|);
    WordsAreLaid(unit.cuts);
    Regroup4(U64(unit.start), U64(unit.end), U32(|unit.cuts|), EncodeList(U64, unit.cuts));
  }

  /** Eight bytes that name the form, version 1, two counts of eight bytes, the text and its units. */
  lemma LosslessIsLaid(document: LosslessFormat.LosslessDocument)
    requires LosslessFormat.Encodable(document)
    ensures LosslessFormat.Encode(document) ==
      [0x4E, 0x45, 0x44, 0x4F, 0x46, 0x4D, 0x54, 0x00, 0x01, 0x00, 0x00, 0x00]
      + Le(|document.raw|, 8) + Le(|document.units|, 8) + document.raw + Each(SurfaceLaid(), document.units)
  {
    hide Le, U64, EncodeList, Each, LosslessFormat.CutsValid, LosslessFormat.EncodeUnit, SurfaceLaid;
    var units := document.units;
    LittleEndian64(|document.raw|);
    LittleEndian64(|units|);
    forall i: nat | i < |units|
      ensures SurfaceLaid()(units[i]) == LosslessFormat.EncodeUnit(units[i])
    {
      SurfaceIsLaid(units[i]);
    }
    EachIsList(SurfaceLaid(), LosslessFormat.EncodeUnit, units, units);
    Regroup6(LosslessFormat.FORMAT_MAGIC, U32(LosslessFormat.FORMAT_SCHEMA_VERSION), U64(|document.raw|), U64(|units|),
             document.raw, EncodeList(LosslessFormat.EncodeUnit, units));
    assert LosslessFormat.FORMAT_MAGIC + U32(LosslessFormat.FORMAT_SCHEMA_VERSION)
      == [0x4E, 0x45, 0x44, 0x4F, 0x46, 0x4D, 0x54, 0x00, 0x01, 0x00, 0x00, 0x00];
  }

  lemma Regroup6(a: seq<byte>, b: seq<byte>, c: seq<byte>, d: seq<byte>, e: seq<byte>, f: seq<byte>)
    ensures a + (b + (c + (d + (e + f)))) == (a + b) + c + d + e + f
  {
  }

  lemma Regroup7(a: seq<byte>, b: seq<byte>, c: seq<byte>, d: seq<byte>, e: seq<byte>, f: seq<byte>, g: seq<byte>)
    ensures a + (b + (c + (d + (e + (f + g))))) == (a + b) + c + d + e + f + g
  {
  }

  // ------------------------------------------------------------------------ tokenized documents

  function KindNumber(kind: Kind): byte {
    if kind.Whitespace? then 1 else if kind.LineBreak? then 2 else if kind.Word? then 3 else if kind.Number? then 4
    else if kind.Punctuation? then 5 else if kind.Symbol? then 6 else if kind.Control? then 7 else 8
  }

  function ModeNumber(mode: Mode): byte {
    if mode.Turkish? then 1 else if mode.Code? then 2 else 3
  }

  function StatusNumber(status: Status): byte {
    if status.Structural? then 1 else if status.Morphological? then 2 else if status.Unknown? then 3
    else if status.CodeStatus? then 4 else 5
  }

  /** The length of the UTF-8 form in four bytes, and the form. */
  function TextLaid(values: seq<int>): seq<byte>
    requires AllScalars(values)
  {
    Le(|EncodeText(values)|, 4) + EncodeText(values)
  }

  function NameLaid(name: string): seq<byte> {
    TextLaid(Scalars(name))
  }

  function MorphemeLaid(): AlignedMorpheme -> seq<byte> {
    (m: AlignedMorpheme) =>
      NameLaid(m.id) + (if AllScalars(m.surface) then TextLaid(m.surface) else [])
      + Le(m.start, 8) + Le(m.end, 8) + [if m.derivational then 1 else 0]
  }

  function AnalysisLaid(a: Metadata): seq<byte> {
    NameLaid(a.canonical) + NameLaid(a.dictionaryId) + NameLaid(a.lexeme) + NameLaid(a.primaryPos) + NameLaid(a.secondaryPos)
    + Le(|a.morphemes|, 4) + Each(MorphemeLaid(), a.morphemes)
  }

  function TokenLaid(): TokenizedUnit -> seq<byte> {
    (u: TokenizedUnit) =>
      Le(u.start, 8) + Le(u.end, 8)
      + [KindNumber(u.kind), ModeNumber(u.mode), StatusNumber(u.status), if u.analysis.Some? then 1 else 0]
      + Le(if u.groupId.Some? then u.groupId.value else 0xFFFF_FFFF, 4)
      + Le(|u.cuts|, 4) + Each(Word64(), u.cuts)
      + if u.analysis.Some? then AnalysisLaid(u.analysis.value) else []
  }

  lemma TextIsLaid(values: seq<int>)
    requires IsShortText(values)
    ensures TextLaid(values) == EncodeString(values)
  {
    hide EncodeText, Le, U32;
    LittleEndian32(|EncodeText(values)|);
  }

  lemma MorphemeIsLaid(m: AlignedMorpheme)
    requires TokenizedCodec.MorphemeCodable(m)
    ensures MorphemeLaid()(m) == TokenizedCodec.EncodeMorpheme(m)
  {
    hide TextLaid, EncodeString, EncodeText, Le, U64, AllScalars;
    TextIsLaid(Scalars(m.id));
    TextIsLaid(m.surface);
    LittleEndian64(m.start);
    LittleEndian64(m.end);
    Regroup4(EncodeString(Scalars(m.id)) + EncodeString(m.surface), U64(m.start), U64(m.end), [if m.derivational then 1 else 0]);
  }

  lemma MorphemesAreLaid(ms: seq<AlignedMorpheme>)
    requires |ms| <= U32_MAX && forall i: nat | i < |ms| :: TokenizedCodec.MorphemeCodable(ms[i])
    ensures Le(|ms|, 4) + Each(MorphemeLaid(), ms) == Counted(TokenizedCodec.EncodeMorpheme)(ms)
  {
    hide Le, U32, Each, EncodeList, MorphemeLaid, TokenizedCodec.EncodeMorpheme, TokenizedCodec.MorphemeCodable;
    LittleEndian32(|ms|);
    forall i: nat | i < |ms|
      ensures MorphemeLaid()(ms[i]) == TokenizedCodec.EncodeMorpheme(ms[i])
    {
      MorphemeIsLaid(ms[i]);
    }
    EachIsList(MorphemeLaid(), TokenizedCodec.EncodeMorpheme, ms, ms);
  }

  lemma AnalysisIsLaid(a: Metadata)
    requires TokenizedCodec.AnalysisCodable(a)
    ensures AnalysisLaid(a) == TokenizedCodec.EncodeAnalysis(a)
  {
    hide TextLaid, EncodeString, Le, U32, Each, EncodeList, Counted, MorphemeLaid, IsShortText, TokenizedCodec.MorphemeCodable;
    TextIsLaid(Scalars(a.canonical));
    TextIsLaid(Scalars(a.dictionaryId));
    TextIsLaid(Scalars(a.lexeme));
    TextIsLaid(Scalars(a.primaryPos));
    TextIsLaid(Scalars(a.secondaryPos));
    MorphemesAreLaid(a.morphemes);
    var names := EncodeString(Scalars(a.canonical)) + EncodeString(Scalars(a.dictionaryId)) + EncodeString(Scalars(a.lexeme))
      + EncodeString(Scalars(a.primaryPos)) + EncodeString(Scalars(a.secondaryPos));
    assert names + Le(|a.morphemes|, 4) + Each(MorphemeLaid(), a.morphemes)
      == names + (Le(|a.morphemes|, 4) + Each(MorphemeLaid(), a.morphemes));
  }

  lemma HeadIsLaid(u: TokenizedUnit)
    requires TokenizedCodec.HeadCodable(TokenizedCodec.HeadOf(u))
    ensures TokenizedCodec.EncodeHead(TokenizedCodec.HeadOf(u)) ==
      Le(u.start, 8) + Le(u.end, 8)
      + [KindNumber(u.kind), ModeNumber(u.mode), StatusNumber(u.status), if u.analysis.Some? then 1 else 0]
      + Le(if u.groupId.Some? then u.groupId.value else 0xFFFF_FFFF, 4)
  {
    hide Le, U64, U32;
    LittleEndian64(u.start);
    LittleEndian64(u.end);
    LittleEndian32(if u.groupId.Some? then u.groupId.value else 0xFFFF_FFFF);
    Regroup4(U64(u.start), U64(u.end), TokenizedCodec.Flags(TokenizedCodec.HeadOf(u)),
             U32(TokenizedCodec.GroupCode(u.groupId)));
  }

  lemma TokenIsLaid(u: TokenizedUnit)
    requires TokenizedCodec.UnitCodable(u)
    ensures TokenLaid()(u) == TokenizedCodec.EncodeTokenized(u)
  {
    hide Le, U32, Each, EncodeList, AnalysisLaid, TokenizedCodec.EncodeAnalysis, TokenizedCodec.AnalysisCodable,
         TokenizedCodec.EncodeHead, KindNumber, ModeNumber, StatusNumber;
    HeadIsLaid(u);
    LittleEndian32(|u.cuts|);
    WordsAreLaid(u.cuts);
    if u.analysis.Some? {
      AnalysisIsLaid(u.analysis.value);
    }
    var head := TokenizedCodec.EncodeHead(TokenizedCodec.HeadOf(u));
    assert head + Le(|u.cuts|, 4) + Each(Word64(), u.cuts) == head + (Le(|u.cuts|, 4) + Each(Word64(), u.cuts));
  }

  /** Eight bytes that name the form, version 1, the sizes of text and unit list, the identities of the
      assets, the digest of what follows; then the text and its units. */
  lemma DocumentIsLaid(assets: TokenizedCodec.TokenAssets, raw: seq<byte>, units: seq<TokenizedUnit>)
    requires |raw| <= U64_MAX && |units| <= U64_MAX && AllValid(TokenizedCodec.UnitCodable, units)
    ensures TokenizedDocuments.EncodeDocument(assets, raw, units) ==
      var payload := raw + Each(TokenLaid(), units);
      [0x4E, 0x44, 0x54, 0x4F, 0x4B, 0x30, 0x30, 0x31, 0x01, 0x00, 0x00, 0x00]
      + Le(|raw|, 8) + Le(|units|, 8) + assets.morphology + assets.model + assets.digest(payload) + payload
  {
    hide Le, U64, Each, EncodeList, TokenLaid, TokenizedCodec.EncodeTokenized, TokenizedCodec.UnitCodable;
    LittleEndian64(|raw|);
    LittleEndian64(|units|);
    forall i: nat | i < |units|
      ensures TokenLaid()(units[i]) == TokenizedCodec.EncodeTokenized(units[i])
    {
      TokenIsLaid(units[i]);
    }
    EachIsList(TokenLaid(), TokenizedCodec.EncodeTokenized, units, units);
    var payload := TokenizedDocuments.Payload(raw, units);
    DocumentHeader(assets, |raw|, |units|, assets.digest(payload));
  }

  lemma DocumentHeader(assets: TokenizedCodec.TokenAssets, rawLength: nat, unitCount: nat, digest: seq<byte>)
    ensures TokenizedDocuments.Header(assets, rawLength, unitCount, digest) ==
      [0x4E, 0x44, 0x54, 0x4F, 0x4B, 0x30, 0x30, 0x31, 0x01, 0x00, 0x00, 0x00]
      + U64(rawLength) + U64(unitCount) + assets.morphology + assets.model + digest
  {
    hide U64;
    Regroup7(TokenizedCodec.TOKEN_MAGIC, U32(TokenizedCodec.TOKENIZER_SCHEMA_VERSION), U64(rawLength), U64(unitCount),
             assets.morphology, assets.model, digest);
    assert TokenizedCodec.TOKEN_MAGIC + U32(TokenizedCodec.TOKENIZER_SCHEMA_VERSION)
      == [0x4E, 0x44, 0x54, 0x4F, 0x4B, 0x30, 0x30, 0x31, 0x01, 0x00, 0x00, 0x00];
  }

  // ------------------------------------------------------------------------ compiled tables

  function Word32(): nat -> seq<byte> {
    (value: nat) => Le(value, 4)
  }

  lemma {:induction false} WordsAre32(values: seq<nat>)
    requires forall i | 0 <= i < |values| :: values[i] <= U32_MAX
    ensures Each(Word32(), values) == Words(values)
  {
    hide Le, U32;
    if values != [] {
      var body, last := values[..|values| - 1], values[|values| - 1];
      WordsAre32(body);
      LittleEndian32(last);
      EachConcat(Word32(), body, [last]);
      assert values == body + [last];
      assert Each(Word32(), [last]) == Word32()(last) + Each(Word32(), [last][1..]);
    }
  }

  function GroupLaid(): seq<int> -> seq<byte> {
    (ig: seq<int>) => if AllScalars(ig) then TextLaid(ig) else []
  }

  /** Five sizes and the Java hash in two's complement, all of four bytes; then the parts. */
  function CandidateLaid(): CompiledTable.Candidate -> seq<byte> {
    (c: CompiledTable.Candidate) =>
      if AllScalars(c.canonical) && AllScalars(c.lexeme) && -0x8000_0000 <= c.javaHash then
        var canonical, lexeme := EncodeText(c.canonical), EncodeText(c.lexeme);
        Le(|c.cuts|, 4) + [if c.unknown then 1 else 0, 0, 0, 0]
        + Le(if c.javaHash < 0 then c.javaHash + 0x1_0000_0000 else c.javaHash, 4)
        + Le(|canonical|, 4) + Le(|lexeme|, 4) + Le(|c.igs|, 4)
        + Each(Word32(), c.cuts) + canonical + lexeme + Each(GroupLaid(), c.igs)
      else []
  }

  function EntryLaid(): CompiledTable.ParsedEntry -> seq<byte> {
    (e: CompiledTable.ParsedEntry) =>
      Le(|e.surface|, 4) + Le(|e.candidates|, 4) + e.surface + Each(CandidateLaid(), e.candidates)
  }

  lemma CountsAreLaid(c: CompiledTable.Candidate)
    requires CompiledFormat.CountsCodable(CompiledFormat.CountsOf(c))
    requires AllScalars(c.canonical) && AllScalars(c.lexeme)
    ensures CompiledFormat.EncodeCounts(CompiledFormat.CountsOf(c)) ==
      Le(|c.cuts|, 4) + [if c.unknown then 1 else 0, 0, 0, 0]
      + Le(if c.javaHash < 0 then c.javaHash + 0x1_0000_0000 else c.javaHash, 4)
      + Le(|EncodeText(c.canonical)|, 4) + Le(|EncodeText(c.lexeme)|, 4) + Le(|c.igs|, 4)
  {
    hide Le, U32, EncodeText, AllScalars;
    var k := CompiledFormat.CountsOf(c);
    LittleEndian32(k.cuts);
    LittleEndian32(CompiledFormat.I32Code(k.javaHash));
    LittleEndian32(k.canonical);
    LittleEndian32(k.lexeme);
    LittleEndian32(k.igs);
    assert CompiledFormat.I32Code(k.javaHash) == if c.javaHash < 0 then c.javaHash + 0x1_0000_0000 else c.javaHash;
    RegroupSix(U32(k.cuts), CompiledFormat.Flags(k.unknown), U32(CompiledFormat.I32Code(k.javaHash)), U32(k.canonical),
             U32(k.lexeme), U32(k.igs));
  }

  lemma RegroupSix(a: seq<byte>, b: seq<byte>, c: seq<byte>, d: seq<byte>, e: seq<byte>, f: seq<byte>)
    ensures a + (b + (c + (d + (e + f)))) == a + b + c + d + e + f
  {
  }

  lemma CandidateIsLaid(n: nat, c: CompiledTable.Candidate)
    requires CompiledFormat.Fits(n, c)
    ensures CandidateLaid()(c) == CompiledFormat.EncodeCandidate(c)
  {
    hide Le, U32, EncodeText, AllScalars, Each, EncodeList, Words, TextLaid, EncodeString, CompiledFormat.EncodeCounts;
    CountsAreLaid(c);
    WordsAre32(c.cuts);
    forall i: nat | i < |c.igs|
      ensures GroupLaid()(c.igs[i]) == EncodeString(c.igs[i])
    {
      assert IsShortText(c.igs[i]);
      TextIsLaid(c.igs[i]);
    }
    EachIsList(GroupLaid(), EncodeString, c.igs, c.igs);
    Regroup5(CompiledFormat.EncodeCounts(CompiledFormat.CountsOf(c)), Words(c.cuts), EncodeText(c.canonical),
             EncodeText(c.lexeme), EncodeList(EncodeString, c.igs));
  }

  lemma EntryIsLaid(e: CompiledTable.ParsedEntry)
    requires CompiledFormat.EntryCodable(e)
    ensures EntryLaid()(e) == CompiledFormat.EncodeEntry(e)
  {
    hide Le, U32, Each, EncodeList, CandidateLaid, CompiledFormat.EncodeCandidate, CompiledFormat.Fits, TextOf;
    LittleEndian32(|e.surface|);
    LittleEndian32(|e.candidates|);
    forall i: nat | i < |e.candidates|
      ensures CandidateLaid()(e.candidates[i]) == CompiledFormat.EncodeCandidate(e.candidates[i])
    {
      CandidateIsLaid(|e.surface|, e.candidates[i]);
    }
    EachIsList(CandidateLaid(), CompiledFormat.EncodeCandidate, e.candidates, e.candidates);
    Regroup4(U32(|e.surface|), U32(|e.candidates|), e.surface, EncodeList(CompiledFormat.EncodeCandidate, e.candidates));
  }

  /** Eight bytes that name the form, version 1, the identities of the assets, the number of entries, the
      digest of what follows; then the entries. */
  lemma TableIsLaid(assets: TokenizedCodec.TokenAssets, entries: seq<CompiledTable.ParsedEntry>)
    requires |entries| <= U32_MAX && AllValid(CompiledFormat.EntryCodable, entries)
    ensures CompiledCodec.EncodeTable(assets, entries) ==
      var payload := Each(EntryLaid(), entries);
      [0x4E, 0x45, 0x44, 0x4F, 0x46, 0x55, 0x4C, 0x31, 0x01, 0x00, 0x00, 0x00]
      + assets.morphology + assets.model + Le(|entries|, 4) + assets.digest(payload) + payload
  {
    hide Le, Each, EncodeList, EntryLaid, CompiledFormat.EncodeEntry, CompiledFormat.EntryCodable;
    LittleEndian32(|entries|);
    forall i: nat | i < |entries|
      ensures EntryLaid()(entries[i]) == CompiledFormat.EncodeEntry(entries[i])
    {
      EntryIsLaid(entries[i]);
    }
    EachIsList(EntryLaid(), CompiledFormat.EncodeEntry, entries, entries);
    var payload := EncodeList(CompiledFormat.EncodeEntry, entries);
    TableHeaderIs(assets, |entries|, assets.digest(payload));
  }

  lemma TableHeaderIs(assets: TokenizedCodec.TokenAssets, count: nat, digest: seq<byte>)
    requires count <= U32_MAX
    ensures CompiledCodec.TableHeader(assets, count, digest) ==
      [0x4E, 0x45, 0x44, 0x4F, 0x46, 0x55, 0x4C, 0x31, 0x01, 0x00, 0x00, 0x00]
      + assets.morphology + assets.model + U32(count) + digest
  {
    Regroup6(CompiledCodec.TABLE_MAGIC, U32(CompiledCodec.TABLE_VERSION), assets.morphology, assets.model, U32(count), digest);
    assert CompiledCodec.TABLE_MAGIC + U32(CompiledCodec.TABLE_VERSION)
      == [0x4E, 0x45, 0x44, 0x4F, 0x46, 0x55, 0x4C, 0x31, 0x01, 0x00, 0x00, 0x00];
  }
}
