/** Encoding and decoding of whole tokenized documents. */
module TokenizedDocuments {
  import opened Wrappers
  import opened Bytes
  import opened LosslessFormat
  import opened Document
  import Alignment
  import LexicalClasses
  import Splitting
  import opened TokenizedCodec
  import opened TokenizedReader

  function Payload(raw: seq<byte>, units: seq<TokenizedUnit>): seq<byte> {
    raw + EncodeList(EncodeTokenized, units)
  }

  /** The 188 bytes before the payload. */
  function Header(assets: TokenAssets, rawLength: nat, unitCount: nat, digest: seq<byte>): seq<byte> {
    TOKEN_MAGIC + (U32(TOKENIZER_SCHEMA_VERSION)
    + (U64(rawLength) + (U64(unitCount) + (assets.morphology + (assets.model + digest)))))
  }

  function EncodeDocument(assets: TokenAssets, raw: seq<byte>, units: seq<TokenizedUnit>): seq<byte> {
    var payload := Payload(raw, units);
    Header(assets, |raw|, |units|, assets.digest(payload)) + payload
  }

  /** The documents that have a binary form of their own. */
  ghost predicate Codable(raw: seq<byte>, units: seq<TokenizedUnit>) {
    DocumentOk(units, |raw|) && |raw| <= U64_MAX && |units| <= U64_MAX && AllValid(UnitCodable, units)
  }

  // ------------------------------------------------------------------------ shape

  /** What an input must look like to be a document with the given counts. */
  predicate HeaderFits(assets: TokenAssets, input: seq<byte>, rawLength: nat, unitCount: nat) {
    && |input| >= 188 && input[..8] == TOKEN_MAGIC && ReadU32(input, 8) == TOKENIZER_SCHEMA_VERSION
    && ReadU64(input, 12) == rawLength && ReadU64(input, 20) == unitCount
    && input[28..92] == assets.morphology && input[92..156] == assets.model
    && input[156..188] == assets.digest(input[188..])
  }

  lemma HeaderOfFitting(assets: TokenAssets, input: seq<byte>, rawLength: nat, unitCount: nat)
    requires assets.Valid() && rawLength <= U64_MAX && unitCount <= U64_MAX
    requires HeaderFits(assets, input, rawLength, unitCount)
    ensures input == Header(assets, rawLength, unitCount, assets.digest(input[188..])) + input[188..]
  {
    hide U64, U32, ReadU64, ReadU32;
    ReadOfU32(input, 8, TOKENIZER_SCHEMA_VERSION);
    ReadOfU64(input, 12, rawLength);
    ReadOfU64(input, 20, unitCount);
    var digest := input[156..188];
    assert input[92..188] == input[92..156] + digest;
    assert input[28..188] == input[28..92] + input[92..188];
    assert input[20..188] == input[20..28] + input[28..188];
    assert input[12..188] == input[12..20] + input[20..188];
    assert input[8..188] == input[8..12] + input[12..188];
    assert input[..188] == input[..8] + input[8..188];
    assert input == input[..188] + input[188..];
  }

  lemma FittingOfHeader(assets: TokenAssets, input: seq<byte>, rawLength: nat, unitCount: nat, payload: seq<byte>)
    requires assets.Valid() && rawLength <= U64_MAX && unitCount <= U64_MAX
    requires input == Header(assets, rawLength, unitCount, assets.digest(payload)) + payload
    ensures HeaderFits(assets, input, rawLength, unitCount) && input[188..] == payload
  {
    hide U64, U32, ReadU64, ReadU32;
    var digest := assets.digest(payload);
    var at92 := assets.model + digest;
    var at28 := assets.morphology + at92;
    var at20 := U64(unitCount) + at28;
    var at12 := U64(rawLength) + at20;
    var at8 := U32(TOKENIZER_SCHEMA_VERSION) + at12;
    assert Embedded(input, 0, Header(assets, rawLength, unitCount, digest));
    EmbeddedSplit(input, 0, TOKEN_MAGIC, at8);
    EmbeddedSplit(input, 8, U32(TOKENIZER_SCHEMA_VERSION), at12);
    EmbeddedSplit(input, 12, U64(rawLength), at20);
    EmbeddedSplit(input, 20, U64(unitCount), at28);
    EmbeddedSplit(input, 28, assets.morphology, at92);
    EmbeddedSplit(input, 92, assets.model, digest);
    ReadOfU32(input, 8, TOKENIZER_SCHEMA_VERSION);
    ReadOfU64(input, 12, rawLength);
    ReadOfU64(input, 20, unitCount);
    assert input[188..] == payload;
  }

  /** A document is its header and its payload. */
  lemma DocumentShape(assets: TokenAssets, input: seq<byte>, raw: seq<byte>, units: seq<TokenizedUnit>)
    requires assets.Valid() && |raw| <= U64_MAX && |units| <= U64_MAX
    ensures input == EncodeDocument(assets, raw, units) <==>
      HeaderFits(assets, input, |raw|, |units|) && input[188..] == Payload(raw, units)
  {
    hide Payload, Header, HeaderFits;
    if input == EncodeDocument(assets, raw, units) {
      FittingOfHeader(assets, input, |raw|, |units|, Payload(raw, units));
    }
    if HeaderFits(assets, input, |raw|, |units|) && |input| >= 188 && input[188..] == Payload(raw, units) {
      HeaderOfFitting(assets, input, |raw|, |units|);
    }
    HeaderLength(assets, input, |raw|, |units|);
  }

  lemma HeaderLength(assets: TokenAssets, input: seq<byte>, rawLength: nat, unitCount: nat)
    ensures HeaderFits(assets, input, rawLength, unitCount) ==> |input| >= 188
  {
  }

  lemma {:induction false} PayloadShape(payload: seq<byte>, raw: seq<byte>, units: seq<TokenizedUnit>)
    ensures payload == Payload(raw, units) <==>
      |payload| >= |raw| && payload[..|raw|] == raw && payload[|raw|..] == EncodeList(EncodeTokenized, units)
  {
    hide EncodeList;
    if |payload| >= |raw| {
      assert payload == payload[..|raw|] + payload[|raw|..];
    }
    if payload == Payload(raw, units) {
      assert payload[..|raw|] == raw;
    }
  }

  lemma UnitLength()
    ensures forall u: TokenizedUnit :: |EncodeTokenized(u)| >= 24
  {
    hide EncodeHead, U64, EncodeAnalysis;
  }

  /** Different documents have different encodings. */
  lemma EncodeInjective(assets: TokenAssets, raw: seq<byte>, units: seq<TokenizedUnit>,
                        otherRaw: seq<byte>, otherUnits: seq<TokenizedUnit>)
    requires assets.Valid() && Codable(raw, units) && Codable(otherRaw, otherUnits)
    requires EncodeDocument(assets, raw, units) == EncodeDocument(assets, otherRaw, otherUnits)
    ensures raw == otherRaw && units == otherUnits
  {
    hide EncodeDocument, Payload, EncodeList, EncodeTokenized, UnitCodable, DocumentOk, PrefixFree, ReadU64, ReadU32;
    var input := EncodeDocument(assets, raw, units);
    DocumentShape(assets, input, raw, units);
    DocumentShape(assets, input, otherRaw, otherUnits);
    PayloadShape(input[188..], raw, units);
    PayloadShape(input[188..], otherRaw, otherUnits);
    TokenizedPrefixFree();
    ListUnique(EncodeTokenized, UnitCodable, units, otherUnits, EncodeList(EncodeTokenized, units), 0);
  }

  // ---------------------------------------------------------------------- encoding

  ghost predicate AllRepresentable(units: seq<TokenizedUnit>) {
    forall i: nat | i < |units| :: Representable(units[i])
  }

  method Encode(assets: TokenAssets, raw: seq<byte>, units: seq<TokenizedUnit>) returns (r: Option<seq<byte>>)
    requires |raw| <= U64_MAX && |units| <= U64_MAX && AllRepresentable(units)
    ensures r.Some? <==> DocumentOk(units, |raw|) && AllValid(Writable, units)
    ensures r.Some? ==> r.value == EncodeDocument(assets, raw, units)
  {
    hide DocumentOk, Representable, Writable, EncodeTokenized, U64, U32;
    var valid := Validate(units, |raw|);
    if !valid {
      return None;
    }
    var payload := raw;
    for i := 0 to |units|
      invariant forall k: nat | k < i :: Writable(units[k])
      invariant payload == raw + EncodeList(EncodeTokenized, units[..i])
    {
      var next := WriteTokenized(payload, units[i]);
      if next.None? {
        return None;
      }
      payload := next.value;
      assert units[..i + 1][..i] == units[..i];
    }
    assert units[..|units|] == units;
    var output := TOKEN_MAGIC + U32(TOKENIZER_SCHEMA_VERSION) + U64(|raw|) + U64(|units|);
    output := output + assets.morphology + assets.model + assets.digest(payload) + payload;
    r := Some(output);
  }

  /** What the decoder makes of a written document: the largest group number reads as no group. */
  function ReadBack(units: seq<TokenizedUnit>): (read: seq<TokenizedUnit>)
    ensures |read| == |units|
  {
    seq(|units|, i requires 0 <= i < |units| => UnitReadBack(units[i]))
  }

  function UnitReadBack(u: TokenizedUnit): TokenizedUnit {
    if u.groupId == Some(NONE_GROUP) then u.(groupId := None) else u
  }

  /** Every document the encoder accepts shares its encoding with a codable document, which is the
      document itself exactly if no unit carries the largest group number. */
  lemma WrittenIsCodable(assets: TokenAssets, raw: seq<byte>, units: seq<TokenizedUnit>)
    requires |raw| <= U64_MAX && |units| <= U64_MAX && AllRepresentable(units)
    requires DocumentOk(units, |raw|) && AllValid(Writable, units)
    ensures Codable(raw, ReadBack(units))
    ensures EncodeDocument(assets, raw, ReadBack(units)) == EncodeDocument(assets, raw, units)
    ensures ReadBack(units) == units <==> forall i: nat | i < |units| :: units[i].groupId != Some(NONE_GROUP)
  {
    hide DocumentOk, EncodeTokenized, Header, UnitCodable, Writable, Representable, EncodeList;
    ReadBackIsOk(units, |raw|);
    forall i: nat | i < |units|
      ensures UnitCodable(UnitReadBack(units[i])) && EncodeTokenized(UnitReadBack(units[i])) == EncodeTokenized(units[i])
    {
      UnitReadsBack(units[i]);
    }
    SameCodes(units, ReadBack(units));
    if forall i: nat | i < |units| :: units[i].groupId != Some(NONE_GROUP) {
      assert ReadBack(units) == units;
    }
    if ReadBack(units) == units {
      forall i: nat | i < |units|
        ensures units[i].groupId != Some(NONE_GROUP)
      {
        assert ReadBack(units)[i] == UnitReadBack(units[i]);
      }
    }
  }

  /** A blank in the largest group. */
  const LAST_GROUP_UNIT: TokenizedUnit :=
    TokenizedUnit(0, 1, LexicalClasses.Whitespace, Splitting.Turkish, Structural, Some(NONE_GROUP), [], None)

  /** A valid, written document that does not read back as it was. */
  lemma LargestGroupIsLost()
    ensures DocumentOk([LAST_GROUP_UNIT], 1) && AllRepresentable([LAST_GROUP_UNIT]) && AllValid(Writable, [LAST_GROUP_UNIT])
    ensures ReadBack([LAST_GROUP_UNIT]) != [LAST_GROUP_UNIT]
    ensures ReadBack([LAST_GROUP_UNIT])[0].groupId == None
  {
    assert UnitOk(LAST_GROUP_UNIT);
    assert ReadBack([LAST_GROUP_UNIT])[0] == UnitReadBack(LAST_GROUP_UNIT);
  }

  lemma {:induction false} SameCodes(first: seq<TokenizedUnit>, second: seq<TokenizedUnit>)
    requires |first| == |second|
    requires forall i: nat | i < |first| :: EncodeTokenized(first[i]) == EncodeTokenized(second[i])
    ensures EncodeList(EncodeTokenized, first) == EncodeList(EncodeTokenized, second)
  {
    hide EncodeTokenized;
    if first != [] {
      SameCodes(first[..|first| - 1], second[..|second| - 1]);
    }
  }

  lemma UnitReadsBack(u: TokenizedUnit)
    requires Representable(u) && Writable(u)
    ensures UnitCodable(UnitReadBack(u)) && EncodeTokenized(UnitReadBack(u)) == EncodeTokenized(u)
  {
    hide U64, U32, EncodeAnalysis, AnalysisCodable, KindCode, ModeCode, StatusCode, EncodeList;
    assert GroupCode(UnitReadBack(u).groupId) == GroupCode(u.groupId);
  }

  lemma ReadBackIsOk(units: seq<TokenizedUnit>, length: nat)
    requires DocumentOk(units, length)
    ensures DocumentOk(ReadBack(units), length)
  {
    hide CutsValid, AnalysisOk, ModeFitsStatus;
    var read := ReadBack(units);
    forall i: nat | i < |read|
      ensures UnitOk(read[i]) && read[i].start == units[i].start && read[i].end == units[i].end
    {
      assert UnitOk(units[i]);
      OkWithoutGroup(units[i]);
    }
    forall i: nat | 0 < i < |read|
      ensures read[i - 1].end == read[i].start
    {
      assert units[i - 1].end == units[i].start;
    }
  }

  lemma OkWithoutGroup(u: TokenizedUnit)
    requires UnitOk(u)
    ensures UnitOk(u.(groupId := None))
  {
    hide CutsValid, Alignment.MorphemesOk;
  }

  // ---------------------------------------------------------------------- decoding

  /** Reads the units behind the raw bytes; `None` if there are none of that number, or more bytes. */
  method ReadUnits(payload: seq<byte>, rawLength: nat, unitCount: nat) returns (r: Option<seq<TokenizedUnit>>)
    ensures r.Some? ==>
      && rawLength <= |payload| && |r.value| == unitCount && AllValid(UnitCodable, r.value)
      && payload[rawLength..] == EncodeList(EncodeTokenized, r.value)
    ensures forall units: seq<TokenizedUnit> | |units| == unitCount && AllValid(UnitCodable, units) ::
      rawLength <= |payload| && payload[rawLength..] == EncodeList(EncodeTokenized, units) ==> r == Some(units)
  {
    hide EncodeList, EncodeTokenized, UnitCodable, Found, ListFound, NoList, PrefixFree;
    var reader := new BinaryReader(payload);
    var raw := reader.Take(rawLength);
    if raw.None? {
      return None;
    }
    if unitCount > (|payload| - reader.position) / 24 {
      TooManyUnits(payload, rawLength, unitCount);
      return None;
    }
    TokenizedPrefixFree();
    var units: seq<TokenizedUnit> := [];
    ListStart(EncodeTokenized, UnitCodable, payload, rawLength);
    for i := 0 to unitCount
      invariant reader.Valid() && |units| == i
      invariant ListFound(EncodeTokenized, UnitCodable, payload, rawLength, units, reader.position)
    {
      ghost var middle := reader.position;
      var unit := ReadUnit(reader);
      if unit.None? {
        ListMisses(EncodeTokenized, UnitCodable, payload, rawLength, units, middle, unitCount, reader.position);
        NoUnits(payload, rawLength, unitCount);
        return None;
      }
      ListGrows(EncodeTokenized, UnitCodable, payload, rawLength, units, middle, unit.value, reader.position);
      units := units + [unit.value];
    }
    OnlyUnits(payload, rawLength, units, reader.position);
    if reader.position != |payload| {
      return None;
    }
    r := Some(units);
  }

  lemma TooManyUnits(payload: seq<byte>, rawLength: nat, unitCount: nat)
    requires rawLength <= |payload| && unitCount > (|payload| - rawLength) / 24
    ensures forall units: seq<TokenizedUnit> | |units| == unitCount ::
      payload[rawLength..] != EncodeList(EncodeTokenized, units)
  {
    hide EncodeList, EncodeTokenized;
    forall units: seq<TokenizedUnit> | |units| == unitCount
      ensures payload[rawLength..] != EncodeList(EncodeTokenized, units)
    {
      UnitLength();
      ListLength(EncodeTokenized, units, 24);
    }
  }

  lemma TailEmbedded(bytes: seq<byte>, position: nat, code: seq<byte>)
    requires position <= |bytes|
    ensures bytes[position..] == code ==> Embedded(bytes, position, code)
  {
  }

  lemma NoUnits(payload: seq<byte>, rawLength: nat, unitCount: nat)
    requires rawLength <= |payload| && NoList(EncodeTokenized, UnitCodable, payload, rawLength, unitCount)
    ensures forall units: seq<TokenizedUnit> | |units| == unitCount && AllValid(UnitCodable, units) ::
      payload[rawLength..] != EncodeList(EncodeTokenized, units)
  {
    hide EncodeList, EncodeTokenized, UnitCodable, AllValid;
    forall units: seq<TokenizedUnit> | |units| == unitCount && AllValid(UnitCodable, units)
      ensures payload[rawLength..] != EncodeList(EncodeTokenized, units)
    {
      TailEmbedded(payload, rawLength, EncodeList(EncodeTokenized, units));
    }
  }

  lemma {:induction false} OnlyUnits(payload: seq<byte>, rawLength: nat, units: seq<TokenizedUnit>, end: nat)
    requires rawLength <= |payload| && ListFound(EncodeTokenized, UnitCodable, payload, rawLength, units, end)
    ensures AllValid(UnitCodable, units)
    ensures end == |payload| ==> payload[rawLength..] == EncodeList(EncodeTokenized, units)
    ensures forall others: seq<TokenizedUnit> | |others| == |units| && AllValid(UnitCodable, others) ::
      payload[rawLength..] == EncodeList(EncodeTokenized, others) ==> others == units && end == |payload|
  {
    hide EncodeList, EncodeTokenized, UnitCodable, AllValid, PrefixFree;
    TokenizedPrefixFree();
    forall others: seq<TokenizedUnit> | |others| == |units| && AllValid(UnitCodable, others)
        && payload[rawLength..] == EncodeList(EncodeTokenized, others)
      ensures others == units && end == |payload|
    {
      TailEmbedded(payload, rawLength, EncodeList(EncodeTokenized, others));
      ListUnique(EncodeTokenized, UnitCodable, units, others, payload, rawLength);
    }
    if end == |payload| {
      assert payload[rawLength..end] == payload[rawLength..];
    }
  }

  /** Decodes an input exactly if it is the encoding of a codable document, and then to that document. */
  method Decode(assets: TokenAssets, input: seq<byte>) returns (r: Option<(seq<byte>, seq<TokenizedUnit>)>)
    requires assets.Valid()
    ensures r.Some? ==> Codable(r.value.0, r.value.1) && EncodeDocument(assets, r.value.0, r.value.1) == input
    ensures forall raw, units | Codable(raw, units) && EncodeDocument(assets, raw, units) == input :: r == Some((raw, units))
  {
    hide EncodeDocument, Codable, ReadU64, ReadU32, EncodeList, TokenAssets.Valid;
    if |input| < 188 {
      MisfitIsNoDocument(assets, input);
      return None;
    }
    var fits, rawLength, unitCount := ReadHeader(assets, input);
    if !fits {
      MisfitIsNoDocument(assets, input);
      return None;
    }
    var payload := input[188..];
    var units := ReadUnits(payload, rawLength, unitCount);
    if units.None? {
      OtherUnits(assets, input, None);
      return None;
    }
    var raw := payload[..rawLength];
    var valid := Validate(units.value, |raw|);
    OtherUnits(assets, input, units);
    if !valid {
      InvalidIsNotCodable(raw, units.value);
      return None;
    }
    Decoded(assets, input, raw, units.value);
    r := Some((raw, units.value));
  }

  /** The fixed fields; the payload must have the digest the header gives. */
  method ReadHeader(assets: TokenAssets, input: seq<byte>) returns (fits: bool, rawLength: nat, unitCount: nat)
    requires |input| >= 188 && assets.Valid()
    ensures fits <==> HeaderFits(assets, input, ReadU64(input, 12), ReadU64(input, 20))
    ensures fits ==> rawLength == ReadU64(input, 12) && unitCount == ReadU64(input, 20)
  {
    hide ReadU64, ReadU32;
    fits, rawLength, unitCount := false, 0, 0;
    if input[..8] != TOKEN_MAGIC {
      return;
    }
    var reader := new BinaryReader(input[8..]);
    var rest := input[8..];
    BehindMagic(input);
    var version := reader.TakeU32();
    if version.None? || version.value != TOKENIZER_SCHEMA_VERSION {
      return;
    }
    var length := reader.TakeU64();
    var count := reader.TakeU64();
    if length.None? || count.None? {
      return;
    }
    var morphology := reader.Take(64);
    var model := reader.Take(64);
    if morphology.None? || model.None? || morphology.value != assets.morphology || model.value != assets.model {
      return;
    }
    var digest := reader.Take(32);
    if digest.None? || digest.value != assets.digest(rest[reader.position..]) {
      return;
    }
    return true, length.value, count.value;
  }

  lemma BehindMagic(input: seq<byte>)
    requires |input| >= 188
    ensures var rest := input[8..];
      && ReadU32(rest, 0) == ReadU32(input, 8) && ReadU64(rest, 4) == ReadU64(input, 12)
      && ReadU64(rest, 12) == ReadU64(input, 20) && rest[20..84] == input[28..92] && rest[84..148] == input[92..156]
      && rest[148..180] == input[156..188] && rest[180..] == input[188..]
  {
  }

  lemma MisfitIsNoDocument(assets: TokenAssets, input: seq<byte>)
    requires assets.Valid()
    requires |input| >= 188 ==> !HeaderFits(assets, input, ReadU64(input, 12), ReadU64(input, 20))
    ensures forall raw, units | Codable(raw, units) :: EncodeDocument(assets, raw, units) != input
  {
    hide EncodeDocument, ReadU64, ReadU32, DocumentOk;
    forall raw, units | Codable(raw, units)
      ensures EncodeDocument(assets, raw, units) != input
    {
      DocumentShape(assets, input, raw, units);
    }
  }

  lemma OtherUnits(assets: TokenAssets, input: seq<byte>, found: Option<seq<TokenizedUnit>>)
    requires assets.Valid() && |input| >= 188
    requires forall units: seq<TokenizedUnit> | |units| == ReadU64(input, 20) && AllValid(UnitCodable, units) ::
      ReadU64(input, 12) <= |input[188..]| && input[188..][ReadU64(input, 12)..] == EncodeList(EncodeTokenized, units)
      ==> found == Some(units)
    ensures forall raw, units | Codable(raw, units) && EncodeDocument(assets, raw, units) == input ::
      |raw| <= |input[188..]| && |raw| == ReadU64(input, 12) && raw == input[188..][..|raw|] && found == Some(units)
  {
    hide EncodeDocument, ReadU64, ReadU32, DocumentOk, EncodeList, EncodeTokenized, UnitCodable, Payload;
    forall raw, units | Codable(raw, units) && EncodeDocument(assets, raw, units) == input
      ensures |raw| <= |input[188..]| && |raw| == ReadU64(input, 12) && raw == input[188..][..|raw|] && found == Some(units)
    {
      DocumentShape(assets, input, raw, units);
      PayloadShape(input[188..], raw, units);
    }
  }

  lemma InvalidIsNotCodable(raw: seq<byte>, units: seq<TokenizedUnit>)
    requires !DocumentOk(units, |raw|)
    ensures !Codable(raw, units)
  {
  }

  lemma {:induction false} Decoded(assets: TokenAssets, input: seq<byte>, raw: seq<byte>, units: seq<TokenizedUnit>)
    requires assets.Valid() && |input| >= 188 && HeaderFits(assets, input, |raw|, |units|)
    requires |raw| <= |input[188..]| && raw == input[188..][..|raw|]
    requires AllValid(UnitCodable, units) && input[188..][|raw|..] == EncodeList(EncodeTokenized, units)
    requires DocumentOk(units, |raw|)
    ensures Codable(raw, units) && EncodeDocument(assets, raw, units) == input
  {
    hide EncodeDocument, ReadU64, ReadU32, DocumentOk, EncodeList, EncodeTokenized, UnitCodable, Payload;
    DocumentShape(assets, input, raw, units);
    PayloadShape(input[188..], raw, units);
  }
}
