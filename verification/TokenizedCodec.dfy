/** The checksum-protected binary form of tokenized documents. */
module TokenizedCodec {
  import opened Wrappers
  import opened Bytes
  import opened LexicalClasses
  import opened LosslessFormat
  import opened Splitting
  import opened Alignment
  import opened Document
  import opened Codecs

  const TOKEN_MAGIC: seq<byte> := [0x4E, 0x44, 0x54, 0x4F, 0x4B, 0x30, 0x30, 0x31]
  const TOKENIZER_SCHEMA_VERSION: nat := 1
  const NONE_GROUP: nat := 0xFFFF_FFFF

  /** The digest function and the identities of morphology and model. */
  datatype TokenAssets = TokenAssets(digest: seq<byte> -> seq<byte>, morphology: seq<byte>, model: seq<byte>) {
    ghost predicate Valid() {
      |morphology| == 64 && |model| == 64 && forall bytes: seq<byte> :: |digest(bytes)| == 32
    }
  }

  // ---------------------------------------------------------------- enumerations

  function KindCode(kind: Kind): byte {
    match kind
    case Whitespace => 1
    case LineBreak => 2
    case Word => 3
    case Number => 4
    case Punctuation => 5
    case Symbol => 6
    case Control => 7
    case Opaque => 8
  }

  function LexicalKind(code: byte): (kind: Option<Kind>)
    ensures forall k: Kind :: kind == Some(k) <==> KindCode(k) == code
  {
    if code == 1 then Some(Whitespace) else if code == 2 then Some(LineBreak) else if code == 3 then Some(Word)
    else if code == 4 then Some(Number) else if code == 5 then Some(Punctuation) else if code == 6 then Some(Symbol)
    else if code == 7 then Some(Control) else if code == 8 then Some(Opaque) else None
  }

  function ModeCode(mode: Mode): byte {
    match mode
    case Turkish => 1
    case Code => 2
    case OpaqueMode => 3
  }

  function TokenMode(code: byte): (mode: Option<Mode>)
    ensures forall m: Mode :: mode == Some(m) <==> ModeCode(m) == code
  {
    if code == 1 then Some(Turkish) else if code == 2 then Some(Code) else if code == 3 then Some(OpaqueMode) else None
  }

  function StatusCode(status: Status): byte {
    match status
    case Structural => 1
    case Morphological => 2
    case Unknown => 3
    case CodeStatus => 4
    case OpaqueStatus => 5
  }

  function TokenStatus(code: byte): (status: Option<Status>)
    ensures forall s: Status :: status == Some(s) <==> StatusCode(s) == code
  {
    if code == 1 then Some(Structural) else if code == 2 then Some(Morphological) else if code == 3 then Some(Unknown)
    else if code == 4 then Some(CodeStatus) else if code == 5 then Some(OpaqueStatus) else None
  }

  function BoolCode(value: bool): byte {
    if value then 1 else 0
  }

  function Boolean(code: byte): (value: Option<bool>)
    ensures forall b: bool :: value == Some(b) <==> BoolCode(b) == code
  {
    if code == 0 then Some(false) else if code == 1 then Some(true) else None
  }

  function GroupCode(groupId: Option<nat>): (code: nat)
    ensures code <= U32_MAX
  {
    if groupId.None? then NONE_GROUP else groupId.value % 0x1_0000_0000
  }

  function GroupOf(code: nat): Option<nat> {
    if code == NONE_GROUP then None else Some(code)
  }

  // ------------------------------------------------------------- the head of a unit

  datatype Head = Head(start: nat, end: nat, kind: Kind, mode: Mode, status: Status, analysed: bool, groupId: Option<nat>)

  function Flags(h: Head): seq<byte> {
    [KindCode(h.kind), ModeCode(h.mode), StatusCode(h.status), BoolCode(h.analysed)]
  }

  function EncodeHead(h: Head): (code: seq<byte>)
    ensures |code| == 24
  {
    U64(h.start) + (U64(h.end) + (Flags(h) + U32(GroupCode(h.groupId))))
  }

  predicate HeadCodable(h: Head) {
    h.start <= U64_MAX && h.end <= U64_MAX && (h.groupId.Some? ==> h.groupId.value < NONE_GROUP)
  }

  /** The fields found at a position, if its enumerations and flag are known. */
  function HeadFields(bytes: seq<byte>, position: nat): Option<Head>
    requires position + 24 <= |bytes|
  {
    var kind := LexicalKind(bytes[position + 16]);
    var mode := TokenMode(bytes[position + 17]);
    var status := TokenStatus(bytes[position + 18]);
    var analysed := Boolean(bytes[position + 19]);
    if kind.None? || mode.None? || status.None? || analysed.None? then None
    else
      Some(Head(ReadU64(bytes, position), ReadU64(bytes, position + 8), kind.value, mode.value, status.value,
                analysed.value, GroupOf(ReadU32(bytes, position + 20))))
  }

  lemma HeadAt(bytes: seq<byte>, position: nat, h: Head)
    ensures HeadCodable(h) && Embedded(bytes, position, EncodeHead(h)) <==>
      position + 24 <= |bytes| && HeadFields(bytes, position) == Some(h)
  {
    hide U64, U32, ReadU64, ReadU32, KindCode, ModeCode, StatusCode, LexicalKind, TokenMode, TokenStatus;
    if HeadCodable(h) && Embedded(bytes, position, EncodeHead(h)) {
      HeadParts(bytes, position, h);
    } else if position + 24 <= |bytes| && HeadFields(bytes, position) == Some(h) {
      HeadJoined(bytes, position, h);
    }
  }

  lemma HeadParts(bytes: seq<byte>, position: nat, h: Head)
    requires HeadCodable(h) && Embedded(bytes, position, EncodeHead(h))
    ensures position + 24 <= |bytes| && HeadFields(bytes, position) == Some(h)
  {
    hide U64, U32, ReadU64, ReadU32, KindCode, ModeCode, StatusCode, LexicalKind, TokenMode, TokenStatus;
    EmbeddedSplit(bytes, position, U64(h.start), U64(h.end) + (Flags(h) + U32(GroupCode(h.groupId))));
    EmbeddedSplit(bytes, position + 8, U64(h.end), Flags(h) + U32(GroupCode(h.groupId)));
    EmbeddedSplit(bytes, position + 16, Flags(h), U32(GroupCode(h.groupId)));
    ReadOfU64(bytes, position, h.start);
    ReadOfU64(bytes, position + 8, h.end);
    ReadOfU32(bytes, position + 20, GroupCode(h.groupId));
    FourBytesAt(bytes, position + 16);
  }

  lemma HeadJoined(bytes: seq<byte>, position: nat, h: Head)
    requires position + 24 <= |bytes| && HeadFields(bytes, position) == Some(h)
    ensures HeadCodable(h) && Embedded(bytes, position, EncodeHead(h))
  {
    hide U64, U32, ReadU64, ReadU32, KindCode, ModeCode, StatusCode, LexicalKind, TokenMode, TokenStatus;
    ReadOfU64(bytes, position, h.start);
    ReadOfU64(bytes, position + 8, h.end);
    ReadOfU32(bytes, position + 20, GroupCode(h.groupId));
    FourBytesAt(bytes, position + 16);
    EmbeddedJoin(bytes, position + 16, Flags(h), U32(GroupCode(h.groupId)));
    EmbeddedJoin(bytes, position + 8, U64(h.end), Flags(h) + U32(GroupCode(h.groupId)));
    EmbeddedJoin(bytes, position, U64(h.start), U64(h.end) + (Flags(h) + U32(GroupCode(h.groupId))));
  }

  lemma FourBytesAt(bytes: seq<byte>, position: nat)
    requires position + 4 <= |bytes|
    ensures bytes[position..position + 4] == [bytes[position], bytes[position + 1], bytes[position + 2], bytes[position + 3]]
  {
  }

  lemma HeadPrefixFree()
    ensures PrefixFree(EncodeHead, HeadCodable)
  {
    hide EncodeHead, HeadCodable, HeadFields, Embedded;
    forall bytes: seq<byte>, position: nat, x: Head, y: Head
      | HeadCodable(x) && HeadCodable(y)
        && Embedded(bytes, position, EncodeHead(x)) && Embedded(bytes, position, EncodeHead(y))
      ensures x == y
    {
      HeadAt(bytes, position, x);
      HeadAt(bytes, position, y);
    }
  }

  // ------------------------------------------------------------ morphemes and analyses

  datatype Place = Place(start: nat, end: nat, derivational: bool)

  function EncodePlace(p: Place): (code: seq<byte>)
    ensures |code| == 17
  {
    U64(p.start) + (U64(p.end) + [BoolCode(p.derivational)])
  }

  predicate PlaceCodable(p: Place) {
    p.start <= U64_MAX && p.end <= U64_MAX
  }

  function PlaceFields(bytes: seq<byte>, position: nat): Option<Place>
    requires position + 17 <= |bytes|
  {
    var derivational := Boolean(bytes[position + 16]);
    if derivational.None? then None
    else Some(Place(ReadU64(bytes, position), ReadU64(bytes, position + 8), derivational.value))
  }

  lemma PlaceAt(bytes: seq<byte>, position: nat, p: Place)
    ensures PlaceCodable(p) && Embedded(bytes, position, EncodePlace(p)) <==>
      position + 17 <= |bytes| && PlaceFields(bytes, position) == Some(p)
  {
    hide U64, ReadU64;
    if PlaceCodable(p) && Embedded(bytes, position, EncodePlace(p)) {
      PlaceParts(bytes, position, p);
    } else if position + 17 <= |bytes| && PlaceFields(bytes, position) == Some(p) {
      PlaceJoined(bytes, position, p);
    }
  }

  lemma PlaceParts(bytes: seq<byte>, position: nat, p: Place)
    requires PlaceCodable(p) && Embedded(bytes, position, EncodePlace(p))
    ensures position + 17 <= |bytes| && PlaceFields(bytes, position) == Some(p)
  {
    hide U64, ReadU64;
    EmbeddedSplit(bytes, position, U64(p.start), U64(p.end) + [BoolCode(p.derivational)]);
    EmbeddedSplit(bytes, position + 8, U64(p.end), [BoolCode(p.derivational)]);
    ReadOfU64(bytes, position, p.start);
    ReadOfU64(bytes, position + 8, p.end);
    assert bytes[position + 16..position + 17] == [bytes[position + 16]];
  }

  lemma PlaceJoined(bytes: seq<byte>, position: nat, p: Place)
    requires position + 17 <= |bytes| && PlaceFields(bytes, position) == Some(p)
    ensures PlaceCodable(p) && Embedded(bytes, position, EncodePlace(p))
  {
    hide U64, ReadU64;
    ReadOfU64(bytes, position, p.start);
    ReadOfU64(bytes, position + 8, p.end);
    assert bytes[position + 16..position + 17] == [bytes[position + 16]];
    EmbeddedJoin(bytes, position + 8, U64(p.end), [BoolCode(p.derivational)]);
    EmbeddedJoin(bytes, position, U64(p.start), U64(p.end) + [BoolCode(p.derivational)]);
  }

  function PlaceOf(m: AlignedMorpheme): Place {
    Place(m.start, m.end, m.derivational)
  }

  function MorphemeNames(m: AlignedMorpheme): seq<seq<int>> {
    [Scalars(m.id), m.surface]
  }

  function EncodeMorpheme(m: AlignedMorpheme): seq<byte> {
    EncodeString(Scalars(m.id)) + EncodeString(m.surface) + EncodePlace(PlaceOf(m))
  }

  predicate MorphemeCodable(m: AlignedMorpheme) {
    IsShortText(Scalars(m.id)) && IsShortText(m.surface) && PlaceCodable(PlaceOf(m))
  }

  function AnalysisNames(a: Metadata): seq<seq<int>> {
    [Scalars(a.canonical), Scalars(a.dictionaryId), Scalars(a.lexeme), Scalars(a.primaryPos), Scalars(a.secondaryPos)]
  }

  function AnalysisMorphemes(a: Metadata): seq<AlignedMorpheme> {
    a.morphemes
  }

  function EncodeAnalysis(a: Metadata): seq<byte> {
    EncodeString(Scalars(a.canonical)) + EncodeString(Scalars(a.dictionaryId)) + EncodeString(Scalars(a.lexeme))
    + EncodeString(Scalars(a.primaryPos)) + EncodeString(Scalars(a.secondaryPos)) + Counted(EncodeMorpheme)(a.morphemes)
  }

  predicate AnalysisCodable(a: Metadata) {
    && IsShortText(Scalars(a.canonical)) && IsShortText(Scalars(a.dictionaryId)) && IsShortText(Scalars(a.lexeme))
    && IsShortText(Scalars(a.primaryPos)) && IsShortText(Scalars(a.secondaryPos))
    && |a.morphemes| <= U32_MAX && forall i: nat | i < |a.morphemes| :: MorphemeCodable(a.morphemes[i])
  }

  lemma ListTwo<T>(enc: T -> seq<byte>, a: T, b: T)
    ensures EncodeList(enc, [a, b]) == enc(a) + enc(b)
  {
    assert [a, b][..1] == [a] && [a][..0] == [];
    assert EncodeList(enc, [a]) == enc(a);
  }

  lemma ListFive<T>(enc: T -> seq<byte>, a: T, b: T, c: T, d: T, e: T)
    ensures EncodeList(enc, [a, b, c, d, e]) == enc(a) + enc(b) + enc(c) + enc(d) + enc(e)
  {
    hide EncodeList;
    ListTwo(enc, a, b);
    ListPush(enc, [a, b], c);
    ListPush(enc, [a, b] + [c], d);
    ListPush(enc, [a, b] + [c] + [d], e);
    assert [a, b] + [c] + [d] + [e] == [a, b, c, d, e];
  }

  lemma MorphemeSplits()
    ensures Splits(Listed(EncodeString), ListedValid(IsShortText, 2), MorphemeNames, EncodePlace, PlaceCodable, PlaceOf,
                   EncodeMorpheme, MorphemeCodable)
  {
    hide EncodeString, IsShortText, EncodePlace, EncodeList, Scalars;
    forall m | MorphemeCodable(m)
      ensures ListedValid(IsShortText, 2)(MorphemeNames(m)) && PlaceCodable(PlaceOf(m))
      ensures EncodeMorpheme(m) == Listed(EncodeString)(MorphemeNames(m)) + EncodePlace(PlaceOf(m))
    {
      ListTwo(EncodeString, Scalars(m.id), m.surface);
    }
    forall m, n | MorphemeNames(m) == MorphemeNames(n) && PlaceOf(m) == PlaceOf(n)
      ensures m == n
    {
      assert MorphemeNames(m)[0] == MorphemeNames(n)[0] && MorphemeNames(m)[1] == MorphemeNames(n)[1];
      ScalarsInjective(m.id, n.id);
    }
  }

  lemma AnalysisSplits()
    ensures Splits(Listed(EncodeString), ListedValid(IsShortText, 5), AnalysisNames,
                   Counted(EncodeMorpheme), CountedValid(MorphemeCodable), AnalysisMorphemes, EncodeAnalysis, AnalysisCodable)
  {
    hide EncodeString, IsShortText, EncodeList, Scalars, MorphemeCodable, EncodeMorpheme, U32;
    forall a | AnalysisCodable(a)
      ensures ListedValid(IsShortText, 5)(AnalysisNames(a)) && CountedValid(MorphemeCodable)(AnalysisMorphemes(a))
      ensures EncodeAnalysis(a) == Listed(EncodeString)(AnalysisNames(a)) + Counted(EncodeMorpheme)(AnalysisMorphemes(a))
    {
      ListFive(EncodeString, Scalars(a.canonical), Scalars(a.dictionaryId), Scalars(a.lexeme), Scalars(a.primaryPos),
               Scalars(a.secondaryPos));
    }
    forall a, b | AnalysisNames(a) == AnalysisNames(b) && AnalysisMorphemes(a) == AnalysisMorphemes(b)
      ensures a == b
    {
      SameNames(a, b);
    }
  }

  lemma SameNames(a: Metadata, b: Metadata)
    requires AnalysisNames(a) == AnalysisNames(b) && a.morphemes == b.morphemes
    ensures a == b
  {
    hide Scalars;
    var one, other := AnalysisNames(a), AnalysisNames(b);
    assert one[0] == other[0] && one[1] == other[1] && one[2] == other[2] && one[3] == other[3] && one[4] == other[4];
    ScalarsInjective(a.canonical, b.canonical);
    ScalarsInjective(a.dictionaryId, b.dictionaryId);
    ScalarsInjective(a.lexeme, b.lexeme);
    ScalarsInjective(a.primaryPos, b.primaryPos);
    ScalarsInjective(a.secondaryPos, b.secondaryPos);
  }

  lemma PlacePrefixFree()
    ensures PrefixFree(EncodePlace, PlaceCodable)
  {
    hide EncodePlace, PlaceCodable, PlaceFields, Embedded;
    forall bytes: seq<byte>, position: nat, x: Place, y: Place
      | PlaceCodable(x) && PlaceCodable(y)
        && Embedded(bytes, position, EncodePlace(x)) && Embedded(bytes, position, EncodePlace(y))
      ensures x == y
    {
      PlaceAt(bytes, position, x);
      PlaceAt(bytes, position, y);
    }
  }

  lemma MorphemePrefixFree()
    ensures PrefixFree(EncodeMorpheme, MorphemeCodable)
    ensures PrefixFree(Listed(EncodeString), ListedValid(IsShortText, 2))
  {
    hide Splits, PrefixFree;
    StringPrefixFree();
    ListedPrefixFree(EncodeString, IsShortText, 2);
    PlacePrefixFree();
    MorphemeSplits();
    PartsPrefixFree(Listed(EncodeString), ListedValid(IsShortText, 2), MorphemeNames, EncodePlace, PlaceCodable, PlaceOf,
                    EncodeMorpheme, MorphemeCodable);
  }

  lemma AnalysisPrefixFree()
    ensures PrefixFree(EncodeAnalysis, AnalysisCodable)
    ensures PrefixFree(Listed(EncodeString), ListedValid(IsShortText, 5))
    ensures PrefixFree(EncodeMorpheme, MorphemeCodable)
  {
    hide Splits, PrefixFree;
    StringPrefixFree();
    ListedPrefixFree(EncodeString, IsShortText, 5);
    MorphemePrefixFree();
    CountedPrefixFree(EncodeMorpheme, MorphemeCodable);
    AnalysisSplits();
    PartsPrefixFree(Listed(EncodeString), ListedValid(IsShortText, 5), AnalysisNames,
                    Counted(EncodeMorpheme), CountedValid(MorphemeCodable), AnalysisMorphemes, EncodeAnalysis, AnalysisCodable);
  }

  // ------------------------------------------------------------------------- units

  function HeadOf(u: TokenizedUnit): Head {
    Head(u.start, u.end, u.kind, u.mode, u.status, u.analysis.Some?, u.groupId)
  }

  function UnitOf(h: Head, cuts: seq<nat>, analysis: Option<Metadata>): TokenizedUnit {
    TokenizedUnit(h.start, h.end, h.kind, h.mode, h.status, h.groupId, cuts, analysis)
  }

  datatype Front = Front(head: Head, cuts: seq<nat>)

  function FrontHead(f: Front): Head { f.head }

  function FrontCuts(f: Front): seq<nat> { f.cuts }

  function EncodeFront(f: Front): seq<byte> {
    EncodeHead(f.head) + Counted(U64)(f.cuts)
  }

  predicate FrontCodable(f: Front) {
    HeadCodable(f.head) && |f.cuts| <= U32_MAX && forall i: nat | i < |f.cuts| :: IsU64(f.cuts[i])
  }

  function EncodeTokenized(u: TokenizedUnit): seq<byte> {
    EncodeHead(HeadOf(u)) + Counted(U64)(u.cuts) + if u.analysis.Some? then EncodeAnalysis(u.analysis.value) else []
  }

  predicate UnitCodable(u: TokenizedUnit) {
    FrontCodable(Front(HeadOf(u), u.cuts)) && (u.analysis.Some? ==> AnalysisCodable(u.analysis.value))
  }

  lemma FrontSplits()
    ensures Splits(EncodeHead, HeadCodable, FrontHead, Counted(U64), CountedValid(IsU64), FrontCuts, EncodeFront, FrontCodable)
  {
    hide EncodeHead, HeadCodable, U64, IsU64, EncodeList, U32;
  }

  lemma FrontPrefixFree()
    ensures PrefixFree(EncodeFront, FrontCodable) && PrefixFree(EncodeHead, HeadCodable)
  {
    hide Splits, PrefixFree;
    HeadPrefixFree();
    U64PrefixFree();
    CountedPrefixFree(U64, IsU64);
    FrontSplits();
    PartsPrefixFree(EncodeHead, HeadCodable, FrontHead, Counted(U64), CountedValid(IsU64), FrontCuts, EncodeFront, FrontCodable);
  }

  lemma UnitSplit(bytes: seq<byte>, position: nat, u: TokenizedUnit)
    requires UnitCodable(u) && Embedded(bytes, position, EncodeTokenized(u))
    ensures var f := Front(HeadOf(u), u.cuts);
      && FrontCodable(f) && Embedded(bytes, position, EncodeFront(f))
      && (u.analysis.Some? ==> AnalysisCodable(u.analysis.value))
      && (u.analysis.Some? ==> Embedded(bytes, position + |EncodeFront(f)|, EncodeAnalysis(u.analysis.value)))
  {
    hide EncodeHead, EncodeAnalysis, U64, U32, EncodeList, AnalysisCodable, HeadCodable;
    var f := Front(HeadOf(u), u.cuts);
    EmbeddedSplit(bytes, position, EncodeFront(f), if u.analysis.Some? then EncodeAnalysis(u.analysis.value) else []);
  }

  lemma TokenizedPrefixFree()
    ensures PrefixFree(EncodeTokenized, UnitCodable)
  {
    hide EncodeFront, FrontCodable, EncodeAnalysis, AnalysisCodable, UnitCodable, EncodeTokenized, Embedded;
    FrontPrefixFree();
    AnalysisPrefixFree();
    forall bytes: seq<byte>, position: nat, x: TokenizedUnit, y: TokenizedUnit
      | UnitCodable(x) && UnitCodable(y)
        && Embedded(bytes, position, EncodeTokenized(x)) && Embedded(bytes, position, EncodeTokenized(y))
      ensures x == y
    {
      UnitSplit(bytes, position, x);
      UnitSplit(bytes, position, y);
      assert Front(HeadOf(x), x.cuts) == Front(HeadOf(y), y.cuts);
    }
  }

  lemma NoFrontNoUnit(bytes: seq<byte>, start: nat, middle: nat, end: nat)
    requires Found(EncodeFront, FrontCodable, bytes, start, None, middle)
    ensures Found(EncodeTokenized, UnitCodable, bytes, start, None, end)
  {
    hide EncodeFront, FrontCodable, EncodeAnalysis, AnalysisCodable, UnitCodable, EncodeTokenized, Embedded;
    forall u: TokenizedUnit | UnitCodable(u)
      ensures !Embedded(bytes, start, EncodeTokenized(u))
    {
      if Embedded(bytes, start, EncodeTokenized(u)) {
        UnitSplit(bytes, start, u);
      }
    }
  }

  lemma UnitWithoutAnalysis(bytes: seq<byte>, start: nat, f: Front, end: nat)
    requires Found(EncodeFront, FrontCodable, bytes, start, Some(f), end) && !f.head.analysed
    ensures Found(EncodeTokenized, UnitCodable, bytes, start, Some(UnitOf(f.head, f.cuts, None)), end)
  {
    hide EncodeHead, HeadCodable, U64, U32, EncodeList;
    var u := UnitOf(f.head, f.cuts, None);
    assert HeadOf(u) == f.head && EncodeTokenized(u) == EncodeFront(f);
  }

  /** A unit at the place of a front that promises an analysis is that front and an analysis. */
  lemma UnitBehindFront(bytes: seq<byte>, start: nat, f: Front, middle: nat, u: TokenizedUnit)
    requires Found(EncodeFront, FrontCodable, bytes, start, Some(f), middle) && f.head.analysed
    requires UnitCodable(u) && Embedded(bytes, start, EncodeTokenized(u))
    ensures Front(HeadOf(u), u.cuts) == f && u.analysis.Some? && AnalysisCodable(u.analysis.value)
    ensures Embedded(bytes, middle, EncodeAnalysis(u.analysis.value))
  {
    hide EncodeFront, EncodeAnalysis, AnalysisCodable, FrontCodable, Embedded, UnitCodable, EncodeTokenized;
    UnitSplit(bytes, start, u);
    FrontPrefixFree();
    assert Front(HeadOf(u), u.cuts) == f;
  }

  lemma UnitWithAnalysis(bytes: seq<byte>, start: nat, f: Front, middle: nat, a: Option<Metadata>, end: nat)
    requires Found(EncodeFront, FrontCodable, bytes, start, Some(f), middle) && f.head.analysed
    requires Found(EncodeAnalysis, AnalysisCodable, bytes, middle, a, end)
    ensures Found(EncodeTokenized, UnitCodable, bytes, start, if a.Some? then Some(UnitOf(f.head, f.cuts, a)) else None, end)
  {
    hide EncodeFront, EncodeAnalysis, AnalysisCodable, FrontCodable, Embedded, EncodeTokenized;
    if a.Some? {
      var u := UnitOf(f.head, f.cuts, a);
      assert Front(HeadOf(u), u.cuts) == f;
      UnitIsJoined(u);
      EmbeddedJoin(bytes, start, EncodeFront(f), EncodeAnalysis(a.value));
    } else {
      NoAnalysisNoUnit(bytes, start, f, middle, end);
    }
  }

  lemma NoAnalysisNoUnit(bytes: seq<byte>, start: nat, f: Front, middle: nat, end: nat)
    requires Found(EncodeFront, FrontCodable, bytes, start, Some(f), middle) && f.head.analysed
    requires forall a: Metadata | AnalysisCodable(a) :: !Embedded(bytes, middle, EncodeAnalysis(a))
    ensures Found(EncodeTokenized, UnitCodable, bytes, start, None, end)
  {
    hide EncodeFront, EncodeAnalysis, AnalysisCodable, FrontCodable, Embedded, UnitCodable, EncodeTokenized;
    forall u: TokenizedUnit | UnitCodable(u)
      ensures !Embedded(bytes, start, EncodeTokenized(u))
    {
      if Embedded(bytes, start, EncodeTokenized(u)) {
        UnitBehindFront(bytes, start, f, middle, u);
      }
    }
  }

  lemma UnitIsJoined(u: TokenizedUnit)
    requires u.analysis.Some?
    ensures EncodeTokenized(u) == EncodeFront(Front(HeadOf(u), u.cuts)) + EncodeAnalysis(u.analysis.value)
  {
    hide EncodeHead, EncodeAnalysis, U64, U32, EncodeList;
  }
}
