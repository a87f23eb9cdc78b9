/** Reading and writing the parts of the tokenized-document codec. */
module TokenizedReader {
  import opened Wrappers
  import opened Bytes
  import opened Utf8
  import opened LosslessFormat
  import opened Alignment
  import opened Document
  import opened Codecs
  import opened TokenizedCodec

  // ----------------------------------------------------------------------- reading

  method TakeByte(reader: BinaryReader) returns (r: Option<byte>)
    requires reader.Valid()
    modifies reader
    ensures reader.Valid()
    ensures r.Some? <==> old(reader.position) + 1 <= |reader.input|
    ensures r.Some? ==> reader.position == old(reader.position) + 1 && r.value == reader.input[old(reader.position)]
    ensures r.None? ==> reader.position == old(reader.position)
  {
    var bytes := reader.Take(1);
    if bytes.None? {
      return None;
    }
    r := Some(bytes.value[0]);
  }

  method ReadString(reader: BinaryReader) returns (r: Option<seq<int>>)
    requires reader.Valid()
    modifies reader
    ensures reader.Valid() && Found(EncodeString, IsShortText, reader.input, old(reader.position), r, reader.position)
  {
    hide EncodeString, IsShortText, ReadU32, Embedded, TextOf;
    ghost var start := reader.position;
    StringsAt(reader.input, start);
    var length := reader.TakeU32();
    if length.None? {
      return None;
    }
    var text := reader.Take(length.value);
    if text.None? {
      return None;
    }
    r := TextOf(text.value);
  }

  lemma StringsAt(bytes: seq<byte>, position: nat)
    ensures forall values: seq<int> | IsShortText(values) ::
      Embedded(bytes, position, EncodeString(values)) ==>
        && position + 4 <= |bytes| && position + 4 + ReadU32(bytes, position) <= |bytes|
        && TextOf(bytes[position + 4..position + 4 + ReadU32(bytes, position)]) == Some(values)
    ensures position + 4 <= |bytes| && position + 4 + ReadU32(bytes, position) <= |bytes| ==>
      var text := TextOf(bytes[position + 4..position + 4 + ReadU32(bytes, position)]);
      text.Some? ==>
        && IsShortText(text.value) && Embedded(bytes, position, EncodeString(text.value))
        && |EncodeString(text.value)| == 4 + ReadU32(bytes, position)
  {
    hide EncodeString, IsShortText, ReadU32, Embedded, TextOf;
    forall values: seq<int> | IsShortText(values) && Embedded(bytes, position, EncodeString(values))
      ensures position + 4 <= |bytes| && position + 4 + ReadU32(bytes, position) <= |bytes|
      ensures TextOf(bytes[position + 4..position + 4 + ReadU32(bytes, position)]) == Some(values)
    {
      StringAt(bytes, position, values);
    }
    if position + 4 <= |bytes| && position + 4 + ReadU32(bytes, position) <= |bytes| {
      var text := TextOf(bytes[position + 4..position + 4 + ReadU32(bytes, position)]);
      if text.Some? {
        StringAt(bytes, position, text.value);
      }
    }
  }

  method ReadPlace(reader: BinaryReader) returns (r: Option<Place>)
    requires reader.Valid()
    modifies reader
    ensures reader.Valid() && Found(EncodePlace, PlaceCodable, reader.input, old(reader.position), r, reader.position)
  {
    hide EncodePlace, PlaceCodable, ReadU64, Embedded;
    ghost var position := reader.position;
    PlacesAt(reader.input, position);
    var start := reader.TakeU64();
    if start.None? {
      return None;
    }
    var end := reader.TakeU64();
    if end.None? {
      return None;
    }
    var flag := TakeByte(reader);
    if flag.None? || Boolean(flag.value).None? {
      return None;
    }
    r := Some(Place(start.value, end.value, Boolean(flag.value).value));
  }

  lemma PlacesAt(bytes: seq<byte>, position: nat)
    ensures forall p: Place | PlaceCodable(p) && Embedded(bytes, position, EncodePlace(p)) ::
      position + 17 <= |bytes| && PlaceFields(bytes, position) == Some(p)
    ensures position + 17 <= |bytes| && PlaceFields(bytes, position).Some? ==>
      var p := PlaceFields(bytes, position).value;
      PlaceCodable(p) && Embedded(bytes, position, EncodePlace(p))
  {
    hide EncodePlace, PlaceCodable, PlaceFields, Embedded;
    forall p: Place | PlaceCodable(p) && Embedded(bytes, position, EncodePlace(p))
      ensures position + 17 <= |bytes| && PlaceFields(bytes, position) == Some(p)
    {
      PlaceAt(bytes, position, p);
    }
    if position + 17 <= |bytes| && PlaceFields(bytes, position).Some? {
      PlaceAt(bytes, position, PlaceFields(bytes, position).value);
    }
  }

  method ReadHead(reader: BinaryReader) returns (r: Option<Head>)
    requires reader.Valid()
    modifies reader
    ensures reader.Valid() && Found(EncodeHead, HeadCodable, reader.input, old(reader.position), r, reader.position)
  {
    hide EncodeHead, HeadCodable, ReadU64, ReadU32, Embedded, LexicalKind, TokenMode, TokenStatus, Boolean;
    ghost var position := reader.position;
    HeadsAt(reader.input, position);
    var start := reader.TakeU64();
    if start.None? {
      return None;
    }
    var end := reader.TakeU64();
    if end.None? {
      return None;
    }
    var kind := TakeByte(reader);
    if kind.None? || LexicalKind(kind.value).None? {
      return None;
    }
    var mode := TakeByte(reader);
    if mode.None? || TokenMode(mode.value).None? {
      return None;
    }
    var status := TakeByte(reader);
    if status.None? || TokenStatus(status.value).None? {
      return None;
    }
    var analysed := TakeByte(reader);
    if analysed.None? || Boolean(analysed.value).None? {
      return None;
    }
    var group := reader.TakeU32();
    if group.None? {
      return None;
    }
    r := Some(Head(start.value, end.value, LexicalKind(kind.value).value, TokenMode(mode.value).value,
                   TokenStatus(status.value).value, Boolean(analysed.value).value, GroupOf(group.value)));
  }

  lemma HeadsAt(bytes: seq<byte>, position: nat)
    ensures forall h: Head | HeadCodable(h) && Embedded(bytes, position, EncodeHead(h)) ::
      position + 24 <= |bytes| && HeadFields(bytes, position) == Some(h)
    ensures position + 24 <= |bytes| && HeadFields(bytes, position).Some? ==>
      var h := HeadFields(bytes, position).value;
      HeadCodable(h) && Embedded(bytes, position, EncodeHead(h))
  {
    hide EncodeHead, HeadCodable, HeadFields, Embedded;
    forall h: Head | HeadCodable(h) && Embedded(bytes, position, EncodeHead(h))
      ensures position + 24 <= |bytes| && HeadFields(bytes, position) == Some(h)
    {
      HeadAt(bytes, position, h);
    }
    if position + 24 <= |bytes| && HeadFields(bytes, position).Some? {
      HeadAt(bytes, position, HeadFields(bytes, position).value);
    }
  }

  method ReadCuts(reader: BinaryReader) returns (r: Option<seq<nat>>)
    requires reader.Valid()
    modifies reader
    ensures reader.Valid()
    ensures Found(Counted(U64), CountedValid(IsU64), reader.input, old(reader.position), r, reader.position)
  {
    hide U64, ReadU64, ReadU32, EncodeList, Found, IsU64;
    ghost var start := reader.position;
    var count := reader.TakeU32();
    if count.None? || count.value > (|reader.input| - reader.position) / 8 {
      CountedShort(U64, IsU64, 8, reader.input, start, reader.position);
      return None;
    }
    var cuts := reader.ReadCuts(count.value);
    if cuts.None? {
      assert false;
      return None;
    }
    CountedFound(U64, IsU64, reader.input, start, cuts.value, reader.position);
    r := cuts;
  }

  method ReadMorpheme(reader: BinaryReader) returns (r: Option<AlignedMorpheme>)
    requires reader.Valid()
    modifies reader
    ensures reader.Valid()
    ensures Found(EncodeMorpheme, MorphemeCodable, reader.input, old(reader.position), r, reader.position)
  {
    hide Found, ListFound, NoList, Splits, PrefixFree, EncodeString, IsShortText, EncodePlace, MorphemeCodable;
    ghost var start := reader.position;
    StringPrefixFree();
    MorphemePrefixFree();
    MorphemeSplits();
    ListStart(EncodeString, IsShortText, reader.input, start);
    var id := ReadString(reader);
    if id.None? {
      ListMisses(EncodeString, IsShortText, reader.input, start, [], start, 2, reader.position);
      NamesMissing(reader.input, start, reader.position);
      return None;
    }
    ListGrows(EncodeString, IsShortText, reader.input, start, [], start, id.value, reader.position);
    ghost var afterId := reader.position;
    var surface := ReadString(reader);
    if surface.None? {
      ListMisses(EncodeString, IsShortText, reader.input, start, [] + [id.value], afterId, 2, reader.position);
      NamesMissing(reader.input, start, reader.position);
      return None;
    }
    ListGrows(EncodeString, IsShortText, reader.input, start, [] + [id.value], afterId, surface.value, reader.position);
    ghost var names := [] + [id.value] + [surface.value];
    ghost var afterNames := reader.position;
    ListedFound(EncodeString, IsShortText, reader.input, start, names, afterNames);
    var place := ReadPlace(reader);
    if place.None? {
      NoPlace(reader.input, start, names, afterNames, reader.position);
      return None;
    }
    FoundTextIsShort(reader.input, start, names, afterNames);
    assert names == [id.value, surface.value] && AllScalars(names[0]);
    r := Some(AlignedMorpheme(FromScalars(id.value), surface.value, place.value.start, place.value.end,
                              place.value.derivational));
    MorphemeFound(reader.input, start, names, afterNames, r.value, reader.position);
  }

  lemma FoundTextIsShort(bytes: seq<byte>, start: nat, names: seq<seq<int>>, end: nat)
    requires ListFound(EncodeString, IsShortText, bytes, start, names, end)
    ensures forall i: nat | i < |names| :: AllScalars(names[i])
  {
    hide EncodeString, EncodeList;
    forall i: nat | i < |names|
      ensures AllScalars(names[i])
    {
      assert IsShortText(names[i]);
    }
  }

  lemma NamesMissing(bytes: seq<byte>, start: nat, end: nat)
    requires NoList(EncodeString, IsShortText, bytes, start, 2)
    ensures Found(EncodeMorpheme, MorphemeCodable, bytes, start, None, end)
  {
    hide Found, NoList, Splits;
    ListedMissing(EncodeString, IsShortText, bytes, start, 2, start);
    MorphemeSplits();
    FirstMissing(Listed(EncodeString), ListedValid(IsShortText, 2), MorphemeNames, EncodePlace, PlaceCodable, PlaceOf,
                 EncodeMorpheme, MorphemeCodable, bytes, start, start, end);
  }

  lemma NoPlace(bytes: seq<byte>, start: nat, names: seq<seq<int>>, middle: nat, end: nat)
    requires Found(Listed(EncodeString), ListedValid(IsShortText, 2), bytes, start, Some(names), middle)
    requires Found(EncodePlace, PlaceCodable, bytes, middle, None, end)
    ensures Found(EncodeMorpheme, MorphemeCodable, bytes, start, None, end)
  {
    hide Splits, PrefixFree, EncodePlace, PlaceCodable, Embedded, EncodeMorpheme, MorphemeCodable;
    MorphemePrefixFree();
    MorphemeSplits();
    SecondMissing(Listed(EncodeString), ListedValid(IsShortText, 2), MorphemeNames, EncodePlace, PlaceCodable, PlaceOf,
                  EncodeMorpheme, MorphemeCodable, bytes, start, names, middle, end);
  }

  lemma MorphemeFound(bytes: seq<byte>, start: nat, names: seq<seq<int>>, middle: nat, m: AlignedMorpheme, end: nat)
    requires Found(Listed(EncodeString), ListedValid(IsShortText, 2), bytes, start, Some(names), middle)
    requires MorphemeNames(m) == names && Found(EncodePlace, PlaceCodable, bytes, middle, Some(PlaceOf(m)), end)
    ensures Found(EncodeMorpheme, MorphemeCodable, bytes, start, Some(m), end)
  {
    hide Splits, EncodePlace, Embedded, EncodeMorpheme, EncodeString, IsShortText;
    MorphemeSplits();
    assert IsShortText(names[0]) && IsShortText(names[1]);
    PartsFound(Listed(EncodeString), ListedValid(IsShortText, 2), MorphemeNames, EncodePlace, PlaceCodable, PlaceOf,
               EncodeMorpheme, MorphemeCodable, bytes, start, middle, m, end);
  }

  method ReadMorphemes(reader: BinaryReader) returns (r: Option<seq<AlignedMorpheme>>)
    requires reader.Valid()
    modifies reader
    ensures reader.Valid()
    ensures Found(Counted(EncodeMorpheme), CountedValid(MorphemeCodable), reader.input, old(reader.position), r, reader.position)
  {
    hide Found, ListFound, NoList, PrefixFree, EncodeMorpheme, MorphemeCodable, ReadU32;
    ghost var from := reader.position;
    MorphemeLength();
    var count := reader.TakeU32();
    if count.None? || count.value > (|reader.input| - reader.position) / 25 {
      CountedShort(EncodeMorpheme, MorphemeCodable, 25, reader.input, from, reader.position);
      return None;
    }
    ghost var start := reader.position;
    var morphemes: seq<AlignedMorpheme> := [];
    ListStart(EncodeMorpheme, MorphemeCodable, reader.input, start);
    for i := 0 to count.value
      invariant reader.Valid() && |morphemes| == i
      invariant ListFound(EncodeMorpheme, MorphemeCodable, reader.input, start, morphemes, reader.position)
    {
      ghost var middle := reader.position;
      var next := ReadMorpheme(reader);
      if next.None? {
        MorphemePrefixFree();
        ListMisses(EncodeMorpheme, MorphemeCodable, reader.input, start, morphemes, middle, count.value, reader.position);
        CountedMissing(EncodeMorpheme, MorphemeCodable, reader.input, from, reader.position);
        return None;
      }
      ListGrows(EncodeMorpheme, MorphemeCodable, reader.input, start, morphemes, middle, next.value, reader.position);
      morphemes := morphemes + [next.value];
    }
    CountedFound(EncodeMorpheme, MorphemeCodable, reader.input, from, morphemes, reader.position);
    r := Some(morphemes);
  }

  lemma MorphemeLength()
    ensures forall m: AlignedMorpheme | MorphemeCodable(m) :: |EncodeMorpheme(m)| >= 25
  {
    hide EncodeText, EncodePlace, U32, Scalars;
  }

  /** The five names of an analysis in the order in which they are written. */
  method ReadNames(reader: BinaryReader) returns (r: Option<seq<seq<int>>>)
    requires reader.Valid()
    modifies reader
    ensures reader.Valid()
    ensures Found(Listed(EncodeString), ListedValid(IsShortText, 5), reader.input, old(reader.position), r, reader.position)
  {
    hide Found, ListFound, NoList, PrefixFree, EncodeString, IsShortText;
    ghost var start := reader.position;
    StringPrefixFree();
    ListStart(EncodeString, IsShortText, reader.input, start);
    var names: seq<seq<int>> := [];
    for i := 0 to 5
      invariant reader.Valid() && |names| == i
      invariant ListFound(EncodeString, IsShortText, reader.input, start, names, reader.position)
    {
      ghost var middle := reader.position;
      var name := ReadString(reader);
      if name.None? {
        ListMisses(EncodeString, IsShortText, reader.input, start, names, middle, 5, reader.position);
        ListedMissing(EncodeString, IsShortText, reader.input, start, 5, reader.position);
        return None;
      }
      ListGrows(EncodeString, IsShortText, reader.input, start, names, middle, name.value, reader.position);
      names := names + [name.value];
    }
    ListedFound(EncodeString, IsShortText, reader.input, start, names, reader.position);
    r := Some(names);
  }

  method ReadAnalysis(reader: BinaryReader) returns (r: Option<Metadata>)
    requires reader.Valid()
    modifies reader
    ensures reader.Valid()
    ensures Found(EncodeAnalysis, AnalysisCodable, reader.input, old(reader.position), r, reader.position)
  {
    hide Found, EncodeAnalysis, AnalysisCodable, EncodeString, IsShortText;
    ghost var start := reader.position;
    var names := ReadNames(reader);
    if names.None? {
      NoNames(reader.input, start, reader.position);
      return None;
    }
    ghost var middle := reader.position;
    NamesAreScalars(reader.input, start, names.value, middle);
    var morphemes := ReadMorphemes(reader);
    if morphemes.None? {
      NoMorphemes(reader.input, start, names.value, middle, reader.position);
      return None;
    }
    var n := names.value;
    r := Some(Metadata(FromScalars(n[0]), FromScalars(n[1]), FromScalars(n[2]), FromScalars(n[3]), FromScalars(n[4]),
                       morphemes.value));
    AnalysisFound(reader.input, start, n, middle, r.value, reader.position);
  }

  lemma NamesAreScalars(bytes: seq<byte>, start: nat, names: seq<seq<int>>, end: nat)
    requires Found(Listed(EncodeString), ListedValid(IsShortText, 5), bytes, start, Some(names), end)
    ensures |names| == 5 && forall i: nat | i < 5 :: AllScalars(names[i])
  {
    hide EncodeString, EncodeList;
    forall i: nat | i < 5
      ensures AllScalars(names[i])
    {
      assert IsShortText(names[i]);
    }
  }

  lemma NoNames(bytes: seq<byte>, start: nat, end: nat)
    requires Found(Listed(EncodeString), ListedValid(IsShortText, 5), bytes, start, None, end)
    ensures Found(EncodeAnalysis, AnalysisCodable, bytes, start, None, end)
  {
    hide Found, Splits;
    AnalysisSplits();
    FirstMissing(Listed(EncodeString), ListedValid(IsShortText, 5), AnalysisNames, Counted(EncodeMorpheme),
                 CountedValid(MorphemeCodable), AnalysisMorphemes, EncodeAnalysis, AnalysisCodable, bytes, start, end, end);
  }

  lemma NoMorphemes(bytes: seq<byte>, start: nat, names: seq<seq<int>>, middle: nat, end: nat)
    requires Found(Listed(EncodeString), ListedValid(IsShortText, 5), bytes, start, Some(names), middle)
    requires Found(Counted(EncodeMorpheme), CountedValid(MorphemeCodable), bytes, middle, None, end)
    ensures Found(EncodeAnalysis, AnalysisCodable, bytes, start, None, end)
  {
    hide Splits, PrefixFree, Embedded, EncodeAnalysis, AnalysisCodable, EncodeMorpheme, MorphemeCodable;
    AnalysisPrefixFree();
    AnalysisSplits();
    SecondMissing(Listed(EncodeString), ListedValid(IsShortText, 5), AnalysisNames, Counted(EncodeMorpheme),
                  CountedValid(MorphemeCodable), AnalysisMorphemes, EncodeAnalysis, AnalysisCodable, bytes, start, names,
                  middle, end);
  }

  lemma AnalysisFound(bytes: seq<byte>, start: nat, names: seq<seq<int>>, middle: nat, a: Metadata, end: nat)
    requires Found(Listed(EncodeString), ListedValid(IsShortText, 5), bytes, start, Some(names), middle)
    requires AnalysisNames(a) == names
    requires Found(Counted(EncodeMorpheme), CountedValid(MorphemeCodable), bytes, middle, Some(a.morphemes), end)
    ensures Found(EncodeAnalysis, AnalysisCodable, bytes, start, Some(a), end)
  {
    hide Splits, Embedded, EncodeAnalysis, EncodeString, IsShortText, EncodeMorpheme, MorphemeCodable, U32, EncodeList;
    AnalysisSplits();
    assert IsShortText(names[0]) && IsShortText(names[1]) && IsShortText(names[2]) && IsShortText(names[3])
        && IsShortText(names[4]);
    PartsFound(Listed(EncodeString), ListedValid(IsShortText, 5), AnalysisNames, Counted(EncodeMorpheme),
               CountedValid(MorphemeCodable), AnalysisMorphemes, EncodeAnalysis, AnalysisCodable, bytes, start, middle, a, end);
  }

  method ReadUnit(reader: BinaryReader) returns (r: Option<TokenizedUnit>)
    requires reader.Valid()
    modifies reader
    ensures reader.Valid() && Found(EncodeTokenized, UnitCodable, reader.input, old(reader.position), r, reader.position)
  {
    hide Found, EncodeTokenized, UnitCodable;
    ghost var start := reader.position;
    var head := ReadHead(reader);
    if head.None? {
      NoHead(reader.input, start, reader.position);
      NoFrontNoUnit(reader.input, start, reader.position, reader.position);
      return None;
    }
    ghost var middle := reader.position;
    var cuts := ReadCuts(reader);
    if cuts.None? {
      NoCuts(reader.input, start, head.value, middle, reader.position);
      NoFrontNoUnit(reader.input, start, reader.position, reader.position);
      return None;
    }
    ghost var front := Front(head.value, cuts.value);
    FrontFound(reader.input, start, middle, front, reader.position);
    if !head.value.analysed {
      UnitWithoutAnalysis(reader.input, start, front, reader.position);
      return Some(UnitOf(head.value, cuts.value, None));
    }
    ghost var behind := reader.position;
    var analysis := ReadAnalysis(reader);
    UnitWithAnalysis(reader.input, start, front, behind, analysis, reader.position);
    r := if analysis.Some? then Some(UnitOf(head.value, cuts.value, analysis)) else None;
  }

  lemma NoHead(bytes: seq<byte>, start: nat, end: nat)
    requires Found(EncodeHead, HeadCodable, bytes, start, None, end)
    ensures Found(EncodeFront, FrontCodable, bytes, start, None, end)
  {
    hide Found, Splits;
    FrontSplits();
    FirstMissing(EncodeHead, HeadCodable, FrontHead, Counted(U64), CountedValid(IsU64), FrontCuts, EncodeFront, FrontCodable,
                 bytes, start, end, end);
  }

  lemma NoCuts(bytes: seq<byte>, start: nat, head: Head, middle: nat, end: nat)
    requires Found(EncodeHead, HeadCodable, bytes, start, Some(head), middle)
    requires Found(Counted(U64), CountedValid(IsU64), bytes, middle, None, end)
    ensures Found(EncodeFront, FrontCodable, bytes, start, None, end)
  {
    hide Splits, PrefixFree, Embedded, EncodeFront, FrontCodable, EncodeHead, HeadCodable, U64, IsU64;
    FrontPrefixFree();
    FrontSplits();
    SecondMissing(EncodeHead, HeadCodable, FrontHead, Counted(U64), CountedValid(IsU64), FrontCuts, EncodeFront, FrontCodable,
                  bytes, start, head, middle, end);
  }

  lemma FrontFound(bytes: seq<byte>, start: nat, middle: nat, front: Front, end: nat)
    requires Found(EncodeHead, HeadCodable, bytes, start, Some(front.head), middle)
    requires Found(Counted(U64), CountedValid(IsU64), bytes, middle, Some(front.cuts), end)
    ensures Found(EncodeFront, FrontCodable, bytes, start, Some(front), end)
  {
    hide Splits, Embedded, EncodeFront, EncodeHead, HeadCodable, U64, IsU64, U32, EncodeList;
    FrontSplits();
    PartsFound(EncodeHead, HeadCodable, FrontHead, Counted(U64), CountedValid(IsU64), FrontCuts, EncodeFront, FrontCodable,
               bytes, start, middle, front, end);
  }

  // ----------------------------------------------------------------------- writing

  method WriteString(before: seq<byte>, values: seq<int>) returns (r: Option<seq<byte>>)
    requires AllScalars(values)
    ensures r.Some? <==> IsShortText(values)
    ensures r.Some? ==> r.value == before + EncodeString(values)
  {
    hide U32, EncodeText, AllScalars;
    var text := EncodeText(values);
    if |text| > U32_MAX {
      return None;
    }
    r := Some(before + U32(|text|) + text);
  }

  method WriteMorpheme(before: seq<byte>, m: AlignedMorpheme) returns (r: Option<seq<byte>>)
    requires AllScalars(m.surface) && m.start <= U64_MAX && m.end <= U64_MAX
    ensures r.Some? <==> MorphemeCodable(m)
    ensures r.Some? ==> r.value == before + EncodeMorpheme(m)
  {
    hide U64, EncodeString, IsShortText, Scalars, AllScalars;
    var output := WriteString(before, Scalars(m.id));
    if output.None? {
      return None;
    }
    output := WriteString(output.value, m.surface);
    if output.None? {
      return None;
    }
    r := Some(output.value + U64(m.start) + U64(m.end) + [BoolCode(m.derivational)]);
  }

  /** Representable values: strings are text and offsets are 64-bit words. */
  predicate Representable(u: TokenizedUnit) {
    && u.start <= U64_MAX && u.end <= U64_MAX && (u.groupId.Some? ==> u.groupId.value <= U32_MAX)
    && (forall i: nat | i < |u.cuts| :: u.cuts[i] <= U64_MAX)
    && (u.analysis.Some? ==> forall i: nat | i < |u.analysis.value.morphemes| ::
        var m := u.analysis.value.morphemes[i]; AllScalars(m.surface) && m.start <= U64_MAX && m.end <= U64_MAX)
  }

  method WriteAnalysis(before: seq<byte>, a: Metadata) returns (r: Option<seq<byte>>)
    requires forall i: nat | i < |a.morphemes| ::
      AllScalars(a.morphemes[i].surface) && a.morphemes[i].start <= U64_MAX && a.morphemes[i].end <= U64_MAX
    ensures r.Some? <==> AnalysisCodable(a)
    ensures r.Some? ==> r.value == before + EncodeAnalysis(a)
  {
    hide U32, EncodeString, IsShortText, Scalars, MorphemeCodable, EncodeMorpheme, EncodeList;
    var output := WriteString(before, Scalars(a.canonical));
    if output.None? {
      return None;
    }
    output := WriteString(output.value, Scalars(a.dictionaryId));
    if output.None? {
      return None;
    }
    output := WriteString(output.value, Scalars(a.lexeme));
    if output.None? {
      return None;
    }
    output := WriteString(output.value, Scalars(a.primaryPos));
    if output.None? {
      return None;
    }
    output := WriteString(output.value, Scalars(a.secondaryPos));
    if output.None? || |a.morphemes| > U32_MAX {
      return None;
    }
    r := WriteMorphemes(output.value + U32(|a.morphemes|), a.morphemes);
  }

  method WriteMorphemes(before: seq<byte>, morphemes: seq<AlignedMorpheme>) returns (r: Option<seq<byte>>)
    requires forall i: nat | i < |morphemes| ::
      AllScalars(morphemes[i].surface) && morphemes[i].start <= U64_MAX && morphemes[i].end <= U64_MAX
    ensures r.Some? <==> AllValid(MorphemeCodable, morphemes)
    ensures r.Some? ==> r.value == before + EncodeList(EncodeMorpheme, morphemes)
  {
    hide MorphemeCodable, EncodeMorpheme;
    var output := before;
    for i := 0 to |morphemes|
      invariant forall k: nat | k < i :: MorphemeCodable(morphemes[k])
      invariant output == before + EncodeList(EncodeMorpheme, morphemes[..i])
    {
      var next := WriteMorpheme(output, morphemes[i]);
      if next.None? {
        return None;
      }
      output := next.value;
      assert morphemes[..i + 1][..i] == morphemes[..i];
    }
    assert morphemes[..|morphemes|] == morphemes;
    r := Some(output);
  }

  /** What the encoder writes; it takes the largest group number for no group. */
  predicate Writable(u: TokenizedUnit) {
    |u.cuts| <= U32_MAX && (u.analysis.Some? ==> AnalysisCodable(u.analysis.value))
  }

  method WriteTokenized(before: seq<byte>, u: TokenizedUnit) returns (r: Option<seq<byte>>)
    requires Representable(u)
    ensures r.Some? <==> Writable(u)
    ensures r.Some? ==> r.value == before + EncodeTokenized(u)
  {
    hide EncodeAnalysis, AnalysisCodable, EncodeHead, Representable, EncodeTokenized;
    var group := if u.groupId.Some? then u.groupId.value else NONE_GROUP;
    var output := WriteHead(before, u, group);
    var front := WriteCuts(output, u.cuts);
    if front.None? {
      return None;
    }
    output := front.value;
    UnitJoins(before, u, output);
    if u.analysis.Some? {
      AnalysisRepresentable(u);
      r := WriteAnalysis(output, u.analysis.value);
      return;
    }
    r := Some(output);
  }

  lemma AnalysisRepresentable(u: TokenizedUnit)
    requires Representable(u) && u.analysis.Some?
    ensures forall i: nat | i < |u.analysis.value.morphemes| ::
      && AllScalars(u.analysis.value.morphemes[i].surface)
      && u.analysis.value.morphemes[i].start <= U64_MAX && u.analysis.value.morphemes[i].end <= U64_MAX
  {
    hide AllScalars;
  }

  lemma UnitJoins(before: seq<byte>, u: TokenizedUnit, front: seq<byte>)
    requires front == before + EncodeHead(HeadOf(u)) + Counted(U64)(u.cuts)
    ensures u.analysis.Some? ==> front + EncodeAnalysis(u.analysis.value) == before + EncodeTokenized(u)
    ensures u.analysis.None? ==> front == before + EncodeTokenized(u)
  {
    hide EncodeAnalysis, EncodeHead, U32, EncodeList;
  }

  method WriteHead(before: seq<byte>, u: TokenizedUnit, group: nat) returns (output: seq<byte>)
    requires Representable(u) && group == if u.groupId.Some? then u.groupId.value else NONE_GROUP
    ensures output == before + EncodeHead(HeadOf(u))
  {
    hide U64, U32, KindCode, ModeCode, StatusCode, BoolCode;
    output := before + U64(u.start) + U64(u.end);
    output := output + [KindCode(u.kind)] + [ModeCode(u.mode)] + [StatusCode(u.status)] + [BoolCode(u.analysis.Some?)];
    assert output == before + (U64(u.start) + (U64(u.end) + Flags(HeadOf(u))));
    output := output + U32(group);
  }

  method WriteCuts(before: seq<byte>, cuts: seq<nat>) returns (r: Option<seq<byte>>)
    ensures r.Some? <==> |cuts| <= U32_MAX
    ensures r.Some? ==> r.value == before + Counted(U64)(cuts)
  {
    hide U64, U32, EncodeList;
    if |cuts| > U32_MAX {
      return None;
    }
    var output := before + U32(|cuts|);
    ghost var prefix := output;
    ListNone(U64, cuts[..0]);
    for k := 0 to |cuts|
      invariant output == prefix + EncodeList(U64, cuts[..k])
    {
      assert cuts[..k + 1] == cuts[..k] + [cuts[k]];
      ListPush(U64, cuts[..k], cuts[k]);
      output := output + U64(cuts[k]);
    }
    assert cuts[..|cuts|] == cuts;
    r := Some(output);
  }
}
