/** The lossless span format: validation of documents and their binary form. */
module LosslessFormat {
  import opened Wrappers
  import opened Bytes

  const FORMAT_SCHEMA_VERSION: nat := 1
  const FORMAT_MAGIC: seq<byte> := [0x4E, 0x45, 0x44, 0x4F, 0x46, 0x4D, 0x54, 0x00]

  datatype SurfaceUnit = SurfaceUnit(start: nat, end: nat, cuts: seq<nat>)

  datatype LosslessDocument = LosslessDocument(raw: seq<byte>, units: seq<SurfaceUnit>)

  /** Cuts lie strictly inside the span and increase strictly. */
  predicate CutsValid(start: nat, end: nat, cuts: seq<nat>) {
    && start < end
    && (forall i: nat | i < |cuts| :: start < cuts[i] < end)
    && (forall i: nat | 0 < i < |cuts| :: cuts[i - 1] < cuts[i])
  }

  /** Units lie inside the document in order. */
  predicate UnitsValid(units: seq<SurfaceUnit>, length: nat) {
    && (forall i: nat | i < |units| :: CutsValid(units[i].start, units[i].end, units[i].cuts) && units[i].end <= length)
    && (forall i: nat | 0 < i < |units| :: units[i - 1].end <= units[i].start)
  }

  method ValidateUnit(start: nat, end: nat, cuts: seq<nat>) returns (ok: bool)
    requires start <= end
    ensures ok <==> CutsValid(start, end, cuts)
  {
    if start == end {
      return false;
    }
    var previous := start;
    for i := 0 to |cuts|
      invariant CutsValid(start, end, cuts[..i])
      invariant previous == if i == 0 then start else cuts[i - 1]
    {
      if cuts[i] <= start || cuts[i] >= end {
        return false;
      }
      if cuts[i] <= previous {
        assert i > 0 ==> !(cuts[i - 1] < cuts[i]);
        return false;
      }
      previous := cuts[i];
    }
    assert cuts[..|cuts|] == cuts;
    ok := true;
  }

  lemma NoUnitsValid(units: seq<SurfaceUnit>, length: nat)
    requires |units| == 0
    ensures UnitsValid(units, length)
  {
  }

  /** The next unit keeps the units valid, or makes every list that starts with them invalid. */
  lemma UnitsValidNext(units: seq<SurfaceUnit>, i: nat, length: nat)
    requires i < |units| && UnitsValid(units[..i], length)
    ensures var u := units[i];
      var good := CutsValid(u.start, u.end, u.cuts) && u.end <= length && (i > 0 ==> units[i - 1].end <= u.start);
      (good ==> UnitsValid(units[..i + 1], length)) && (!good ==> !UnitsValid(units, length))
  {
    hide CutsValid;
    var more := units[..i + 1];
    forall k: nat | 0 < k < i
      ensures more[k - 1].end <= more[k].start
    {
      assert units[..i][k - 1].end <= units[..i][k].start;
    }
    assert i > 0 && UnitsValid(units, length) ==> units[i - 1].end <= units[i].start;
  }

  method ValidateDocument(document: LosslessDocument) returns (ok: bool)
    requires forall i: nat | i < |document.units| :: document.units[i].start <= document.units[i].end
    ensures ok <==> UnitsValid(document.units, |document.raw|)
  {
    hide CutsValid, UnitsValid;
    var units, length := document.units, |document.raw|;
    var previousEnd := 0;
    NoUnitsValid(units[..0], length);
    for i := 0 to |units|
      invariant UnitsValid(units[..i], length)
      invariant i > 0 ==> previousEnd == units[i - 1].end
    {
      UnitsValidNext(units, i, length);
      var valid := ValidateUnit(units[i].start, units[i].end, units[i].cuts);
      if !valid || units[i].end > length {
        return false;
      }
      if i > 0 && units[i].start < previousEnd {
        return false;
      }
      previousEnd := units[i].end;
    }
    assert units[..|units|] == units;
    ok := true;
  }

  // ------------------------------------------------------------------ encoding

  function EncodeCuts(cuts: seq<nat>): seq<byte> {
    EncodeList(U64, cuts)
  }

  predicate IsU64(value: nat) {
    value <= U64_MAX
  }

  function EncodeUnit(unit: SurfaceUnit): seq<byte> {
    U64(unit.start) + (U64(unit.end) + (U32(|unit.cuts| % 0x1_0000_0000) + EncodeCuts(unit.cuts)))
  }

  predicate UnitEncodable(unit: SurfaceUnit) {
    CutsValid(unit.start, unit.end, unit.cuts) && unit.end <= U64_MAX && |unit.cuts| <= U32_MAX
  }

  function Encode(document: LosslessDocument): seq<byte> {
    FORMAT_MAGIC + (U32(FORMAT_SCHEMA_VERSION)
    + (U64(|document.raw|) + (U64(|document.units|) + (document.raw + EncodeList(EncodeUnit, document.units)))))
  }

  /** Documents with a binary form. */
  predicate Encodable(document: LosslessDocument) {
    && UnitsValid(document.units, |document.raw|) && |document.raw| <= U64_MAX && |document.units| <= U64_MAX
    && forall i: nat | i < |document.units| :: |document.units[i].cuts| <= U32_MAX
  }

  lemma U64PrefixFree()
    ensures PrefixFree(U64, IsU64)
  {
    forall bytes: seq<byte>, position: nat, x: nat, y: nat
      | IsU64(x) && IsU64(y) && Embedded(bytes, position, U64(x)) && Embedded(bytes, position, U64(y))
      ensures x == y
    {
      ReadOfU64(bytes, position, x);
      ReadOfU64(bytes, position, y);
    }
  }

  lemma CutsLength(cuts: seq<nat>)
    ensures |EncodeCuts(cuts)| >= 8 * |cuts|
  {
    ListLength(U64, cuts, 8);
  }

  /** The parts of an encoded unit. */
  lemma UnitParts(bytes: seq<byte>, position: nat, unit: SurfaceUnit)
    requires UnitEncodable(unit) && Embedded(bytes, position, EncodeUnit(unit))
    ensures position + 20 <= |bytes|
    ensures ReadU64(bytes, position) == unit.start && ReadU64(bytes, position + 8) == unit.end
    ensures ReadU32(bytes, position + 16) == |unit.cuts|
    ensures Embedded(bytes, position + 20, EncodeCuts(unit.cuts)) && |bytes| - (position + 20) >= 8 * |unit.cuts|
  {
    hide U64, U32, EncodeCuts, CutsValid;
    EmbeddedSplit(bytes, position, U64(unit.start), U64(unit.end) + (U32(|unit.cuts|) + EncodeCuts(unit.cuts)));
    EmbeddedSplit(bytes, position + 8, U64(unit.end), U32(|unit.cuts|) + EncodeCuts(unit.cuts));
    EmbeddedSplit(bytes, position + 16, U32(|unit.cuts|), EncodeCuts(unit.cuts));
    CutsEnd(unit);
    ReadOfU64(bytes, position, unit.start);
    ReadOfU64(bytes, position + 8, unit.end);
    ReadOfU32(bytes, position + 16, |unit.cuts|);
    CutsLength(unit.cuts);
  }

  lemma CutsEnd(unit: SurfaceUnit)
    requires CutsValid(unit.start, unit.end, unit.cuts)
    ensures unit.start < unit.end && forall i: nat | i < |unit.cuts| :: unit.cuts[i] <= unit.end
  {
  }

  lemma UnitsPrefixFree()
    ensures PrefixFree(EncodeUnit, UnitEncodable)
  {
    hide EncodeUnit, U64, EncodeCuts, EncodeList, Embedded;
    forall bytes: seq<byte>, position: nat, x: SurfaceUnit, y: SurfaceUnit
      | UnitEncodable(x) && UnitEncodable(y)
        && Embedded(bytes, position, EncodeUnit(x)) && Embedded(bytes, position, EncodeUnit(y))
      ensures x == y
    {
      UnitParts(bytes, position, x);
      UnitParts(bytes, position, y);
      U64PrefixFree();
      CutsAreU64(x);
      CutsAreU64(y);
      CutsUnique(bytes, position + 20, x.cuts, y.cuts);
    }
  }

  lemma CutsAreU64(unit: SurfaceUnit)
    requires UnitEncodable(unit)
    ensures AllValid(IsU64, unit.cuts)
  {
  }

  lemma CutsUnique(bytes: seq<byte>, position: nat, first: seq<nat>, second: seq<nat>)
    requires AllValid(IsU64, first) && AllValid(IsU64, second) && |first| == |second|
    requires Embedded(bytes, position, EncodeCuts(first)) && Embedded(bytes, position, EncodeCuts(second))
    ensures first == second
  {
    U64PrefixFree();
    ListUnique(U64, IsU64, first, second, bytes, position);
  }

  /** The parts of an encoded document. */
  lemma DocumentParts(input: seq<byte>, document: LosslessDocument)
    requires Encodable(document) && input == Encode(document)
    ensures |input| >= 28 + |document.raw|
    ensures input[..8] == FORMAT_MAGIC && ReadU32(input, 8) == FORMAT_SCHEMA_VERSION
    ensures ReadU64(input, 12) == |document.raw| && ReadU64(input, 20) == |document.units|
    ensures input[28..28 + |document.raw|] == document.raw
    ensures Embedded(input, 28 + |document.raw|, EncodeList(EncodeUnit, document.units))
    ensures |input| == 28 + |document.raw| + |EncodeList(EncodeUnit, document.units)|
    ensures |input| - (28 + |document.raw|) >= 20 * |document.units|
  {
    hide U64, U32, EncodeUnit, EncodeList;
    var raw, units := document.raw, EncodeList(EncodeUnit, document.units);
    assert input[..|input|] == input;
    var tail4 := raw + units;
    var tail3 := U64(|document.units|) + tail4;
    var tail2 := U64(|raw|) + tail3;
    var tail1 := U32(FORMAT_SCHEMA_VERSION) + tail2;
    EmbeddedSplit(input, 0, FORMAT_MAGIC, tail1);
    EmbeddedSplit(input, 8, U32(FORMAT_SCHEMA_VERSION), tail2);
    EmbeddedSplit(input, 12, U64(|raw|), tail3);
    EmbeddedSplit(input, 20, U64(|document.units|), tail4);
    EmbeddedSplit(input, 28, raw, units);
    ReadOfU32(input, 8, FORMAT_SCHEMA_VERSION);
    ReadOfU64(input, 12, |raw|);
    ReadOfU64(input, 20, |document.units|);
    UnitsLength(document.units);
  }

  lemma {:induction false} UnitsLength(units: seq<SurfaceUnit>)
    ensures |EncodeList(EncodeUnit, units)| >= 20 * |units|
  {
    ListLength(EncodeUnit, units, 20);
  }

  /** What the header of an input must say for the document part to be read. */
  lemma DocumentJoined(input: seq<byte>, document: LosslessDocument)
    requires |input| >= 28 + |document.raw| && |document.raw| <= U64_MAX && |document.units| <= U64_MAX
    requires input[..8] == FORMAT_MAGIC && ReadU32(input, 8) == FORMAT_SCHEMA_VERSION
    requires ReadU64(input, 12) == |document.raw| && ReadU64(input, 20) == |document.units|
    requires input[28..28 + |document.raw|] == document.raw
    requires input[28 + |document.raw|..] == EncodeList(EncodeUnit, document.units)
    ensures input == Encode(document)
  {
    hide U64, U32, EncodeUnit, EncodeList;
    ReadOfU32(input, 8, FORMAT_SCHEMA_VERSION);
    ReadOfU64(input, 12, |document.raw|);
    ReadOfU64(input, 20, |document.units|);
    var at28 := 28 + |document.raw|;
    assert input[28..] == input[28..at28] + input[at28..];
    assert input[20..] == input[20..28] + input[28..];
    assert input[12..] == input[12..20] + input[20..];
    assert input[8..] == input[8..12] + input[12..];
    assert input == input[..8] + input[8..];
  }

  lemma UnitsAreEncodable(document: LosslessDocument)
    requires Encodable(document)
    ensures AllValid(UnitEncodable, document.units)
  {
  }

  /** Different documents have different encodings. */
  lemma EncodeInjective(first: LosslessDocument, second: LosslessDocument)
    requires Encodable(first) && Encodable(second) && Encode(first) == Encode(second)
    ensures first == second
  {
    hide Encode, EncodeUnit, EncodeList, Encodable;
    var input := Encode(first);
    DocumentParts(input, first);
    DocumentParts(input, second);
    var start := 28 + |first.raw|;
    UnitsPrefixFree();
    UnitsAreEncodable(first);
    UnitsAreEncodable(second);
    ListUnique(EncodeUnit, UnitEncodable, first.units, second.units, input, start);
  }

  // --------------------------------------------------------------- the codec

  method WriteUnit(before: seq<byte>, unit: SurfaceUnit) returns (output: seq<byte>)
    requires |unit.cuts| <= U32_MAX
    ensures output == before + EncodeUnit(unit)
  {
    hide U64, U32;
    output := before + U64(unit.start) + U64(unit.end) + U32(|unit.cuts|);
    ghost var prefix := output;
    for k := 0 to |unit.cuts|
      invariant output == prefix + EncodeCuts(unit.cuts[..k])
    {
      assert unit.cuts[..k + 1][..k] == unit.cuts[..k];
      output := output + U64(unit.cuts[k]);
    }
    assert unit.cuts[..|unit.cuts|] == unit.cuts;
  }

  method EncodeBinary(document: LosslessDocument) returns (r: Option<seq<byte>>)
    requires forall i: nat | i < |document.units| :: document.units[i].start <= document.units[i].end
    requires |document.raw| <= U64_MAX && |document.units| <= U64_MAX
    ensures r.Some? <==> Encodable(document)
    ensures r.Some? ==> r.value == Encode(document)
  {
    hide U64, U32, UnitsValid, EncodeUnit;
    var valid := ValidateDocument(document);
    if !valid {
      return None;
    }
    var units := document.units;
    var output := FORMAT_MAGIC + U32(FORMAT_SCHEMA_VERSION) + U64(|document.raw|) + U64(|units|) + document.raw;
    ghost var header := output;
    for i := 0 to |units|
      invariant forall k: nat | k < i :: |units[k].cuts| <= U32_MAX
      invariant output == header + EncodeList(EncodeUnit, units[..i])
    {
      if |units[i].cuts| > U32_MAX {
        return None;
      }
      output := WriteUnit(output, units[i]);
      assert units[..i + 1][..i] == units[..i];
    }
    assert units[..|units|] == units;
    r := Some(output);
  }

  class BinaryReader {
    const input: seq<byte>
    var position: nat

    ghost predicate Valid()
      reads this
    {
      position <= |input|
    }

    constructor (input: seq<byte>)
      ensures Valid() && this.input == input && position == 0
    {
      this.input := input;
      position := 0;
    }

    method Take(count: nat) returns (r: Option<seq<byte>>)
      requires Valid()
      modifies this
      ensures Valid()
      ensures r.Some? <==> old(position) + count <= |input|
      ensures r.Some? ==> position == old(position) + count && r.value == input[old(position)..position]
      ensures r.None? ==> position == old(position)
    {
      if count > |input| - position {
        return None;
      }
      r := Some(input[position..position + count]);
      position := position + count;
    }

    method TakeU32() returns (r: Option<nat>)
      requires Valid()
      modifies this
      ensures Valid()
      ensures r.Some? <==> old(position) + 4 <= |input|
      ensures r.Some? ==> position == old(position) + 4 && r.value == ReadU32(input, old(position))
    {
      var bytes := Take(4);
      if bytes.None? {
        return None;
      }
      r := Some(ReadU32(bytes.value, 0));
    }

    method TakeU64() returns (r: Option<nat>)
      requires Valid()
      modifies this
      ensures Valid()
      ensures r.Some? <==> old(position) + 8 <= |input|
      ensures r.Some? ==> position == old(position) + 8 && r.value == ReadU64(input, old(position))
    {
      var bytes := Take(8);
      if bytes.None? {
        return None;
      }
      r := Some(ReadU64(bytes.value, 0));
    }

    method ReadCuts(count: nat) returns (r: Option<seq<nat>>)
      requires Valid()
      modifies this
      ensures Valid()
      ensures r.Some? <==> old(position) + 8 * count <= |input|
      ensures r.Some? ==>
        && |r.value| == count && position == old(position) + 8 * count && AllValid(IsU64, r.value)
        && Embedded(input, old(position), EncodeCuts(r.value)) && position == old(position) + |EncodeCuts(r.value)|
    {
      hide U64, ReadU64, EncodeList;
      var cuts: seq<nat> := [];
      ghost var start := position;
      ListStart(U64, IsU64, input, start);
      for i := 0 to count
        invariant Valid() && |cuts| == i && position == start + 8 * i
        invariant ListFound(U64, IsU64, input, start, cuts, position)
      {
        ghost var middle := position;
        var cut := TakeU64();
        if cut.None? {
          return None;
        }
        ReadOfU64(input, middle, cut.value);
        ListGrows(U64, IsU64, input, start, cuts, middle, cut.value, position);
        cuts := cuts + [cut.value];
      }
      r := Some(cuts);
    }

    method ReadUnit() returns (r: Option<SurfaceUnit>)
      requires Valid()
      modifies this
      ensures Valid()
      ensures Found(EncodeUnit, UnitEncodable, input, old(position), r, position)
    {
      hide EncodeUnit, UnitEncodable, ReadU64, ReadU32, EncodeCuts, CutsValid;
      ghost var from := position;
      NoUnitBy(input, from);
      var start := TakeU64();
      if start.None? {
        return None;
      }
      var end := TakeU64();
      if end.None? || start.value > end.value {
        return None;
      }
      var count := TakeU32();
      if count.None? || count.value > (|input| - position) / 8 {
        return None;
      }
      var cuts := ReadCuts(count.value);
      if cuts.None? {
        return None;
      }
      var valid := ValidateUnit(start.value, end.value, cuts.value);
      if !valid {
        NoUnitWith(input, from, cuts.value);
        return None;
      }
      r := Some(SurfaceUnit(start.value, end.value, cuts.value));
      UnitJoined(input, from, r.value);
    }
  }

  /** The header fields a unit must have. */
  lemma NoUnitBy(input: seq<byte>, from: nat)
    ensures forall unit | UnitEncodable(unit) && Embedded(input, from, EncodeUnit(unit)) ::
      && from + 20 <= |input| && ReadU64(input, from) <= ReadU64(input, from + 8)
      && ReadU32(input, from + 16) <= (|input| - (from + 20)) / 8
  {
    hide EncodeUnit, ReadU64, ReadU32, EncodeCuts;
    forall unit | UnitEncodable(unit) && Embedded(input, from, EncodeUnit(unit))
      ensures from + 20 <= |input| && ReadU64(input, from) <= ReadU64(input, from + 8)
      ensures ReadU32(input, from + 16) <= (|input| - (from + 20)) / 8
    {
      UnitParts(input, from, unit);
      CutsEnd(unit);
    }
  }

  /** Once the cuts are read, only one unit is possible. */
  lemma NoUnitWith(input: seq<byte>, from: nat, cuts: seq<nat>)
    requires from + 20 <= |input| && |cuts| == ReadU32(input, from + 16)
    requires AllValid(IsU64, cuts) && Embedded(input, from + 20, EncodeCuts(cuts))
    requires !CutsValid(ReadU64(input, from), ReadU64(input, from + 8), cuts)
    ensures forall unit | UnitEncodable(unit) :: !Embedded(input, from, EncodeUnit(unit))
  {
    hide EncodeUnit, ReadU64, ReadU32, EncodeCuts;
    forall unit | UnitEncodable(unit)
      ensures !Embedded(input, from, EncodeUnit(unit))
    {
      if Embedded(input, from, EncodeUnit(unit)) {
        UnitParts(input, from, unit);
        CutsAreU64(unit);
        CutsUnique(input, from + 20, cuts, unit.cuts);
      }
    }
  }

  lemma UnitJoined(input: seq<byte>, from: nat, unit: SurfaceUnit)
    requires from + 20 <= |input| && |unit.cuts| == ReadU32(input, from + 16)
    requires unit.start == ReadU64(input, from) && unit.end == ReadU64(input, from + 8)
    requires Embedded(input, from + 20, EncodeCuts(unit.cuts)) && CutsValid(unit.start, unit.end, unit.cuts)
    ensures UnitEncodable(unit) && Embedded(input, from, EncodeUnit(unit))
    ensures |EncodeUnit(unit)| == 20 + |EncodeCuts(unit.cuts)|
  {
    hide U64, U32, ReadU64, ReadU32, EncodeCuts;
    ReadOfU64(input, from, unit.start);
    ReadOfU64(input, from + 8, unit.end);
    ReadOfU32(input, from + 16, |unit.cuts|);
    EmbeddedJoin(input, from + 16, U32(|unit.cuts|), EncodeCuts(unit.cuts));
    EmbeddedJoin(input, from + 8, U64(unit.end), U32(|unit.cuts|) + EncodeCuts(unit.cuts));
    EmbeddedJoin(input, from, U64(unit.start), U64(unit.end) + (U32(|unit.cuts|) + EncodeCuts(unit.cuts)));
  }

  /** Decodes an input if it is the encoding of a document, and then to that document. */
  method DecodeBinary(input: seq<byte>) returns (r: Option<LosslessDocument>)
    ensures r.Some? ==> Encodable(r.value) && Encode(r.value) == input
    ensures r.None? ==> forall document | Encodable(document) :: Encode(document) != input
  {
    hide Encode, EncodeUnit, UnitEncodable, EncodeList, ReadU32, ReadU64, CutsValid;
    NoDocumentBy(input);
    var reader := new BinaryReader(input);
    var magic := reader.Take(8);
    if magic.None? || magic.value != FORMAT_MAGIC {
      return None;
    }
    var version := reader.TakeU32();
    if version.None? || version.value != FORMAT_SCHEMA_VERSION {
      return None;
    }
    var rawLength := reader.TakeU64();
    if rawLength.None? {
      return None;
    }
    var unitCount := reader.TakeU64();
    if unitCount.None? {
      return None;
    }
    var raw := reader.Take(rawLength.value);
    if raw.None? || unitCount.value > (|input| - reader.position) / 20 {
      return None;
    }
    ghost var start := reader.position;
    var units: seq<SurfaceUnit> := [];
    ListStart(EncodeUnit, UnitEncodable, input, start);
    UnitsPrefixFree();
    for i := 0 to unitCount.value
      invariant reader.Valid() && |units| == i
      invariant ListFound(EncodeUnit, UnitEncodable, input, start, units, reader.position)
    {
      ghost var middle := reader.position;
      var unit := reader.ReadUnit();
      if unit.None? {
        ListMisses(EncodeUnit, UnitEncodable, input, start, units, middle, unitCount.value, reader.position);
        NoDocumentWith(input, rawLength.value, unitCount.value);
        return None;
      }
      ListGrows(EncodeUnit, UnitEncodable, input, start, units, middle, unit.value, reader.position);
      units := units + [unit.value];
    }
    var document := LosslessDocument(raw.value, units);
    OnlyDocument(input, document, reader.position);
    if reader.position != |input| {
      return None;
    }
    UnitsOrdered(units);
    var valid := ValidateDocument(document);
    if !valid {
      return None;
    }
    r := Some(document);
  }

  lemma UnitsOrdered(units: seq<SurfaceUnit>)
    requires AllValid(UnitEncodable, units)
    ensures forall i: nat | i < |units| :: units[i].start <= units[i].end && |units[i].cuts| <= U32_MAX
  {
  }

  /** What the header of a document says. */
  lemma NoDocumentBy(input: seq<byte>)
    ensures forall document | Encodable(document) && Encode(document) == input ::
      && |input| >= 28 && input[..8] == FORMAT_MAGIC && ReadU32(input, 8) == FORMAT_SCHEMA_VERSION
      && |input| >= 28 + ReadU64(input, 12)
      && ReadU64(input, 20) <= (|input| - (28 + ReadU64(input, 12))) / 20
  {
    hide Encode, Encodable, ReadU32, ReadU64;
    forall document | Encodable(document) && Encode(document) == input
      ensures |input| >= 28 && input[..8] == FORMAT_MAGIC && ReadU32(input, 8) == FORMAT_SCHEMA_VERSION
      ensures |input| >= 28 + ReadU64(input, 12)
      ensures ReadU64(input, 20) <= (|input| - (28 + ReadU64(input, 12))) / 20
    {
      DocumentParts(input, document);
    }
  }

  lemma NoDocumentWith(input: seq<byte>, rawLength: nat, unitCount: nat)
    requires |input| >= 28 + rawLength && rawLength == ReadU64(input, 12) && unitCount == ReadU64(input, 20)
    requires NoList(EncodeUnit, UnitEncodable, input, 28 + rawLength, unitCount)
    ensures forall document | Encodable(document) :: Encode(document) != input
  {
    hide Encode, Encodable, ReadU32, ReadU64, EncodeUnit, UnitEncodable, EncodeList;
    forall document | Encodable(document)
      ensures Encode(document) != input
    {
      if Encode(document) == input {
        DocumentParts(input, document);
        UnitsAreEncodable(document);
      }
    }
  }

  /** Once the parts are read, only one document is possible, and it ends with them. */
  lemma OnlyDocument(input: seq<byte>, document: LosslessDocument, end: nat)
    requires |input| >= 28 + |document.raw| && |document.raw| <= U64_MAX && |document.units| <= U64_MAX
    requires input[..8] == FORMAT_MAGIC && ReadU32(input, 8) == FORMAT_SCHEMA_VERSION
    requires ReadU64(input, 12) == |document.raw| && ReadU64(input, 20) == |document.units|
    requires input[28..28 + |document.raw|] == document.raw
    requires ListFound(EncodeUnit, UnitEncodable, input, 28 + |document.raw|, document.units, end)
    ensures end == |input| ==> Encode(document) == input
    ensures forall other | Encodable(other) && Encode(other) == input :: other == document && end == |input|
  {
    hide Encode, Encodable, ReadU32, ReadU64, EncodeUnit, UnitEncodable, EncodeList;
    var start := 28 + |document.raw|;
    if end == |input| {
      assert input[start..end] == input[start..];
      DocumentJoined(input, document);
    }
    UnitsPrefixFree();
    forall other | Encodable(other) && Encode(other) == input
      ensures other == document && end == |input|
    {
      DocumentParts(input, other);
      UnitsAreEncodable(other);
      ListUnique(EncodeUnit, UnitEncodable, other.units, document.units, input, start);
    }
  }
}
