/** Tokenized documents and the invariants their validation checks. */
module Document {
  import opened Wrappers
  import opened LexicalClasses
  import opened LosslessFormat
  import opened Splitting
  import opened Alignment

  datatype Status = Structural | Morphological | Unknown | CodeStatus | OpaqueStatus

  datatype Metadata = Metadata(
    canonical: string, dictionaryId: string, lexeme: string, primaryPos: string, secondaryPos: string,
    morphemes: seq<AlignedMorpheme>)

  datatype TokenizedUnit = TokenizedUnit(
    start: nat, end: nat, kind: Kind, mode: Mode, status: Status, groupId: Option<nat>, cuts: seq<nat>,
    analysis: Option<Metadata>)

  const UNKNOWN_ID: string := "UNK_Unk_Unk"

  predicate ModeFitsStatus(mode: Mode, status: Status) {
    match mode
    case Turkish => status.Structural? || status.Morphological? || status.Unknown?
    case Code => status.CodeStatus?
    case OpaqueMode => status.OpaqueStatus?
  }

  predicate AnalysisOk(unit: TokenizedUnit, analysis: Metadata) {
    && analysis.canonical != "" && analysis.dictionaryId != "" && analysis.primaryPos != "" && analysis.morphemes != []
    && (unit.status.Unknown? <==> analysis.dictionaryId == UNKNOWN_ID)
    && MorphemesOk(unit.start, unit.end, analysis.morphemes)
  }

  predicate MetadataOk(unit: TokenizedUnit) {
    && ModeFitsStatus(unit.mode, unit.status)
    && ((unit.kind == Opaque || unit.kind == Control) <==> unit.mode == OpaqueMode)
    && (unit.analysis.Some? <==> unit.status.Morphological? || unit.status.Unknown?)
    && (unit.analysis.Some? ==> AnalysisOk(unit, unit.analysis.value))
  }

  predicate UnitOk(unit: TokenizedUnit) {
    CutsValid(unit.start, unit.end, unit.cuts) && MetadataOk(unit)
  }

  /** Units stand side by side from the start to the end. */
  predicate UnitsAdjoin(units: seq<TokenizedUnit>, start: nat, end: nat) {
    && (forall i: nat | i < |units| :: start <= units[i].start < units[i].end <= end)
    && (forall i: nat | 0 < i < |units| :: units[i - 1].end == units[i].start)
    && if units == [] then start == end else units[0].start == start && units[|units| - 1].end == end
  }

  predicate DocumentOk(units: seq<TokenizedUnit>, length: nat) {
    UnitsAdjoin(units, 0, length) && forall i: nat | i < |units| :: UnitOk(units[i])
  }

  method ValidateAnalysis(unit: TokenizedUnit, analysis: Metadata) returns (ok: bool)
    ensures ok <==> AnalysisOk(unit, analysis)
  {
    if analysis.canonical == "" || analysis.dictionaryId == "" || analysis.primaryPos == "" || analysis.morphemes == [] {
      return false;
    }
    if unit.status.Unknown? != (analysis.dictionaryId == UNKNOWN_ID) {
      return false;
    }
    var ms := analysis.morphemes;
    var previousEnd := unit.start;
    for i := 0 to |ms|
      invariant MorphemesOk(unit.start, unit.end, ms[..i])
      invariant previousEnd == if i == 0 then unit.start else ms[i - 1].end
    {
      var m := ms[i];
      if m.start < unit.start || m.end > unit.end || m.start > m.end {
        return false;
      }
      if m.start < previousEnd {
        assert i > 0 && !(ms[i - 1].end <= ms[i].start);
        return false;
      }
      if (m.surface == []) != (m.start == m.end) {
        return false;
      }
      previousEnd := if previousEnd < m.end then m.end else previousEnd;
    }
    assert ms[..|ms|] == ms;
    ok := true;
  }

  method ValidateMetadata(unit: TokenizedUnit) returns (ok: bool)
    ensures ok <==> MetadataOk(unit)
  {
    hide AnalysisOk;
    if !ModeFitsStatus(unit.mode, unit.status) {
      return false;
    }
    if (unit.kind == Opaque || unit.kind == Control) != (unit.mode == OpaqueMode) {
      return false;
    }
    if unit.analysis.Some? != (unit.status.Morphological? || unit.status.Unknown?) {
      return false;
    }
    if unit.analysis.Some? {
      ok := ValidateAnalysis(unit, unit.analysis.value);
      return;
    }
    ok := true;
  }

  /** The validation every document passes through. */
  method Validate(units: seq<TokenizedUnit>, length: nat) returns (ok: bool)
    ensures ok <==> DocumentOk(units, length)
  {
    hide MetadataOk, CutsValid;
    var expected: nat := 0;
    for i := 0 to |units|
      invariant UnitsAdjoin(units[..i], 0, expected) && expected <= length
      invariant forall k: nat | k < i :: UnitOk(units[k])
    {
      var unit := units[i];
      if unit.start != expected || unit.end <= unit.start {
        StartsElsewhere(units, i, expected, length);
        return false;
      }
      if unit.end > length {
        return false;
      }
      var surface := ValidateUnit(unit.start, unit.end, unit.cuts);
      if !surface {
        return false;
      }
      var metadata := ValidateMetadata(unit);
      if !metadata {
        return false;
      }
      AdjoinNext(units, i, expected);
      expected := unit.end;
    }
    assert units[..|units|] == units;
    if expected != length {
      return false;
    }
    ok := true;
  }

  lemma StartsElsewhere(units: seq<TokenizedUnit>, i: nat, expected: nat, length: nat)
    requires i < |units| && UnitsAdjoin(units[..i], 0, expected)
    requires units[i].start != expected || units[i].end <= units[i].start
    ensures !UnitsAdjoin(units, 0, length)
  {
    if i > 0 {
      assert units[..i][i - 1].end == expected;
      assert units[i - 1].end != units[i].start || units[i].end <= units[i].start;
    }
  }

  lemma AdjoinNext(units: seq<TokenizedUnit>, i: nat, expected: nat)
    requires i < |units| && UnitsAdjoin(units[..i], 0, expected) && units[i].start == expected < units[i].end
    ensures UnitsAdjoin(units[..i + 1], 0, units[i].end)
  {
    var more := units[..i + 1];
    forall k: nat | 0 < k < |more|
      ensures more[k - 1].end == more[k].start
    {
      if k < i {
        assert units[..i][k - 1].end == units[..i][k].start;
      }
    }
    forall k: nat | k < |more|
      ensures 0 <= more[k].start < more[k].end <= units[i].end
    {
      if k < i {
        assert units[..i][k].end <= expected;
      }
    }
  }
}
