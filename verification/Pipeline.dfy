/** The document pipeline: scan, split, analyse, cut long units, group. Whatever the bytes and
    whatever the morphology, its result passes validation. */
module Pipeline {
  import opened Wrappers
  import opened Bytes
  import opened LexicalClasses
  import opened Text
  import opened LosslessFormat
  import opened Splitting
  import opened Alignment
  import opened Document
  import Sorting

  /** The parts of the tokenizer that are not modelled: the candidates of a token, the completion
      of numerals, the choice in a sentence, and the spelling of scalars as strings. */
  datatype Morphology = Morphology(
    language: Language,
    analyze: seq<int> -> seq<NativeAnalysis>,
    complete: (seq<int>, NativeAnalysis) -> NativeAnalysis,
    select: seq<seq<NativeAnalysis>> -> seq<nat>,
    spell: seq<int> -> string)
  {
    /** Identities are not empty; completion keeps them and leaves other words alone; the choice
        is one candidate for each token. */
    ghost predicate Lawful() {
      && (forall values: seq<int> :: forall i: nat | i < |analyze(values)| :: IdentityOk(analyze(values)[i]))
      && (forall values: seq<int>, a: NativeAnalysis | IdentityOk(a) ::
        && IdentityOk(complete(values, a)) && complete(values, a).dictionaryId == a.dictionaryId
        && (a.primaryPos != "Num" ==> complete(values, a) == a))
      && (forall sets: seq<seq<NativeAnalysis>> | (forall i: nat | i < |sets| :: sets[i] != []) :: InRange(select(sets), sets))
    }
  }

  ghost predicate InRange(choice: seq<nat>, sets: seq<seq<NativeAnalysis>>) {
    |choice| == |sets| && forall i: nat | i < |choice| :: choice[i] < |sets[i]|
  }

  predicate IdentityOk(a: NativeAnalysis) {
    a.canonical != "" && a.dictionaryId != "" && a.primaryPos != "" && a.morphemes != []
  }

  // ------------------------------------------------------------------- candidates

  /** An analysis that can be applied to a token with these characters. */
  predicate Applicable(m: Morphology, chars: seq<Char>, a: NativeAnalysis) {
    && IdentityOk(a)
    && (a.dictionaryId == UNKNOWN_ID || Aligns(m.language, chars, m.complete(Values(chars), a)))
  }

  /** The error for an analysis that is not applicable. */
  function Refusal(m: Morphology, chars: seq<Char>, a: NativeAnalysis): AlignError {
    AlignRefusal(m.language, chars, m.complete(Values(chars), a))
  }

  function UnknownKey(m: Morphology, values: seq<int>): string {
    UNKNOWN_ID + "\U{0001}Unknown=" + m.spell(values) + "\U{0002}"
  }

  function UnknownAnalysis(m: Morphology, values: seq<int>): NativeAnalysis {
    NativeAnalysis(UnknownKey(m, values), UNKNOWN_ID, m.spell(values), "Unk", "Unk", [NativeMorpheme("Unknown", values, false)])
  }

  /** The analyses whose completed surfaces align with the token, in their order. */
  function Fitting(m: Morphology, chars: seq<Char>, analyses: seq<NativeAnalysis>): seq<NativeAnalysis> {
    if analyses == [] then []
    else
      var last := analyses[|analyses| - 1];
      Fitting(m, chars, analyses[..|analyses| - 1])
      + if Aligns(m.language, chars, m.complete(Values(chars), last)) then [last] else []
  }

  /** The candidates of a token: those that fit, or the unknown analysis. */
  function CandidatesOf(m: Morphology, chars: seq<Char>): seq<NativeAnalysis> {
    var fitting := Fitting(m, chars, m.analyze(Values(chars)));
    if fitting == [] then [UnknownAnalysis(m, Values(chars))] else fitting
  }

  lemma {:induction false} FittingByValue(m: Morphology, first: seq<Char>, second: seq<Char>, analyses: seq<NativeAnalysis>)
    requires Values(first) == Values(second)
    ensures Fitting(m, first, analyses) == Fitting(m, second, analyses)
  {
    hide Aligns;
    if analyses != [] {
      FittingByValue(m, first, second, analyses[..|analyses| - 1]);
      AlignsByValue(m.language, first, second, m.complete(Values(first), analyses[|analyses| - 1]));
    }
  }

  /** The candidates of a token depend on its text only, so a cache under the text may serve a token
      wherever it stands. */
  lemma CandidatesByValue(m: Morphology, first: seq<Char>, second: seq<Char>)
    requires Values(first) == Values(second)
    ensures CandidatesOf(m, first) == CandidatesOf(m, second)
  {
    FittingByValue(m, first, second, m.analyze(Values(first)));
  }

  /** The candidates whose surfaces fit the token; never none. */
  method SurfaceValidCandidates(m: Morphology, chars: seq<Char>, s: nat, e: nat) returns (valid: seq<NativeAnalysis>)
    requires m.Lawful() && s < e && Adjoin(chars, s, e)
    ensures valid == CandidatesOf(m, chars)
    ensures valid != [] && forall i: nat | i < |valid| :: Applicable(m, chars, valid[i])
  {
    hide Aligns, AlignedTo, Adjoin, Fitting, Applicable, Morphology.Lawful;
    var values := Values(chars);
    var analyses := m.analyze(values);
    valid := [];
    NoneFit(m, chars, analyses[..0]);
    for i := 0 to |analyses|
      invariant forall k: nat | k < |valid| :: Applicable(m, chars, valid[k])
      invariant valid == Fitting(m, chars, analyses[..i])
    {
      assert analyses[..i + 1] == analyses[..i] + [analyses[i]];
      FittingNext(m, chars, analyses[..i], analyses[i]);
      LawfulCandidate(m, chars, i);
      var candidate := analyses[i];
      if candidate.primaryPos == "Num" {
        candidate := m.complete(values, candidate);
      }
      var aligned := AlignAnalysis(m.language, chars, s, e, candidate);
      if aligned.Success? {
        valid := valid + [analyses[i]];
      }
    }
    assert analyses[..|analyses|] == analyses;
    if valid == [] {
      UnknownApplies(m, chars);
      valid := [UnknownAnalysis(m, values)];
    }
  }

  lemma {:induction false} NoneFit(m: Morphology, chars: seq<Char>, analyses: seq<NativeAnalysis>)
    requires |analyses| == 0
    ensures Fitting(m, chars, analyses) == []
  {
  }

  lemma {:induction false} FittingNext(m: Morphology, chars: seq<Char>, analyses: seq<NativeAnalysis>, next: NativeAnalysis)
    ensures Fitting(m, chars, analyses + [next]) == Fitting(m, chars, analyses)
      + if Aligns(m.language, chars, m.complete(Values(chars), next)) then [next] else []
  {
    hide Aligns;
    assert (analyses + [next])[..|analyses|] == analyses;
  }

  /** Completion only changes numerals, and an analysis that fits can be applied. */
  lemma LawfulCandidate(m: Morphology, chars: seq<Char>, i: nat)
    requires m.Lawful() && i < |m.analyze(Values(chars))|
    ensures var a := m.analyze(Values(chars))[i];
      && (a.primaryPos != "Num" ==> m.complete(Values(chars), a) == a)
      && (Aligns(m.language, chars, m.complete(Values(chars), a)) ==> Applicable(m, chars, a))
  {
    hide Aligns;
  }

  lemma UnknownApplies(m: Morphology, chars: seq<Char>)
    ensures Applicable(m, chars, UnknownAnalysis(m, Values(chars)))
  {
    hide Aligns;
  }

  // ------------------------------------------------------------------ one unit

  /** The characters of a unit of text. */
  function UnitChars(raw: seq<byte>, unit: TokenizedUnit): seq<Char>
    requires unit.start <= unit.end <= |raw| && IsText(raw, unit.start, unit.end)
  {
    CharsOf(raw, unit.start, unit.end).value
  }

  /** A unit as the splitter makes it. */
  predicate Fresh(unit: TokenizedUnit) {
    && unit.start < unit.end && unit.cuts == [] && unit.analysis.None? && unit.groupId.None?
    && ((unit.kind == Opaque || unit.kind == Control) <==> unit.mode == OpaqueMode)
    && unit.status == InitialStatus(unit.mode)
  }

  function InitialStatus(mode: Mode): Status {
    match mode
    case Code => CodeStatus
    case OpaqueMode => OpaqueStatus
    case Turkish => Structural
  }

  lemma FreshIsOk(unit: TokenizedUnit)
    requires Fresh(unit)
    ensures UnitOk(unit)
  {
  }

  predicate IsNumericSeparator(value: int) {
    value in {'.' as int, ',' as int, ':' as int, '/' as int, '-' as int}
  }

  predicate BetweenDigits(isNumeric: int -> bool, chars: seq<Char>, i: nat)
    requires i < |chars|
  {
    && IsNumericSeparator(chars[i].value)
    && 0 < i && i + 1 < |chars| && isNumeric(chars[i - 1].value) && isNumeric(chars[i + 1].value)
  }

  /** A place beside a separator that stands between digits, among the first n characters. */
  ghost predicate NumericCut(isNumeric: int -> bool, chars: seq<Char>, n: nat, x: nat)
    requires n <= |chars|
  {
    exists i: nat :: i < n && BetweenDigits(isNumeric, chars, i) && (x == chars[i].start || x == chars[i].end)
  }

  lemma NextNumericCut(isNumeric: int -> bool, chars: seq<Char>, n: nat, cuts: seq<nat>)
    requires n < |chars| && forall x: nat :: x in cuts <==> NumericCut(isNumeric, chars, n, x)
    ensures var more := if BetweenDigits(isNumeric, chars, n) then cuts + [chars[n].start, chars[n].end] else cuts;
      forall x: nat :: x in more <==> NumericCut(isNumeric, chars, n + 1, x)
  {
    hide BetweenDigits;
    forall x: nat
      ensures NumericCut(isNumeric, chars, n + 1, x) <==>
        NumericCut(isNumeric, chars, n, x) || (BetweenDigits(isNumeric, chars, n) && (x == chars[n].start || x == chars[n].end))
    {
      if BetweenDigits(isNumeric, chars, n) && (x == chars[n].start || x == chars[n].end) {
        var i: nat := n;
        assert i < n + 1 && BetweenDigits(isNumeric, chars, i) && (x == chars[i].start || x == chars[i].end);
      }
    }
  }

  /** Places around separators between digits, in order. */
  method NumericMicroCuts(isNumeric: int -> bool, chars: seq<Char>, s: nat, e: nat) returns (cuts: seq<nat>)
    requires s < e && Adjoin(chars, s, e)
    ensures Sorting.Increasing(cuts)
    ensures forall x: nat :: x in cuts <==> NumericCut(isNumeric, chars, |chars|, x)
    ensures forall x | x in cuts :: s < x < e
  {
    hide NumericCut;
    cuts := [];
    NoNumericCut(isNumeric, chars);
    for position := 0 to |chars|
      invariant forall x: nat :: x in cuts <==> NumericCut(isNumeric, chars, position, x)
      invariant forall x | x in cuts :: s < x < e
    {
      NextNumericCut(isNumeric, chars, position, cuts);
      var c := chars[position];
      if IsNumericSeparator(c.value) {
        if position > 0 && isNumeric(chars[position - 1].value)
           && position + 1 < |chars| && isNumeric(chars[position + 1].value) {
          AdjoinAt(chars, s, e, position);
          AdjoinAt(chars, s, e, position + 1);
          assert chars[position + 1 - 1].end == chars[position + 1].start;
          cuts := cuts + [c.start, c.end];
        }
      }
    }
    Sorting.SortDedupSorts(cuts);
    cuts := Sorting.SortDedup(cuts);
  }

  lemma NoNumericCut(isNumeric: int -> bool, chars: seq<Char>)
    ensures forall x: nat :: !NumericCut(isNumeric, chars, 0, x)
  {
  }

  lemma {:induction false} SortedInside(cuts: seq<nat>, s: nat, e: nat)
    requires s < e && forall x | x in cuts :: s < x < e
    ensures CutsValid(s, e, Sorting.SortDedup(cuts))
    ensures forall x: nat :: x in Sorting.SortDedup(cuts) <==> x in cuts
  {
    Sorting.SortDedupSorts(cuts);
    var sorted := Sorting.SortDedup(cuts);
    assert forall i: nat | i < |sorted| :: sorted[i] in sorted;
  }

  function MetadataOf(a: NativeAnalysis, morphemes: seq<AlignedMorpheme>): Metadata {
    Metadata(a.canonical, a.dictionaryId, a.lexeme, a.primaryPos, a.secondaryPos, morphemes)
  }

  /** The unit with an analysis applied: unknown as one whole morpheme, anything else completed,
      with the spans of its morphemes and the cuts between them. */
  ghost predicate Applied(m: Morphology, raw: seq<byte>, unit: TokenizedUnit, analysis: NativeAnalysis, applied: TokenizedUnit)
    requires unit.start <= unit.end <= |raw| && IsText(raw, unit.start, unit.end)
  {
    var chars := UnitChars(raw, unit);
    if analysis.dictionaryId == UNKNOWN_ID then
      applied == unit.(status := Unknown, analysis := Some(MetadataOf(
        analysis, [AlignedMorpheme("Unknown", Values(chars), unit.start, unit.end, false)])))
    else
      var completed := m.complete(Values(chars), analysis);
      && applied.analysis.Some?
      && AlignedTo(m.language, chars, unit.start, unit.end, completed, Aligned(applied.cuts, applied.analysis.value.morphemes))
      && applied == unit.(status := Morphological, cuts := applied.cuts,
                          analysis := Some(MetadataOf(completed, applied.analysis.value.morphemes)))
  }

  /** There is one way to apply an analysis. */
  lemma AppliedUnique(m: Morphology, raw: seq<byte>, unit: TokenizedUnit, analysis: NativeAnalysis,
                      first: TokenizedUnit, second: TokenizedUnit)
    requires unit.start <= unit.end <= |raw| && IsText(raw, unit.start, unit.end)
    requires Applied(m, raw, unit, analysis, first) && Applied(m, raw, unit, analysis, second)
    ensures first == second
  {
    hide CharsOf, AlignedTo;
    if analysis.dictionaryId != UNKNOWN_ID {
      var chars := UnitChars(raw, unit);
      AlignmentUnique(m.language, chars, unit.start, unit.end, m.complete(Values(chars), analysis),
                      Aligned(first.cuts, first.analysis.value.morphemes), Aligned(second.cuts, second.analysis.value.morphemes));
    }
  }

  method ApplyAnalysis(m: Morphology, raw: seq<byte>, unit: TokenizedUnit, analysis: NativeAnalysis)
    returns (r: Result<TokenizedUnit, AlignError>)
    requires m.Lawful() && Fresh(unit) && unit.mode == Turkish && unit.end <= |raw| && IsText(raw, unit.start, unit.end)
    requires IdentityOk(analysis)
    ensures r.Success? <==> Applicable(m, UnitChars(raw, unit), analysis)
    ensures r.Success? ==> Applied(m, raw, unit, analysis, r.value) && UnitOk(r.value) && SamePlace(unit, r.value)
    ensures r.Failure? ==> r.error == Refusal(m, UnitChars(raw, unit), analysis)
  {
    hide CharsOf, Aligns, AlignRefusal, CutsValid, MorphemesOk, AllSpan, Kept, IgnoresDots, AlignedTo;
    CharsAdjoin(raw, unit.start, unit.end);
    var chars := UnitChars(raw, unit);
    if analysis.dictionaryId == UNKNOWN_ID {
      var morpheme := AlignedMorpheme("Unknown", Values(chars), unit.start, unit.end, false);
      WholeMorpheme(chars, unit.start, unit.end, morpheme);
      FreshCuts(unit);
      return Success(unit.(status := Unknown, analysis := Some(Metadata(
        analysis.canonical, analysis.dictionaryId, analysis.lexeme, analysis.primaryPos, analysis.secondaryPos, [morpheme]))));
    }
    var completed := m.complete(Values(chars), analysis);
    var aligned := AlignAnalysis(m.language, chars, unit.start, unit.end, completed);
    if aligned.Failure? {
      return Failure(aligned.error);
    }
    AlignedIsValid(m.language, chars, unit.start, unit.end, completed, aligned.value);
    r := Success(unit.(status := Morphological, cuts := aligned.value.cuts, analysis := Some(Metadata(
      completed.canonical, completed.dictionaryId, completed.lexeme, completed.primaryPos, completed.secondaryPos,
      aligned.value.morphemes))));
  }

  /** Place, kind and mode are never changed by an analysis. */
  predicate SamePlace(before: TokenizedUnit, after: TokenizedUnit) {
    after.start == before.start && after.end == before.end && after.kind == before.kind && after.mode == before.mode
    && after.groupId == before.groupId
  }

  lemma WholeMorpheme(chars: seq<Char>, s: nat, e: nat, morpheme: AlignedMorpheme)
    requires s < e && Adjoin(chars, s, e) && morpheme.surface == Values(chars) && morpheme.start == s && morpheme.end == e
    ensures MorphemesOk(s, e, [morpheme])
  {
    assert |Values(chars)| == |chars|;
  }

  lemma FreshCuts(unit: TokenizedUnit)
    requires Fresh(unit)
    ensures CutsValid(unit.start, unit.end, unit.cuts)
  {
  }

  /** What is left of an applied analysis: nothing on punctuation and symbols, and on numbers the
      cuts around separators besides its own. */
  ghost predicate Finished(m: Morphology, isNumeric: int -> bool, raw: seq<byte>, unit: TokenizedUnit,
                           analysis: NativeAnalysis, finished: TokenizedUnit)
    requires unit.start <= unit.end <= |raw| && IsText(raw, unit.start, unit.end)
  {
    if unit.kind == Punctuation || unit.kind == Symbol then finished == unit
    else if unit.kind == Number then
      exists applied: TokenizedUnit ::
        && Applied(m, raw, unit, analysis, applied) && finished == applied.(cuts := finished.cuts)
        && CutsValid(unit.start, unit.end, finished.cuts)
        && forall x: nat :: x in finished.cuts <==>
          x in applied.cuts || NumericCut(isNumeric, UnitChars(raw, unit), |UnitChars(raw, unit)|, x)
    else Applied(m, raw, unit, analysis, finished)
  }

  method ApplySelectedAnalysis(m: Morphology, isNumeric: int -> bool, raw: seq<byte>, unit: TokenizedUnit, analysis: NativeAnalysis)
    returns (r: Result<TokenizedUnit, AlignError>)
    requires m.Lawful() && Fresh(unit) && unit.mode == Turkish && unit.end <= |raw| && IsText(raw, unit.start, unit.end)
    requires IdentityOk(analysis)
    ensures r.Success? <==> Applicable(m, UnitChars(raw, unit), analysis)
    ensures r.Failure? ==> r.error == Refusal(m, UnitChars(raw, unit), analysis)
    ensures r.Success? ==> Finished(m, isNumeric, raw, unit, analysis, r.value) && UnitOk(r.value) && SamePlace(unit, r.value)
  {
    hide CharsOf, Applicable, CutsValid, AnalysisOk, Morphology.Lawful, Applied, NumericCut;
    var applied := ApplyAnalysis(m, raw, unit, analysis);
    if applied.Failure? {
      return applied;
    }
    if unit.kind == Punctuation || unit.kind == Symbol {
      FreshIsOk(unit);
      return Success(applied.value.(status := Structural, cuts := [], analysis := None));
    }
    if unit.kind == Number {
      CharsAdjoin(raw, unit.start, unit.end);
      var cuts := NumericMicroCuts(isNumeric, UnitChars(raw, unit), unit.start, unit.end);
      CutsInside(unit.start, unit.end, applied.value.cuts);
      var merged := Sorting.SortDedup(cuts + applied.value.cuts);
      SortedInside(cuts + applied.value.cuts, unit.start, unit.end);
      MetadataIgnoresCuts(applied.value, merged);
      return Success(applied.value.(cuts := merged));
    }
    r := applied;
  }

  lemma CutsInside(s: nat, e: nat, cuts: seq<nat>)
    requires CutsValid(s, e, cuts)
    ensures forall x | x in cuts :: s < x < e
  {
  }

  lemma MetadataIgnoresCuts(unit: TokenizedUnit, cuts: seq<nat>)
    requires UnitOk(unit) && CutsValid(unit.start, unit.end, cuts)
    ensures UnitOk(unit.(cuts := cuts))
  {
    hide CutsValid, MorphemesOk;
  }

  // ------------------------------------------------------------------ one sentence

  /** Every unit is as the splitter made it, or finished. */
  predicate Progress(before: TokenizedUnit, after: TokenizedUnit) {
    SamePlace(before, after) && UnitOk(after)
  }

  /** What the units of a document are before analysis. */
  predicate AllFresh(raw: seq<byte>, units: seq<TokenizedUnit>) {
    forall i: nat | i < |units| :: FreshText(raw, units[i])
  }

  predicate FreshText(raw: seq<byte>, unit: TokenizedUnit) {
    Fresh(unit) && unit.end <= |raw| && (unit.kind != Opaque ==> IsText(raw, unit.start, unit.end))
  }

  /** Pending units of a sentence: Turkish, untouched, each listed once. */
  predicate Pending(raw: seq<byte>, units: seq<TokenizedUnit>, indices: seq<nat>) {
    && (forall j: nat | j < |indices| ::
      indices[j] < |units| && units[indices[j]].mode == Turkish && FreshText(raw, units[indices[j]]))
    && (forall j: nat, k: nat | j < k < |indices| :: indices[j] != indices[k])
  }

  /** The candidates of the tokens of a sentence. */
  function SetsOf(m: Morphology, raw: seq<byte>, units: seq<TokenizedUnit>, indices: seq<nat>): (sets: seq<seq<NativeAnalysis>>)
    requires Pending(raw, units, indices)
    ensures |sets| == |indices|
  {
    seq(|indices|, j requires 0 <= j < |indices| => CandidatesOf(m, UnitChars(raw, units[indices[j]])))
  }

  /** The candidate chosen for each token: by context, or the first. */
  function ChoiceOf(m: Morphology, contextual: bool, sets: seq<seq<NativeAnalysis>>): seq<nat> {
    if contextual then m.select(sets) else seq(|sets|, _ => 0)
  }

  /** The first n units of a sentence carry their chosen candidates. */
  ghost predicate ChosenUpTo(m: Morphology, isNumeric: int -> bool, raw: seq<byte>, before: seq<TokenizedUnit>,
                             after: seq<TokenizedUnit>, indices: seq<nat>, sets: seq<seq<NativeAnalysis>>, choice: seq<nat>, n: nat)
    requires Pending(raw, before, indices)
  {
    && |after| == |before| && n <= |indices| == |sets| && InRange(choice, sets)
    && forall j: nat | j < n ::
      Finished(m, isNumeric, raw, before[indices[j]], sets[j][choice[j]], after[indices[j]])
  }

  /** A sentence is analysed: every unit of it carries the candidate that is chosen for it. */
  ghost predicate Sentence(m: Morphology, isNumeric: int -> bool, contextual: bool, raw: seq<byte>,
                           before: seq<TokenizedUnit>, after: seq<TokenizedUnit>, indices: seq<nat>)
  {
    && Pending(raw, before, indices)
    && var sets := SetsOf(m, raw, before, indices);
      ChosenUpTo(m, isNumeric, raw, before, after, indices, sets, ChoiceOf(m, contextual, sets), |indices|)
  }

  lemma ChosenNext(m: Morphology, isNumeric: int -> bool, raw: seq<byte>, before: seq<TokenizedUnit>,
                   after: seq<TokenizedUnit>, indices: seq<nat>, sets: seq<seq<NativeAnalysis>>, choice: seq<nat>, j: nat,
                   finished: TokenizedUnit)
    requires Pending(raw, before, indices) && ChosenUpTo(m, isNumeric, raw, before, after, indices, sets, choice, j)
    requires j < |indices| && Finished(m, isNumeric, raw, before[indices[j]], sets[j][choice[j]], finished)
    ensures ChosenUpTo(m, isNumeric, raw, before, after[indices[j] := finished], indices, sets, choice, j + 1)
  {
    hide Finished, IsText, Fresh;
  }

  method Candidates(m: Morphology, raw: seq<byte>, units: seq<TokenizedUnit>, indices: seq<nat>)
    returns (sets: seq<seq<NativeAnalysis>>)
    requires m.Lawful() && Pending(raw, units, indices)
    ensures sets == SetsOf(m, raw, units, indices)
    ensures forall j: nat | j < |sets| :: sets[j] != [] && SetApplies(m, raw, units, indices, j, sets[j])
  {
    hide CharsOf, Applicable, Adjoin, Morphology.Lawful, CandidatesOf;
    sets := [];
    for j := 0 to |indices|
      invariant |sets| == j
      invariant forall k: nat | k < j :: sets[k] == CandidatesOf(m, UnitChars(raw, units[indices[k]]))
      invariant forall k: nat | k < j :: sets[k] != [] && SetApplies(m, raw, units, indices, k, sets[k])
    {
      var unit := units[indices[j]];
      CharsAdjoin(raw, unit.start, unit.end);
      var valid := SurfaceValidCandidates(m, UnitChars(raw, unit), unit.start, unit.end);
      sets := sets + [valid];
    }
  }

  predicate SetApplies(m: Morphology, raw: seq<byte>, units: seq<TokenizedUnit>, indices: seq<nat>, j: nat, set_: seq<NativeAnalysis>)
    requires Pending(raw, units, indices) && j < |indices|
  {
    forall k: nat | k < |set_| :: Applicable(m, UnitChars(raw, units[indices[j]]), set_[k])
  }

  /** The analysis of a stretch that no candidate fits. */
  function UnknownChunk(m: Morphology, raw: seq<byte>, s: nat, e: nat): Metadata
    requires s <= e <= |raw| && IsText(raw, s, e)
  {
    var values := Values(CharsOf(raw, s, e).value);
    Metadata(UnknownKey(m, values), UNKNOWN_ID, m.spell(values), "Unk", "Unk", [AlignedMorpheme("Unknown", values, s, e, false)])
  }

  lemma UnknownChunkIsOk(m: Morphology, raw: seq<byte>, unit: TokenizedUnit)
    requires unit.start < unit.end <= |raw| && IsText(raw, unit.start, unit.end)
    requires unit.status.Unknown? && unit.mode == Turkish && unit.kind != Opaque && unit.kind != Control && unit.cuts == []
    requires unit.analysis == Some(UnknownChunk(m, raw, unit.start, unit.end))
    ensures UnitOk(unit)
  {
    hide CharsOf, MorphemesOk;
    CharsAdjoin(raw, unit.start, unit.end);
    var chars := CharsOf(raw, unit.start, unit.end).value;
    WholeMorpheme(chars, unit.start, unit.end, AlignedMorpheme("Unknown", Values(chars), unit.start, unit.end, false));
  }

  /** The first candidate that can be applied is; if none can, the unit is unknown. */
  ghost predicate FirstFinished(m: Morphology, isNumeric: int -> bool, raw: seq<byte>, unit: TokenizedUnit,
                                set_: seq<NativeAnalysis>, finished: TokenizedUnit)
    requires unit.start <= unit.end <= |raw| && IsText(raw, unit.start, unit.end)
  {
    && (forall k: nat | FirstApplicable(m, UnitChars(raw, unit), set_, k) ::
      Finished(m, isNumeric, raw, unit, set_[k], finished))
    && ((forall k: nat | k < |set_| :: !Applicable(m, UnitChars(raw, unit), set_[k])) ==>
      finished == unit.(status := Unknown, cuts := [], analysis := Some(UnknownChunk(m, raw, unit.start, unit.end))))
  }

  predicate FirstApplicable(m: Morphology, chars: seq<Char>, set_: seq<NativeAnalysis>, k: nat) {
    k < |set_| && Applicable(m, chars, set_[k]) && forall i: nat | i < k :: !Applicable(m, chars, set_[i])
  }

  /** The first candidate that is not a mere mismatch is refused for its normalisation. */
  ghost predicate Blocked(m: Morphology, chars: seq<Char>, set_: seq<NativeAnalysis>, k: nat) {
    && k < |set_| && !Applicable(m, chars, set_[k]) && Refusal(m, chars, set_[k]) == UnsupportedNormalization
    && Mismatched(m, chars, set_, k)
  }

  /** The first `k` candidates do not match the token. */
  ghost predicate Mismatched(m: Morphology, chars: seq<Char>, set_: seq<NativeAnalysis>, k: nat)
    requires k <= |set_|
  {
    forall i: nat | i < k :: !Applicable(m, chars, set_[i]) && Refusal(m, chars, set_[i]) == AlignmentMismatch
  }

  lemma {:induction false} FirstFits(m: Morphology, isNumeric: int -> bool, raw: seq<byte>, unit: TokenizedUnit,
                  set_: seq<NativeAnalysis>, k: nat, finished: TokenizedUnit)
    requires unit.start <= unit.end <= |raw| && IsText(raw, unit.start, unit.end) && k < |set_|
    requires Mismatched(m, UnitChars(raw, unit), set_, k) && Applicable(m, UnitChars(raw, unit), set_[k])
    requires Finished(m, isNumeric, raw, unit, set_[k], finished)
    ensures FirstFinished(m, isNumeric, raw, unit, set_, finished)
    ensures forall i: nat :: !Blocked(m, UnitChars(raw, unit), set_, i)
  {
    hide CharsOf, Applicable, Finished, Refusal, UnknownChunk;
  }

  lemma {:induction false} NoneFits(m: Morphology, isNumeric: int -> bool, raw: seq<byte>, unit: TokenizedUnit,
                  set_: seq<NativeAnalysis>, finished: TokenizedUnit)
    requires unit.start <= unit.end <= |raw| && IsText(raw, unit.start, unit.end)
    requires Mismatched(m, UnitChars(raw, unit), set_, |set_|)
    requires finished == unit.(status := Unknown, cuts := [], analysis := Some(UnknownChunk(m, raw, unit.start, unit.end)))
    ensures FirstFinished(m, isNumeric, raw, unit, set_, finished)
    ensures forall i: nat :: !Blocked(m, UnitChars(raw, unit), set_, i)
  {
    hide CharsOf, Applicable, Finished, Refusal, UnknownChunk;
  }

  lemma {:induction false} MismatchNext(m: Morphology, chars: seq<Char>, set_: seq<NativeAnalysis>, k: nat)
    requires k < |set_| && Mismatched(m, chars, set_, k)
    requires !Applicable(m, chars, set_[k]) && Refusal(m, chars, set_[k]) == AlignmentMismatch
    ensures Mismatched(m, chars, set_, k + 1)
  {
    hide Applicable, Refusal;
  }

  lemma {:induction false} NothingMismatched(m: Morphology, chars: seq<Char>, set_: seq<NativeAnalysis>)
    ensures Mismatched(m, chars, set_, 0)
  {
  }

  /** Applies the first candidate that can be applied, without looking at the sentence; if all
      of them mismatch, the unit is unknown. An unsupported normalisation before that is an error. */
  method ApplyFirst(m: Morphology, isNumeric: int -> bool, raw: seq<byte>, unit: TokenizedUnit, set_: seq<NativeAnalysis>)
    returns (r: Result<TokenizedUnit, AlignError>)
    requires m.Lawful() && FreshText(raw, unit) && unit.mode == Turkish
    requires forall k: nat | k < |set_| :: IdentityOk(set_[k])
    ensures r.Success? ==> Progress(unit, r.value) && FirstFinished(m, isNumeric, raw, unit, set_, r.value)
    ensures r.Failure? ==> r.error == UnsupportedNormalization
    ensures r.Failure? <==> exists k: nat :: Blocked(m, UnitChars(raw, unit), set_, k)
  {
    hide CharsOf, Morphology.Lawful, UnitOk, Aligns, UnknownChunk, Applicable, Finished, Refusal, Mismatched,
         FirstFinished;
    ghost var chars := UnitChars(raw, unit);
    NothingMismatched(m, chars, set_);
    for k := 0 to |set_|
      invariant Mismatched(m, chars, set_, k)
    {
      var next := ApplySelectedAnalysis(m, isNumeric, raw, unit, set_[k]);
      if next.Success? {
        FirstFits(m, isNumeric, raw, unit, set_, k, next.value);
        return next;
      }
      if next.error != AlignmentMismatch {
        assert Blocked(m, chars, set_, k);
        return next;
      }
      MismatchNext(m, chars, set_, k);
    }
    var applied := unit.(status := Unknown, cuts := [], analysis := Some(UnknownChunk(m, raw, unit.start, unit.end)));
    UnknownChunkIsOk(m, raw, applied);
    NoneFits(m, isNumeric, raw, unit, set_, applied);
    r := Success(applied);
  }

  /** Analyses a sentence: candidates for every token, one choice, and the chosen candidates applied. */
  method FlushSegment(m: Morphology, isNumeric: int -> bool, contextual: bool, raw: seq<byte>,
                      units: array<TokenizedUnit>, indices: seq<nat>) returns (ok: bool)
    requires m.Lawful() && Pending(raw, units[..], indices)
    modifies units
    ensures ok
    ensures Sentence(m, isNumeric, contextual, raw, old(units[..]), units[..], indices)
    ensures forall i: nat | i < units.Length :: if i in indices then Progress(old(units[i]), units[i]) else units[i] == old(units[i])
  {
    hide CharsOf, Progress, FreshText, Fresh, Applicable, IsText, Pending, SetApplies, Morphology.Lawful, ChosenUpTo, SetsOf;
    ghost var before := units[..];
    if indices == [] {
      NothingChosen(m, isNumeric, contextual, raw, before, indices);
      return true;
    }
    var sets := Candidates(m, raw, units[..], indices);
    var selected: seq<nat> := seq(|sets|, _ => 0);
    if contextual {
      selected := m.select(sets);
    }
    ChoiceInRange(m, contextual, sets);
    ChosenStarts(m, isNumeric, raw, before, indices, sets, selected);
    for j := 0 to |indices|
      invariant ChosenUpTo(m, isNumeric, raw, before, units[..], indices, sets, selected, j)
      invariant forall i: nat | i < units.Length ::
        if i in indices[..j] then Progress(before[i], units[i]) else units[i] == before[i]
    {
      StillPending(raw, before, units[..], indices, j);
      var applied := ApplyUnit(m, isNumeric, contextual, raw, units[indices[j]], sets[j], selected[j], before, indices, j);
      if applied.Failure? {
        return false;
      }
      ChosenNext(m, isNumeric, raw, before, units[..], indices, sets, selected, j, applied.value);
      units[indices[j]] := applied.value;
      assert indices[..j + 1] == indices[..j] + [indices[j]];
    }
    assert indices[..|indices|] == indices;
    ok := true;
  }

  lemma ChoiceInRange(m: Morphology, contextual: bool, sets: seq<seq<NativeAnalysis>>)
    requires m.Lawful() && forall j: nat | j < |sets| :: sets[j] != []
    ensures InRange(ChoiceOf(m, contextual, sets), sets)
  {
  }

  lemma ChosenStarts(m: Morphology, isNumeric: int -> bool, raw: seq<byte>, before: seq<TokenizedUnit>,
                     indices: seq<nat>, sets: seq<seq<NativeAnalysis>>, choice: seq<nat>)
    requires Pending(raw, before, indices) && |sets| == |indices| && InRange(choice, sets)
    ensures ChosenUpTo(m, isNumeric, raw, before, before, indices, sets, choice, 0)
  {
    hide Finished, IsText, Fresh;
  }

  lemma NothingChosen(m: Morphology, isNumeric: int -> bool, contextual: bool, raw: seq<byte>, units: seq<TokenizedUnit>,
                      indices: seq<nat>)
    requires m.Lawful() && indices == [] && Pending(raw, units, indices)
    ensures Sentence(m, isNumeric, contextual, raw, units, units, indices)
  {
    hide Finished, IsText, Fresh, Morphology.Lawful;
    ChoiceInRange(m, contextual, []);
  }

  /** One unit of the sentence: the selected candidate, or without context the first that fits. */
  method ApplyUnit(m: Morphology, isNumeric: int -> bool, contextual: bool, raw: seq<byte>, unit: TokenizedUnit,
                   set_: seq<NativeAnalysis>, selected: nat,
                   ghost units: seq<TokenizedUnit>, ghost indices: seq<nat>, ghost j: nat)
    returns (applied: Result<TokenizedUnit, AlignError>)
    requires m.Lawful() && Pending(raw, units, indices) && j < |indices| && selected < |set_|
    requires unit == units[indices[j]] && SetApplies(m, raw, units, indices, j, set_) && (!contextual ==> selected == 0)
    ensures applied.Success? && Progress(unit, applied.value)
    ensures Finished(m, isNumeric, raw, unit, set_[selected], applied.value)
  {
    hide CharsOf, Applicable, IsText, Morphology.Lawful, UnitOk, Aligns, SetApplies, Finished;
    SetMembers(m, raw, units, indices, j, set_);
    SetMember(m, raw, units, indices, j, set_, selected);
    if contextual {
      applied := ApplySelectedAnalysis(m, isNumeric, raw, unit, set_[selected]);
    } else {
      applied := ApplyFirst(m, isNumeric, raw, unit, set_);
      assert FirstApplicable(m, UnitChars(raw, unit), set_, 0);
    }
  }

  lemma StillPending(raw: seq<byte>, before: seq<TokenizedUnit>, after: seq<TokenizedUnit>, indices: seq<nat>, j: nat)
    requires Pending(raw, before, indices) && j < |indices| && |before| == |after|
    requires forall i: nat | i < |after| && i !in indices[..j] :: after[i] == before[i]
    ensures indices[j] < |after| && after[indices[j]] == before[indices[j]] && before[indices[j]].mode == Turkish
    ensures FreshText(raw, before[indices[j]]) && Fresh(before[indices[j]]) && before[indices[j]].end <= |raw|
    ensures IsText(raw, before[indices[j]].start, before[indices[j]].end) && indices[j] !in indices[..j]
  {
    hide IsText;
  }

  lemma SetMember(m: Morphology, raw: seq<byte>, units: seq<TokenizedUnit>, indices: seq<nat>, j: nat,
                  set_: seq<NativeAnalysis>, k: nat)
    requires Pending(raw, units, indices) && j < |indices| && SetApplies(m, raw, units, indices, j, set_) && k < |set_|
    ensures IdentityOk(set_[k]) && FreshText(raw, units[indices[j]]) && units[indices[j]].mode == Turkish
    ensures Applicable(m, UnitChars(raw, units[indices[j]]), set_[k])
  {
    hide Aligns, CharsOf;
  }

  lemma SetMembers(m: Morphology, raw: seq<byte>, units: seq<TokenizedUnit>, indices: seq<nat>, j: nat,
                   set_: seq<NativeAnalysis>)
    requires Pending(raw, units, indices) && j < |indices| && SetApplies(m, raw, units, indices, j, set_)
    ensures FreshText(raw, units[indices[j]]) && units[indices[j]].mode == Turkish
    ensures forall k: nat | k < |set_| :: IdentityOk(set_[k])
  {
    hide Aligns, CharsOf;
    forall k: nat | k < |set_|
      ensures IdentityOk(set_[k])
    {
      assert Applicable(m, UnitChars(raw, units[indices[j]]), set_[k]);
    }
  }
}
