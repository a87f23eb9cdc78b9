/** What the units of a document are at each stage, status by status. */
module UnitMeaning {
  import opened Wrappers
  import opened Bytes
  import opened LexicalClasses
  import opened Text
  import opened LosslessFormat
  import opened Splitting
  import opened Alignment
  import opened Document
  import opened Pipeline
  import opened Run = PipelineRun

  predicate PassedThrough(kind: Kind) {
    kind.Opaque? || kind.Control?
  }

  /** Names are there; morphemes lie in the unit in order, and exactly the empty ones take no room. */
  predicate SoundAnalysis(u: TokenizedUnit, a: Metadata) {
    && |a.canonical| > 0 && |a.dictionaryId| > 0 && |a.primaryPos| > 0 && |a.morphemes| > 0
    && (forall i: nat | i < |a.morphemes| ::
      && u.start <= a.morphemes[i].start <= a.morphemes[i].end <= u.end
      && (|a.morphemes[i].surface| == 0 <==> a.morphemes[i].start == a.morphemes[i].end))
    && (forall i: nat, j: nat | i < j < |a.morphemes| :: a.morphemes[i].end <= a.morphemes[j].start)
  }

  /** Structure, words and unknown words are Turkish, code is code, and only opaque and control units are
      passed through. Words have an analysis, which names the unknown item exactly in unknown words. */
  predicate SoundUnit(u: TokenizedUnit) {
    && u.start < u.end
    && (forall i: nat | i < |u.cuts| :: u.start < u.cuts[i] < u.end)
    && (forall i: nat, j: nat | i < j < |u.cuts| :: u.cuts[i] < u.cuts[j])
    && match u.status
      case Structural => u.mode.Turkish? && !PassedThrough(u.kind) && u.analysis.None?
      case CodeStatus => u.mode.Code? && !PassedThrough(u.kind) && u.analysis.None?
      case OpaqueStatus => u.mode.OpaqueMode? && PassedThrough(u.kind) && u.analysis.None?
      case Morphological =>
        && u.mode.Turkish? && !PassedThrough(u.kind) && u.analysis.Some?
        && SoundAnalysis(u, u.analysis.value) && u.analysis.value.dictionaryId != "UNK_Unk_Unk"
      case Unknown =>
        && u.mode.Turkish? && !PassedThrough(u.kind) && u.analysis.Some?
        && SoundAnalysis(u, u.analysis.value) && u.analysis.value.dictionaryId == "UNK_Unk_Unk"
  }

  lemma {:induction false} Rise(xs: seq<nat>, i: nat, j: nat)
    requires (forall k: nat | 0 < k < |xs| :: xs[k - 1] < xs[k]) && i < j < |xs|
    ensures xs[i] < xs[j]
    decreases j
  {
    assert xs[j - 1] < xs[j];
    if i < j - 1 {
      Rise(xs, i, j - 1);
    }
  }

  lemma CutsAre(start: nat, end: nat, cuts: seq<nat>)
    ensures CutsValid(start, end, cuts) <==>
      && start < end && (forall i: nat | i < |cuts| :: start < cuts[i] < end)
      && (forall i: nat, j: nat | i < j < |cuts| :: cuts[i] < cuts[j])
  {
    if CutsValid(start, end, cuts) {
      forall i: nat, j: nat | i < j < |cuts|
        ensures cuts[i] < cuts[j]
      {
        Rise(cuts, i, j);
      }
    }
  }

  lemma {:induction false} InOrderPairs(ms: seq<AlignedMorpheme>, s: nat, e: nat, i: nat, j: nat)
    requires MorphemesOk(s, e, ms) && i < j < |ms|
    ensures ms[i].end <= ms[j].start
    decreases j
  {
    assert ms[j - 1].end <= ms[j].start;
    if i < j - 1 {
      InOrderPairs(ms, s, e, i, j - 1);
    }
  }

  lemma MorphemesAre(u: TokenizedUnit, a: Metadata)
    ensures AnalysisOk(u, a) <==> SoundAnalysis(u, a) && (u.status.Unknown? <==> a.dictionaryId == "UNK_Unk_Unk")
  {
    if MorphemesOk(u.start, u.end, a.morphemes) {
      forall i: nat, j: nat | i < j < |a.morphemes|
        ensures a.morphemes[i].end <= a.morphemes[j].start
      {
        InOrderPairs(a.morphemes, u.start, u.end, i, j);
      }
    }
  }

  /** What validation accepts of a unit. */
  lemma UnitOkIs(u: TokenizedUnit)
    ensures UnitOk(u) <==> SoundUnit(u)
  {
    hide CutsValid, AnalysisOk, SoundAnalysis;
    CutsAre(u.start, u.end, u.cuts);
    if u.analysis.Some? {
      MorphemesAre(u, u.analysis.value);
    }
  }

  /** A document is valid if its units tile it and each of them is sound. */
  lemma DocumentOkIs(units: seq<TokenizedUnit>, length: nat)
    ensures DocumentOk(units, length) <==>
      && (units == [] ==> length == 0)
      && (units != [] ==> units[0].start == 0 && units[|units| - 1].end == length)
      && (forall i: nat, j: nat | i < |units| && j == i + 1 && j < |units| :: units[i].end == units[j].start)
      && (forall i: nat | i < |units| :: SoundUnit(units[i]))
  {
    hide UnitOk, SoundUnit;
    forall i: nat | i < |units|
      ensures UnitOk(units[i]) <==> SoundUnit(units[i])
      ensures SoundUnit(units[i]) ==> units[i].start < units[i].end
    {
      UnitOkIs(units[i]);
      NotEmpty(units[i]);
    }
    if && (units != [] ==> units[0].start == 0 && units[|units| - 1].end == length)
       && (forall i: nat, j: nat | i < |units| && j == i + 1 && j < |units| :: units[i].end == units[j].start)
       && (forall i: nat | i < |units| :: SoundUnit(units[i])) {
      forall i: nat | i < |units|
        ensures units[i].end <= length
      {
        EndsInside(units, length, i);
      }
      assert forall i: nat | 0 < i < |units| :: units[i - 1].end == units[i].start;
    }
    if DocumentOk(units, length) {
      forall i: nat, j: nat | i < |units| && j == i + 1 && j < |units|
        ensures units[i].end == units[j].start
      {
        assert units[j - 1].end == units[j].start;
      }
    }
  }

  lemma NotEmpty(u: TokenizedUnit)
    ensures SoundUnit(u) ==> u.start < u.end
  {
  }

  lemma {:induction false} EndsInside(units: seq<TokenizedUnit>, length: nat, i: nat)
    requires i < |units| && units[|units| - 1].end == length
    requires forall k: nat, j: nat | k < |units| && j == k + 1 && j < |units| :: units[k].end == units[j].start
    requires forall k: nat | k < |units| :: units[k].start < units[k].end
    ensures units[i].end <= length
    decreases |units| - i
  {
    if i + 1 < |units| {
      EndsInside(units, length, i + 1);
      assert units[i].end == units[i + 1].start;
    }
  }

  /** What the splitter hands on. */
  lemma FreshUnitsAre(pieces: seq<Piece>, i: nat)
    requires i < |pieces|
    ensures var p, u := pieces[i], FreshUnits(pieces)[i];
      && u.start == p.start && u.end == p.end && u.kind == p.kind && u.mode == p.mode
      && u.groupId.None? && |u.cuts| == 0 && u.analysis.None?
      && u.status == (if p.mode.Turkish? then Structural else if p.mode.Code? then CodeStatus else OpaqueStatus)
  {
  }

  /** The analysis of an unknown word: one morpheme that is the whole word. */
  lemma UnknownWord(m: Morphology, raw: seq<byte>, s: nat, e: nat)
    requires s <= e <= |raw| && IsText(raw, s, e)
    ensures var word := Values(CharsOf(raw, s, e).value);
      UnknownChunk(m, raw, s, e) == Metadata(
        "UNK_Unk_Unk" + "\U{0001}Unknown=" + m.spell(word) + "\U{0002}", "UNK_Unk_Unk", m.spell(word), "Unk", "Unk",
        [AlignedMorpheme("Unknown", word, s, e, false)])
    ensures UnknownAnalysis(m, Values(CharsOf(raw, s, e).value)) ==
      var word := Values(CharsOf(raw, s, e).value);
      NativeAnalysis(
        "UNK_Unk_Unk" + "\U{0001}Unknown=" + m.spell(word) + "\U{0002}", "UNK_Unk_Unk", m.spell(word), "Unk", "Unk",
        [NativeMorpheme("Unknown", word, false)])
  {
    hide CharsOf;
  }

  /** The length of a unit: characters, but bytes where it is passed through. */
  ghost function Size(raw: seq<byte>, u: TokenizedUnit): nat {
    if u.mode.OpaqueMode? then if u.start <= u.end then u.end - u.start else 0
    else if u.start <= u.end <= |raw| && IsText(raw, u.start, u.end) then |CharsOf(raw, u.start, u.end).value| else 0
  }

  /** The parts stand on their chunks. */
  lemma PartsOnChunks(m: Morphology, raw: seq<byte>, u: TokenizedUnit, maximum: nat, chunks: seq<(nat, nat)>,
                      parts: seq<TokenizedUnit>, i: nat)
    requires u.start < u.end && ChunkedAs(m, raw, u, maximum, chunks, parts) && i < |chunks|
    ensures |parts| == |chunks| && parts[i].start == chunks[i].0 && parts[i].end == chunks[i].1
    ensures parts[i].kind == u.kind && parts[i].mode == u.mode && parts[i].status == u.status
  {
    hide CharsOf, UnknownChunk, ChunkFits, Greedy;
    if |chunks| > 1 {
      assert IsPart(m, raw, u, chunks[i], parts[i]);
    }
  }

  lemma PartSize(m: Morphology, raw: seq<byte>, u: TokenizedUnit, maximum: nat, chunks: seq<(nat, nat)>,
                 parts: seq<TokenizedUnit>, i: nat)
    requires u.start < u.end && ChunkedAs(m, raw, u, maximum, chunks, parts) && i < |chunks|
    ensures |parts| == |chunks| && Size(raw, parts[i]) <= maximum && (i < |parts| - 1 ==> Size(raw, parts[i]) == maximum)
  {
    hide CharsOf, UnknownChunk;
    PartsOnChunks(m, raw, u, maximum, chunks, parts, i);
    assert ChunkFits(raw, maximum, u.mode == OpaqueMode, chunks[i]);
  }

  /** Structure and analysed words stay whole. Of unknown words, code and what is passed through, the parts are
      as long as they may be, all but the last one. */
  lemma PartsAre(m: Morphology, raw: seq<byte>, u: TokenizedUnit, maximum: nat, parts: seq<TokenizedUnit>)
    requires SoundUnit(u) && maximum > 0 && PartsOf(m, raw, u, maximum, parts)
    ensures u.status.Structural? || u.status.Morphological? ==> parts == [u]
    ensures !(u.status.Structural? || u.status.Morphological?) ==>
      && |parts| > 0 && parts[0].start == u.start && parts[|parts| - 1].end == u.end
      && (forall i: nat, j: nat | i < |parts| && j == i + 1 && j < |parts| :: parts[i].end == parts[j].start)
      && (forall i: nat | i < |parts| :: Size(raw, parts[i]) <= maximum)
      && (forall i: nat | i < |parts| - 1 :: Size(raw, parts[i]) == maximum)
      && (forall i: nat | i < |parts| :: parts[i].kind == u.kind && parts[i].mode == u.mode && parts[i].status == u.status)
  {
    hide SoundAnalysis, Size, IsPart, ChunkFits, Greedy;
    if !(u.status.Structural? || u.status.Morphological?) {
      var chunks: seq<(nat, nat)> :| ChunkedAs(m, raw, u, maximum, chunks, parts);
      forall i: nat | i < |chunks|
        ensures |parts| == |chunks| && parts[i].start == chunks[i].0 && parts[i].end == chunks[i].1
        ensures parts[i].kind == u.kind && parts[i].mode == u.mode && parts[i].status == u.status
        ensures Size(raw, parts[i]) <= maximum && (i < |parts| - 1 ==> Size(raw, parts[i]) == maximum)
      {
        PartsOnChunks(m, raw, u, maximum, chunks, parts, i);
        PartSize(m, raw, u, maximum, chunks, parts, i);
      }
      forall i: nat, j: nat | i < |parts| && j == i + 1 && j < |parts|
        ensures parts[i].end == parts[j].start
      {
        assert chunks[j - 1].1 == chunks[j].0;
      }
    }
  }

  /** A lossless document is valid if its units lie in it one behind the other, with rising cuts inside. */
  lemma UnitsValidIs(units: seq<SurfaceUnit>, length: nat)
    ensures UnitsValid(units, length) <==>
      && (forall i: nat | i < |units| :: SoundSurface(units[i]) && units[i].end <= length)
      && (forall i: nat, j: nat | i < j < |units| :: units[i].end <= units[j].start)
  {
    hide CutsValid, SoundSurface;
    forall i: nat | i < |units|
      ensures CutsValid(units[i].start, units[i].end, units[i].cuts) <==> SoundSurface(units[i])
      ensures SoundSurface(units[i]) ==> units[i].start < units[i].end
    {
      SurfaceIs(units[i]);
    }
    if UnitsValid(units, length) {
      forall i: nat, j: nat | i < j < |units|
        ensures units[i].end <= units[j].start
      {
        SurfacesRise(units, length, i, j);
      }
    }
  }

  predicate SoundSurface(u: SurfaceUnit) {
    && u.start < u.end && (forall i: nat | i < |u.cuts| :: u.start < u.cuts[i] < u.end)
    && (forall i: nat, j: nat | i < j < |u.cuts| :: u.cuts[i] < u.cuts[j])
  }

  lemma SurfaceIs(u: SurfaceUnit)
    ensures CutsValid(u.start, u.end, u.cuts) <==> SoundSurface(u)
    ensures SoundSurface(u) ==> u.start < u.end
  {
    CutsAre(u.start, u.end, u.cuts);
  }

  lemma {:induction false} SurfacesRise(units: seq<SurfaceUnit>, length: nat, i: nat, j: nat)
    requires UnitsValid(units, length) && i < j < |units|
    ensures units[i].end <= units[j].start
    decreases j
  {
    assert units[j - 1].end <= units[j].start;
    if i < j - 1 {
      SurfacesRise(units, length, i, j - 1);
      assert CutsValid(units[j - 1].start, units[j - 1].end, units[j - 1].cuts);
    }
  }
}
