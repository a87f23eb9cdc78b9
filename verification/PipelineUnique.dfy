/** The stages of the pipeline leave no freedom: bytes, configuration and code spans determine the document. */
module PipelineUnique {
  import opened Wrappers
  import opened Bytes
  import opened LexicalClasses
  import opened Text
  import opened LosslessFormat
  import opened Splitting
  import opened Alignment
  import opened Document
  import opened Pipeline
  import opened PipelineRun
  import Scanner
  import InnerGroups

  // --------------------------------------------------------------------- analysis

  /** There is one way to finish a unit with an analysis. */
  lemma FinishedUnique(m: Morphology, isNumeric: int -> bool, raw: seq<byte>, unit: TokenizedUnit, analysis: NativeAnalysis,
                       first: TokenizedUnit, second: TokenizedUnit)
    requires unit.start <= unit.end <= |raw| && IsText(raw, unit.start, unit.end)
    requires Finished(m, isNumeric, raw, unit, analysis, first) && Finished(m, isNumeric, raw, unit, analysis, second)
    ensures first == second
  {
    hide Applied, IsText, CharsOf, CutsValid, NumericCut;
    if unit.kind == Number {
      var chars := UnitChars(raw, unit);
      var one: TokenizedUnit :|
        && Applied(m, raw, unit, analysis, one) && first == one.(cuts := first.cuts)
        && CutsValid(unit.start, unit.end, first.cuts)
        && forall x: nat :: x in first.cuts <==> x in one.cuts || NumericCut(isNumeric, chars, |chars|, x);
      var other: TokenizedUnit :|
        && Applied(m, raw, unit, analysis, other) && second == other.(cuts := second.cuts)
        && CutsValid(unit.start, unit.end, second.cuts)
        && forall x: nat :: x in second.cuts <==> x in other.cuts || NumericCut(isNumeric, chars, |chars|, x);
      AppliedUnique(m, raw, unit, analysis, one, other);
      SameCuts(unit.start, unit.end, first.cuts, second.cuts);
    } else if unit.kind != Punctuation && unit.kind != Symbol {
      AppliedUnique(m, raw, unit, analysis, first, second);
    }
  }

  lemma SentenceUnique(m: Morphology, isNumeric: int -> bool, contextual: bool, raw: seq<byte>, before: seq<TokenizedUnit>,
                       first: seq<TokenizedUnit>, second: seq<TokenizedUnit>, indices: seq<nat>, j: nat)
    requires Sentence(m, isNumeric, contextual, raw, before, first, indices) && j < |indices|
    requires Sentence(m, isNumeric, contextual, raw, before, second, indices)
    ensures indices[j] < |before| == |first| == |second| && first[indices[j]] == second[indices[j]]
  {
    hide Finished, IsText, CharsOf, CandidatesOf, Fresh;
    var sets := SetsOf(m, raw, before, indices);
    var choice := ChoiceOf(m, contextual, sets);
    assert FreshText(raw, before[indices[j]]);
    FreshRange(raw, before[indices[j]]);
    FinishedUnique(m, isNumeric, raw, before[indices[j]], sets[j][choice[j]], first[indices[j]], second[indices[j]]);
  }

  lemma FreshRange(raw: seq<byte>, unit: TokenizedUnit)
    requires FreshText(raw, unit)
    ensures unit.start <= unit.end <= |raw|
    ensures unit.mode == Turkish ==> IsText(raw, unit.start, unit.end)
  {
    hide IsText;
  }

  lemma AnalysedUnique(m: Morphology, isNumeric: int -> bool, contextual: bool, maximum: nat, raw: seq<byte>,
                       before: seq<TokenizedUnit>, first: seq<TokenizedUnit>, second: seq<TokenizedUnit>)
    requires Analysed(m, isNumeric, contextual, maximum, raw, before, first)
    requires Analysed(m, isNumeric, contextual, maximum, raw, before, second)
    ensures first == second
  {
    hide Sentence, SegmentsUpTo;
    var s := SegmentsUpTo(raw, before, maximum, |before|);
    var sentences := s.ended + [s.open];
    forall x: nat | x < |before|
      ensures first[x] == second[x]
    {
      if k: nat :| k < |sentences| && x in sentences[k] {
        var j: nat :| j < |sentences[k]| && sentences[k][j] == x;
        SentenceUnique(m, isNumeric, contextual, raw, before, first, second, sentences[k], j);
      }
    }
  }

  // -------------------------------------------------------------------- long units

  lemma {:induction false} CountJoin(raw: seq<byte>, s: nat, b: nat, e: nat)
    requires s <= b <= e <= |raw| && IsText(raw, s, b) && IsText(raw, s, e)
    ensures IsText(raw, b, e)
    ensures |CharsOf(raw, s, e).value| == |CharsOf(raw, s, b).value| + |CharsOf(raw, b, e).value|
    decreases b - s
  {
    hide ScalarAt;
    if s < b {
      CountJoin(raw, s + ScalarAt(raw, s).value.1, b, e);
    }
  }

  /** A longer chunk counts for more. */
  lemma LengthGrows(raw: seq<byte>, maximum: nat, byteGeneral: bool, s: nat, b: nat, e: nat)
    requires s <= b < e <= |raw|
    requires ChunkFits(raw, maximum, byteGeneral, (s, b)) && ChunkFits(raw, maximum, byteGeneral, (s, e))
    ensures ChunkLength(raw, byteGeneral, (s, b)) < ChunkLength(raw, byteGeneral, (s, e)) <= maximum
  {
    if !byteGeneral {
      CountJoin(raw, s, b, e);
    }
  }

  ghost predicate GreedyTile(raw: seq<byte>, maximum: nat, byteGeneral: bool, chunks: seq<(nat, nat)>, s: nat, e: nat) {
    && ChunksTile(chunks, s, e) && Greedy(raw, maximum, byteGeneral, chunks) && e <= |raw|
    && forall i: nat | i < |chunks| :: ChunkFits(raw, maximum, byteGeneral, chunks[i])
  }

  lemma FirstChunk(raw: seq<byte>, maximum: nat, byteGeneral: bool, chunks: seq<(nat, nat)>, s: nat, e: nat)
    requires GreedyTile(raw, maximum, byteGeneral, chunks, s, e)
    ensures chunks != [] && chunks[0].0 == s < chunks[0].1 <= e <= |raw|
    ensures ChunkFits(raw, maximum, byteGeneral, chunks[0])
    ensures |chunks| == 1 ==> chunks[0].1 == e
    ensures |chunks| > 1 ==> chunks[0].1 < e && ChunkLength(raw, byteGeneral, chunks[0]) == maximum
    ensures |chunks| > 1 ==> GreedyTile(raw, maximum, byteGeneral, chunks[1..], chunks[0].1, e)
  {
    hide ChunkFits, ChunkLength;
    if |chunks| > 1 {
      var rest := chunks[1..];
      assert chunks[1 - 1].1 == chunks[1].0;
      forall i: nat | 0 < i < |rest|
        ensures rest[i - 1].1 == rest[i].0
      {
        assert chunks[i + 1 - 1].1 == chunks[i + 1].0;
      }
      ChunksBehind(chunks, s, e, 1);
    }
  }

  lemma {:induction false} ChunksBehind(chunks: seq<(nat, nat)>, s: nat, e: nat, k: nat)
    requires ChunksTile(chunks, s, e) && k < |chunks|
    ensures forall i: nat | k <= i < |chunks| :: chunks[k].0 <= chunks[i].0
    decreases |chunks| - k
  {
    if k + 1 < |chunks| {
      ChunksBehind(chunks, s, e, k + 1);
      assert chunks[k + 1 - 1].1 == chunks[k + 1].0;
    }
  }

  /** A stretch is cut greedily in one way. */
  lemma {:induction false} GreedyUnique(raw: seq<byte>, maximum: nat, byteGeneral: bool, first: seq<(nat, nat)>,
                                        second: seq<(nat, nat)>, s: nat, e: nat)
    requires GreedyTile(raw, maximum, byteGeneral, first, s, e) && GreedyTile(raw, maximum, byteGeneral, second, s, e)
    ensures first == second
    decreases |first|
  {
    hide GreedyTile, ChunkFits, ChunkLength;
    FirstChunk(raw, maximum, byteGeneral, first, s, e);
    FirstChunk(raw, maximum, byteGeneral, second, s, e);
    var one, other := first[0].1, second[0].1;
    if one < other {
      LengthGrows(raw, maximum, byteGeneral, s, one, other);
    } else if other < one {
      LengthGrows(raw, maximum, byteGeneral, s, other, one);
    }
    if |first| > 1 {
      GreedyUnique(raw, maximum, byteGeneral, first[1..], second[1..], one, e);
    }
    assert first == [first[0]] + first[1..] && second == [second[0]] + second[1..];
  }

  lemma PartsUnique(m: Morphology, raw: seq<byte>, unit: TokenizedUnit, maximum: nat,
                    first: seq<TokenizedUnit>, second: seq<TokenizedUnit>)
    requires PartsOf(m, raw, unit, maximum, first) && PartsOf(m, raw, unit, maximum, second)
    ensures first == second
  {
    hide ChunksTile, Greedy, ChunkFits, UnknownChunk, IsText;
    if MaySplit(unit) {
      var one: seq<(nat, nat)> :| ChunkedAs(m, raw, unit, maximum, one, first);
      var other: seq<(nat, nat)> :| ChunkedAs(m, raw, unit, maximum, other, second);
      ChunkedIsGreedy(m, raw, unit, maximum, one, first);
      ChunkedIsGreedy(m, raw, unit, maximum, other, second);
      GreedyUnique(raw, maximum, unit.mode == OpaqueMode, one, other, unit.start, unit.end);
      assert |first| == |second|;
      forall i: nat | i < |first|
        ensures first[i] == second[i]
      {
        if |one| != 1 {
          assert IsPart(m, raw, unit, one[i], first[i]) && IsPart(m, raw, unit, one[i], second[i]);
        }
      }
    }
  }

  lemma ChunkedIsGreedy(m: Morphology, raw: seq<byte>, unit: TokenizedUnit, maximum: nat, chunks: seq<(nat, nat)>,
                        parts: seq<TokenizedUnit>)
    requires ChunkedAs(m, raw, unit, maximum, chunks, parts)
    ensures GreedyTile(raw, maximum, unit.mode == OpaqueMode, chunks, unit.start, unit.end)
  {
    hide ChunkFits, IsPart, Greedy;
  }

  lemma LongSplitUnique(m: Morphology, raw: seq<byte>, maximum: nat, units: seq<TokenizedUnit>,
                        firstParts: seq<seq<TokenizedUnit>>, first: seq<TokenizedUnit>,
                        secondParts: seq<seq<TokenizedUnit>>, second: seq<TokenizedUnit>)
    requires LongSplit(m, raw, maximum, units, firstParts, first) && LongSplit(m, raw, maximum, units, secondParts, second)
    ensures first == second
  {
    hide PartsOf, Flatten;
    forall i: nat | i < |units|
      ensures firstParts[i] == secondParts[i]
    {
      PartsUnique(m, raw, units[i], maximum, firstParts[i], secondParts[i]);
    }
    assert firstParts == secondParts;
  }

  // ------------------------------------------------------------------------ groups

  lemma GroupedUnique(rules: CodeRules, raw: seq<byte>, units: seq<TokenizedUnit>,
                      first: seq<TokenizedUnit>, second: seq<TokenizedUnit>)
    requires Grouped(rules, raw, units, first) && Grouped(rules, raw, units, second)
    ensures first == second
  {
    hide Views, InnerGroups.HasGroup;
    var views := Views(rules, raw, units);
    forall i: nat | i < |units|
      ensures first[i] == second[i]
    {
      assert GroupIds(first)[i] == first[i].groupId && GroupIds(second)[i] == second[i].groupId;
      assert InnerGroups.HasGroup(views, |units|, i, GroupIds(first)[i]);
      assert InnerGroups.HasGroup(views, |units|, i, GroupIds(second)[i]);
      OneGroup(views, |units|, i, first[i].groupId, second[i].groupId);
    }
  }

  lemma OneGroup(views: seq<InnerGroups.UnitView>, n: nat, i: nat, first: Option<nat>, second: Option<nat>)
    requires i < n <= |views| && InnerGroups.HasGroup(views, n, i, first) && InnerGroups.HasGroup(views, n, i, second)
    ensures first == second
  {
  }

  // ---------------------------------------------------------------------- documents

  /** Whatever two runs of the pipeline do, with the same code spans they produce the same document. */
  lemma ProducedUnique(c: Config, m: Morphology, u: Properties, rules: CodeRules, raw: seq<byte>,
                       one: Stages, first: seq<TokenizedUnit>, other: Stages, second: seq<TokenizedUnit>)
    requires Produced(c, m, u, rules, raw, one, first) && Produced(c, m, u, rules, raw, other, second)
    requires one.codeSpans == other.codeSpans
    ensures first == second
  {
    hide SplitSpec, Analysed, LongSplit, Grouped, LexicalOk, Scanner.Units, SpansFor;
    SplitUnique(raw, rules.cases, Scanner.Units(u, raw, 0), one.codeSpans, c.requested, one.pieces, other.pieces);
    AnalysedUnique(m, u.isNumeric, c.contextual, c.maxSentenceTokens, raw, FreshUnits(one.pieces), one.analysed, other.analysed);
    LongSplitUnique(m, raw, c.maxFallbackChars, one.analysed, one.parts, one.split, other.parts, other.split);
    GroupedUnique(rules, raw, one.split, first, second);
  }
}
