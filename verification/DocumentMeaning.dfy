/** What becomes of the units of a document from the splitter to the result. */
module DocumentMeaning {
  import opened Wrappers
  import opened Bytes
  import opened LexicalClasses
  import opened Text
  import opened LosslessFormat
  import opened Splitting
  import opened Alignment
  import opened Document
  import opened Pipeline
  import opened Run = PipelineRun
  import opened CutMeaning
  import opened Sentences
  import opened CodeMeaning
  import CodeSpans

  /** Turkish words and numbers are analysed, all other Turkish units are structure, and code and what is passed
      through stay what they are. */
  predicate StatusFits(u: TokenizedUnit) {
    match u.mode
    case Code => u.status.CodeStatus?
    case OpaqueMode => u.status.OpaqueStatus?
    case Turkish =>
      if u.kind.Word? || u.kind.Number? then u.status.Morphological? || u.status.Unknown? else u.status.Structural?
  }

  /** What analysis makes of a unit: nothing of structure, code and what is passed through; words and numbers get
      an analysis, and numbers the cuts at their separators. */
  ghost predicate AnalysisFits(isNumeric: int -> bool, raw: seq<byte>, before: TokenizedUnit, after: TokenizedUnit) {
    && after.start == before.start && after.end == before.end && after.kind == before.kind && after.mode == before.mode
    && if before.mode.Turkish? && (before.kind.Word? || before.kind.Number?) then
         && (after.status.Morphological? || after.status.Unknown?) && after.analysis.Some?
         && (before.kind.Number? && before.start <= before.end <= |raw| && IsText(raw, before.start, before.end) ==>
              forall x: nat | NumberCut(isNumeric, CharsOf(raw, before.start, before.end).value, x) :: x in after.cuts)
       else after == before
  }

  lemma {:induction false} FlatHas(sentences: seq<seq<nat>>, x: nat) returns (k: nat)
    requires x in Flat(sentences)
    ensures k < |sentences| && x in sentences[k]
  {
    var last := |sentences| - 1;
    if x in sentences[last] {
      k := last;
    } else {
      k := FlatHas(sentences[..last], x);
    }
  }

  lemma AppliedFits(m: Morphology, raw: seq<byte>, unit: TokenizedUnit, analysis: NativeAnalysis, applied: TokenizedUnit)
    requires unit.start <= unit.end <= |raw| && IsText(raw, unit.start, unit.end)
    requires Applied(m, raw, unit, analysis, applied)
    ensures applied.start == unit.start && applied.end == unit.end && applied.kind == unit.kind && applied.mode == unit.mode
    ensures (applied.status.Morphological? || applied.status.Unknown?) && applied.analysis.Some?
  {
    hide CharsOf, AlignedTo;
  }

  lemma FinishedFits(m: Morphology, isNumeric: int -> bool, raw: seq<byte>, before: TokenizedUnit, analysis: NativeAnalysis,
                     after: TokenizedUnit)
    requires before.start <= before.end <= |raw| && IsText(raw, before.start, before.end)
    requires Token(before) && Finished(m, isNumeric, raw, before, analysis, after)
    ensures AnalysisFits(isNumeric, raw, before, after)
  {
    hide CharsOf, Applied, NumericCut, NumberCut, CutsValid;
    if before.kind == Number {
      var applied: TokenizedUnit :| Applied(m, raw, before, analysis, applied) && after == applied.(cuts := after.cuts)
        && forall x: nat :: x in after.cuts <==>
          x in applied.cuts || NumericCut(isNumeric, UnitChars(raw, before), |UnitChars(raw, before)|, x);
      AppliedFits(m, raw, before, analysis, applied);
      forall x: nat | NumberCut(isNumeric, UnitChars(raw, before), x)
        ensures x in after.cuts
      {
        NumberCutIs(isNumeric, UnitChars(raw, before), x);
      }
    } else if before.kind == Word {
      AppliedFits(m, raw, before, analysis, after);
    }
  }

  lemma SentenceHas(m: Morphology, isNumeric: int -> bool, contextual: bool, raw: seq<byte>, before: seq<TokenizedUnit>,
                    after: seq<TokenizedUnit>, sentence: seq<nat>, x: nat)
    requires Sentence(m, isNumeric, contextual, raw, before, after, sentence) && x in sentence
    requires x < |before| && Token(before[x])
    ensures |after| == |before| && AnalysisFits(isNumeric, raw, before[x], after[x])
  {
    hide Finished, CharsOf, AnalysisFits, CandidatesOf;
    var j: nat :| j < |sentence| && sentence[j] == x;
    var sets := SetsOf(m, raw, before, sentence);
    assert before[sentence[j]] == before[x];
    assert FreshText(raw, before[x]);
    FinishedFits(m, isNumeric, raw, before[x], sets[j][ChoiceOf(m, contextual, sets)[j]], after[x]);
  }

  lemma NoToken(isNumeric: int -> bool, raw: seq<byte>, u: TokenizedUnit)
    requires !(u.mode.Turkish? && (u.kind.Word? || u.kind.Number?))
    ensures AnalysisFits(isNumeric, raw, u, u)
  {
  }

  /** What analysis makes of all units. */
  lemma AnalysedFits(m: Morphology, isNumeric: int -> bool, contextual: bool, maximum: nat, raw: seq<byte>,
                     before: seq<TokenizedUnit>, after: seq<TokenizedUnit>)
    requires Analysed(m, isNumeric, contextual, maximum, raw, before, after)
    ensures |after| == |before| && forall i: nat | i < |before| :: AnalysisFits(isNumeric, raw, before[i], after[i])
  {
    hide AnalysisFits, Analysed, Sentence, GoesOn, Rising;
    var sentences := AnalysedInSentences(m, isNumeric, contextual, maximum, raw, before, after);
    forall i: nat | i < |before|
      ensures AnalysisFits(isNumeric, raw, before[i], after[i])
    {
      if Token(before[i]) {
        var k := FlatHas(sentences, i);
        SentenceHas(m, isNumeric, contextual, raw, before, after, sentences[k], i);
      } else {
        forall k: nat | k < |sentences|
          ensures i !in sentences[k]
        {
          NotInFlat(sentences, i, k);
        }
        NoToken(isNumeric, raw, before[i]);
      }
    }
  }

  lemma {:induction false} NotInFlat(sentences: seq<seq<nat>>, x: nat, k: nat)
    requires x !in Flat(sentences) && k < |sentences|
    ensures x !in sentences[k]
  {
    forall p: nat | p < |sentences[k]|
      ensures sentences[k][p] != x
    {
      InFlat(sentences, k, p);
    }
  }

  lemma {:induction false} PartOfSome(parts: seq<seq<TokenizedUnit>>, u: TokenizedUnit) returns (i: nat)
    requires u in Flatten(parts)
    ensures i < |parts| && u in parts[i]
  {
    var last := |parts| - 1;
    if u in parts[last] {
      i := last;
    } else {
      i := PartOfSome(parts[..last], u);
    }
  }

  lemma PartLooks(m: Morphology, raw: seq<byte>, unit: TokenizedUnit, maximum: nat, parts: seq<TokenizedUnit>, part: TokenizedUnit)
    requires PartsOf(m, raw, unit, maximum, parts) && part in parts
    ensures part.kind == unit.kind && part.mode == unit.mode && part.status == unit.status
  {
    hide CharsOf, UnknownChunk, ChunkFits, Greedy, ChunksTile;
    if MaySplit(unit) {
      var chunks: seq<(nat, nat)> :| ChunkedAs(m, raw, unit, maximum, chunks, parts);
      if |chunks| != 1 {
        var i: nat :| i < |parts| && parts[i] == part;
        assert IsPart(m, raw, unit, chunks[i], parts[i]);
      }
    }
  }

  /** In every document that the pipeline produces, exactly the Turkish words and numbers are analysed. */
  lemma ProducedFits(c: Config, m: Morphology, u: Properties, rules: CodeRules, raw: seq<byte>, s: Stages,
                     result: seq<TokenizedUnit>)
    requires Produced(c, m, u, rules, raw, s, result)
    ensures forall i: nat | i < |result| :: StatusFits(result[i])
  {
    hide Analysed, SplitSpec, PartsOf, Flatten, AnalysisFits, LexicalOk, SpansFor, InnerGroups.Assigned;
    var before := FreshUnits(s.pieces);
    AnalysedFits(m, u.isNumeric, c.contextual, c.maxSentenceTokens, raw, before, s.analysed);
    forall i: nat | i < |result|
      ensures StatusFits(result[i])
    {
      assert s.split[i] in Flatten(s.parts);
      var k := PartOfSome(s.parts, s.split[i]);
      PartLooks(m, raw, s.analysed[k], c.maxFallbackChars, s.parts[k], s.split[i]);
      FreshFits(u.isNumeric, raw, s.pieces, k, s.analysed[k]);
    }
  }

  lemma FreshFits(isNumeric: int -> bool, raw: seq<byte>, pieces: seq<Piece>, k: nat, after: TokenizedUnit)
    requires k < |pieces| && AnalysisFits(isNumeric, raw, FreshUnits(pieces)[k], after)
    ensures StatusFits(after)
  {
  }

  // ------------------------------------------------------------ candidates

  /** The places of the analyses that fit. */
  ghost predicate Picks(m: Morphology, chars: seq<Char>, analyses: seq<NativeAnalysis>, places: seq<nat>) {
    && (forall i: nat, j: nat | i < j < |places| :: places[i] < places[j])
    && forall k: nat :: k in places <==> k < |analyses| && Aligns(m.language, chars, m.complete(Values(chars), analyses[k]))
  }

  lemma PicksPush(m: Morphology, chars: seq<Char>, analyses: seq<NativeAnalysis>, before: seq<nat>, places: seq<nat>)
    requires analyses != [] && Picks(m, chars, analyses[..|analyses| - 1], before)
    requires var last := |analyses| - 1;
      places == before + if Aligns(m.language, chars, m.complete(Values(chars), analyses[last])) then [last] else []
    ensures Picks(m, chars, analyses, places)
  {
    hide Aligns;
    var last := |analyses| - 1;
    assert forall i: nat | i < |before| :: before[i] in before;
    assert forall k: nat | k < last :: analyses[..last][k] == analyses[k];
  }

  lemma {:induction false} FittingPicks(m: Morphology, chars: seq<Char>, analyses: seq<NativeAnalysis>) returns (places: seq<nat>)
    ensures Picks(m, chars, analyses, places) && |Fitting(m, chars, analyses)| == |places|
    ensures forall i: nat | i < |places| :: places[i] < |analyses| && Fitting(m, chars, analyses)[i] == analyses[places[i]]
  {
    hide Aligns, Picks;
    if analyses == [] {
      places := [];
      NoPicks(m, chars);
    } else {
      var body, last := analyses[..|analyses| - 1], |analyses| - 1;
      var before := FittingPicks(m, chars, body);
      places := before + if Aligns(m.language, chars, m.complete(Values(chars), analyses[last])) then [last] else [];
      PicksPush(m, chars, analyses, before, places);
    }
  }

  lemma NoPicks(m: Morphology, chars: seq<Char>)
    ensures Picks(m, chars, [], [])
  {
  }

  /** The candidates of a token are all analyses that fit it, in their order; only if none does, there is one
      candidate, which says that the word is unknown. */
  lemma CandidatesAre(m: Morphology, chars: seq<Char>) returns (places: seq<nat>)
    ensures Picks(m, chars, m.analyze(Values(chars)), places)
    ensures |places| == 0 ==> |CandidatesOf(m, chars)| == 1 && CandidatesOf(m, chars)[0].dictionaryId == "UNK_Unk_Unk"
    ensures |places| > 0 ==> |CandidatesOf(m, chars)| == |places|
    ensures |places| > 0 ==> forall i: nat | i < |places| ::
      places[i] < |m.analyze(Values(chars))| && CandidatesOf(m, chars)[i] == m.analyze(Values(chars))[places[i]]
  {
    hide Fitting, Picks, Aligns;
    places := FittingPicks(m, chars, m.analyze(Values(chars)));
  }

  // ------------------------------------------------------------ code spans

  /** Spans of delimited code; a backtick outside of them belongs to a mark that nothing closes. */
  ghost predicate DelimitedSpans(raw: seq<byte>, spans: seq<CodeSpans.Span>) {
    && (forall i: nat | i < |spans| :: spans[i].start < spans[i].end <= |raw| && DelimitedCode(raw, spans[i].start, spans[i].end))
    && forall k: nat | k < |raw| && raw[k] == 0x60 :: CodeSpans.Covered(spans, k) || OpensNothing(raw, k)
  }

  ghost predicate OpensNothing(raw: seq<byte>, k: nat) {
    exists start: nat, run: nat :: start <= k < start + run && TickRun(raw, start, run) && NeverCloses(raw, start, run)
  }

  predicate NeverCloses(raw: seq<byte>, start: nat, run: nat) {
    var mark := if run >= 3 then run else 1;
    forall k: nat | start + mark <= k < |raw| :: !Ticks(raw, k, mark)
  }

  ghost predicate InArtifact(raw: seq<byte>, looksLike: seq<byte> -> bool, x: nat) {
    exists span: CodeSpans.Span :: span.start <= x < span.end && CodeSpans.Artifact(raw, looksLike, span)
  }

  /** The lines end behind line feeds and at the end of the bytes. */
  ghost predicate LinesOf(raw: seq<byte>, lines: seq<CodeSpans.Span>) {
    && CodeSpans.Tiled(lines, 0, |raw|)
    && forall x: nat :: EndsLine(lines, x) <==> 0 < x <= |raw| && (raw[x - 1] == 0x0A || x == |raw|)
  }

  ghost predicate EndsLine(lines: seq<CodeSpans.Span>, x: nat) {
    exists i: nat :: i < |lines| && lines[i].end == x
  }

  ghost predicate SelectedLines(raw: seq<byte>, select: seq<CodeSpans.Span> -> seq<bool>, lines: seq<CodeSpans.Span>,
                                spans: seq<CodeSpans.Span>)
  {
    && LinesOf(raw, lines) && |select(lines)| == |lines|
    && forall x: nat :: CodeSpans.Covered(spans, x) <==> InSelected(lines, select(lines), x)
  }

  ghost predicate InSelected(lines: seq<CodeSpans.Span>, selected: seq<bool>, x: nat)
    requires |selected| == |lines|
  {
    exists k: nat :: k < |lines| && selected[k] && lines[k].start <= x < lines[k].end
  }

  /** Code that nothing delimits: the whole text of a script, or the selected lines. */
  ghost predicate UnmarkedSpans(rules: CodeRules, raw: seq<byte>, spans: seq<CodeSpans.Span>) {
    if rules.wholeFile(raw) && |raw| > 0 then spans == [CodeSpans.Span(0, |raw|)]
    else exists lines: seq<CodeSpans.Span> :: SelectedLines(raw, rules.select, lines, spans)
  }

  /** What the automatic spans cover. */
  ghost predicate Detected(rules: CodeRules, raw: seq<byte>, spans: seq<CodeSpans.Span>, delimited: seq<CodeSpans.Span>,
                           unmarked: seq<CodeSpans.Span>)
  {
    && DelimitedSpans(raw, delimited)
    && (if rules.unmarked(raw) then UnmarkedSpans(rules, raw, unmarked) else |unmarked| == 0)
    && forall x: nat :: CodeSpans.Covered(spans, x) <==>
      || CodeSpans.Covered(delimited, x) || CodeSpans.Covered(unmarked, x)
      || ((rules.unmarked(raw) || rules.artifact(raw)) && InArtifact(raw, rules.looksLike, x))
  }

  lemma LooseIs(raw: seq<byte>, k: nat)
    requires CodeSpans.Loose(raw, k)
    ensures OpensNothing(raw, k)
  {
    hide CodeSpans.BacktickRun, CodeSpans.Closes, Ticks;
    var start: nat :| start <= k && CodeSpans.Unclosed(raw, start) && k < start + CodeSpans.BacktickRun(raw, start);
    var run := CodeSpans.BacktickRun(raw, start);
    RunIs(raw, start, run);
    var mark := if run >= 3 then run else 1;
    forall j: nat | start + mark <= j < |raw|
      ensures !Ticks(raw, j, mark)
    {
      assert CodeSpans.Delimiter(raw, start) == mark;
      assert !CodeSpans.Closes(raw, j, CodeSpans.Delimiter(raw, start));
      ClosesIs(raw, j, mark);
    }
    assert NeverCloses(raw, start, run);
  }

  lemma ExplicitIs(raw: seq<byte>, spans: seq<CodeSpans.Span>)
    requires CodeSpans.ExplicitSpans(raw, spans)
    ensures DelimitedSpans(raw, spans)
  {
    hide CodeSpans.Delimited, DelimitedCode, CodeSpans.Loose, OpensNothing, CodeSpans.Covered;
    forall i: nat | i < |spans|
      ensures spans[i].start < spans[i].end <= |raw| && DelimitedCode(raw, spans[i].start, spans[i].end)
    {
      DelimitedIs(raw, spans[i]);
    }
    forall k: nat | k < |raw| && raw[k] == 0x60
      ensures CodeSpans.Covered(spans, k) || OpensNothing(raw, k)
    {
      if CodeSpans.Loose(raw, k) {
        LooseIs(raw, k);
      }
    }
  }

  lemma InferredIs(rules: CodeRules, raw: seq<byte>, spans: seq<CodeSpans.Span>)
    requires CodeSpans.Inferred(raw, rules.wholeFile(raw), rules.select, spans)
    ensures UnmarkedSpans(rules, raw, spans)
  {
    hide CodeSpans.IsLine, CodeSpans.Covered;
    if !(rules.wholeFile(raw) && |raw| > 0) {
      var lines: seq<CodeSpans.Span> :|
        CodeSpans.AllLines(raw, lines) && CodeSpans.Tiled(lines, 0, |raw|) && CodeSpans.SelectedFrom(lines, rules.select, spans);
      forall x: nat
        ensures EndsLine(lines, x) <==> 0 < x <= |raw| && (raw[x - 1] == 0x0A || x == |raw|)
      {
        LineEnds(raw, lines, |raw|, x);
      }
      assert SelectedLines(raw, rules.select, lines, spans);
    }
  }

  lemma ArtifactsCover(raw: seq<byte>, looksLike: seq<byte> -> bool, artifacts: seq<CodeSpans.Span>, x: nat)
    requires forall span :: span in artifacts <==> CodeSpans.Artifact(raw, looksLike, span)
    ensures CodeSpans.Covered(artifacts, x) <==> InArtifact(raw, looksLike, x)
  {
    hide CodeSpans.Artifact;
    if CodeSpans.Covered(artifacts, x) {
      var i: nat :| i < |artifacts| && artifacts[i].start <= x < artifacts[i].end;
      assert artifacts[i] in artifacts;
    }
    if InArtifact(raw, looksLike, x) {
      var span: CodeSpans.Span :| span.start <= x < span.end && CodeSpans.Artifact(raw, looksLike, span);
      var i: nat :| i < |artifacts| && artifacts[i] == span;
      assert artifacts[i].start <= x < artifacts[i].end;
    }
  }

  lemma CoverConcat(first: seq<CodeSpans.Span>, second: seq<CodeSpans.Span>, x: nat)
    ensures CodeSpans.Covered(first + second, x) <==> CodeSpans.Covered(first, x) || CodeSpans.Covered(second, x)
  {
    if CodeSpans.Covered(first, x) {
      var i: nat :| i < |first| && first[i].start <= x < first[i].end;
      assert (first + second)[i] == first[i];
    }
    if CodeSpans.Covered(second, x) {
      var i: nat :| i < |second| && second[i].start <= x < second[i].end;
      assert (first + second)[|first| + i] == second[i];
    }
  }

  /** The code spans of a document: none if a mode is asked for, the delimited code if nothing else is to be
      detected, and otherwise also unmarked code and artifacts. */
  lemma CodeSpansAre(c: Config, rules: CodeRules, raw: seq<byte>, spans: seq<CodeSpans.Span>)
    requires SpansFor(c, rules, raw, spans)
    ensures c.requested.TurkishOnly? || c.requested.CodeOnly? ==> |spans| == 0
    ensures c.requested.Auto? && !c.detectUnmarkedCode ==> DelimitedSpans(raw, spans)
    ensures c.requested.Auto? && c.detectUnmarkedCode ==>
      exists delimited: seq<CodeSpans.Span>, unmarked: seq<CodeSpans.Span> :: Detected(rules, raw, spans, delimited, unmarked)
  {
    hide CodeSpans.ExplicitSpans, DelimitedSpans, CodeSpans.Inferred, UnmarkedSpans, CodeSpans.Covered, InArtifact, CodeSpans.Artifact,
         CodeSpans.Separated;
    if c.requested.Auto? && !c.detectUnmarkedCode {
      ExplicitIs(raw, spans);
    } else if c.requested.Auto? {
      var explicit: seq<CodeSpans.Span>, inferred: seq<CodeSpans.Span>, artifacts: seq<CodeSpans.Span> :|
        CodeSpans.AutoSpans(raw, HintsOf(rules, raw), rules.wholeFile(raw), rules.select, rules.looksLike, spans,
                            explicit, inferred, artifacts);
      ExplicitIs(raw, explicit);
      if rules.unmarked(raw) {
        InferredIs(rules, raw, inferred);
      }
      forall x: nat
        ensures CodeSpans.Covered(spans, x) <==>
          || CodeSpans.Covered(explicit, x) || CodeSpans.Covered(inferred, x)
          || ((rules.unmarked(raw) || rules.artifact(raw)) && InArtifact(raw, rules.looksLike, x))
      {
        CoverConcat(explicit + inferred, artifacts, x);
        CoverConcat(explicit, inferred, x);
        if rules.unmarked(raw) || rules.artifact(raw) {
          ArtifactsCover(raw, rules.looksLike, artifacts, x);
        } else {
          NothingCovers(x);
        }
      }
      assert Detected(rules, raw, spans, explicit, inferred);
    }
  }

  lemma NothingCovers(x: nat)
    ensures !CodeSpans.Covered([], x)
  {
  }
}
