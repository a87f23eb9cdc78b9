/** The pipeline with the causal decoder as its choice: every sentence carries the causal reading. */
module CausalPipeline {
  import opened Wrappers
  import opened Bytes
  import opened Trigram
  import opened Lattice
  import opened Hypotheses
  import opened Disambiguator
  import opened ContextScores
  import opened CausalDecoder
  import opened Document
  import opened Alignment
  import opened Pipeline
  import opened PipelineRun
  import LexicalClasses
  import Scoring
  import Entry

  // -------------------------------------------------------- the causal choice as a function

  predicate NoneEmpty(candidates: Candidates) {
    forall t: nat | t < |candidates| :: candidates[t] != []
  }

  predicate IsFirstMaximum(row: seq<int>, best: nat) {
    best < |row| && forall c: nat | c < |row| :: row[c] <= row[best] && (c < best ==> row[c] < row[best])
  }

  function FirstMaximum(row: seq<int>): (best: nat)
    requires row != []
    ensures IsFirstMaximum(row, best)
  {
    if |row| == 1 then 0
    else
      var before := FirstMaximum(row[..|row| - 1]);
      if row[before] < row[|row| - 1] then |row| - 1 else before
  }

  /** The scores of the last token's candidates behind the choices before it. */
  ghost function LastRow(m: Model, begin: Analysis, candidates: Candidates, before: seq<nat>): (row: seq<int>)
    requires candidates != [] && candidates[|candidates| - 1] != []
    requires IsChoice(candidates[..|candidates| - 1], before)
    ensures |row| == |candidates[|candidates| - 1]|
  {
    var t := |candidates| - 1;
    seq(|candidates[t]|, c requires 0 <= c < |candidates[t]| => CausalScore(m, begin, candidates, before + [0], t, c))
  }

  /** The first candidate of greatest score for each token in turn. */
  ghost function CausalSelect(m: Model, begin: Analysis, candidates: Candidates): (choice: seq<nat>)
    requires NoneEmpty(candidates)
    ensures IsChoice(candidates, choice)
  {
    hide LastRow, FirstMaximum, CausalScore;
    if candidates == [] then []
    else
      var before := CausalSelect(m, begin, candidates[..|candidates| - 1]);
      before + [FirstMaximum(LastRow(m, begin, candidates, before))]
  }

  lemma {:induction false} LastIsFirstBest(m: Model, begin: Analysis, candidates: Candidates, before: seq<nat>, best: nat)
    requires candidates != [] && candidates[|candidates| - 1] != []
    requires IsChoice(candidates[..|candidates| - 1], before)
    requires IsFirstMaximum(LastRow(m, begin, candidates, before), best)
    ensures IsChoice(candidates, before + [best]) && FirstBest(m, begin, candidates, before + [best], |candidates| - 1)
  {
    hide TrigramScore, CausalScore;
    var t := |candidates| - 1;
    var p := before + [best];
    assert (before + [0])[..t] == p[..t];
    SameCausalScores(m, begin, candidates, candidates, before + [0], p, t);
    assert forall c: nat | c < |candidates[t]| ::
      LastRow(m, begin, candidates, before)[c] == CausalScore(m, begin, candidates, p, t, c);
  }

  lemma {:induction false} EarlierStaysFirstBest(m: Model, begin: Analysis, candidates: Candidates, p: seq<nat>, t: nat)
    requires IsChoice(candidates, p) && t < |candidates| - 1
    requires IsChoice(candidates[..|candidates| - 1], p[..|p| - 1])
    requires FirstBest(m, begin, candidates[..|candidates| - 1], p[..|p| - 1], t)
    ensures FirstBest(m, begin, candidates, p, t)
  {
    hide TrigramScore, CausalScore;
    var body, q := candidates[..|candidates| - 1], p[..|p| - 1];
    assert body[..t] == candidates[..t] && q[..t] == p[..t];
    SameCausalScores(m, begin, body, candidates, q, p, t);
  }

  /** Every sentence whose tokens have candidates has a causal reading. */
  lemma {:induction false} CausalReadingExists(m: Model, begin: Analysis, candidates: Candidates)
    requires NoneEmpty(candidates)
    ensures CausalReading(m, begin, candidates, CausalSelect(m, begin, candidates))
  {
    hide FirstBest, CausalScore, IsFirstMaximum, LastRow;
    if candidates != [] {
      var body := candidates[..|candidates| - 1];
      var before := CausalSelect(m, begin, body);
      var choice := CausalSelect(m, begin, candidates);
      CausalReadingExists(m, begin, body);
      LastIsFirstBest(m, begin, candidates, before, choice[|choice| - 1]);
      assert choice[..|choice| - 1] == before;
      forall t | 0 <= t < |candidates|
        ensures FirstBest(m, begin, candidates, choice, t)
      {
        if t < |candidates| - 1 {
          EarlierStaysFirstBest(m, begin, candidates, choice, t);
        }
      }
    }
  }

  // -------------------------------------------------------- choosing for one sentence

  /** What the decoder sees of the candidates. */
  function Viewed(view: NativeAnalysis -> Analysis, sets: seq<seq<NativeAnalysis>>): (candidates: Candidates)
    ensures |candidates| == |sets| && forall t: nat | t < |sets| :: |candidates[t]| == |sets[t]|
  {
    seq(|sets|, t requires 0 <= t < |sets| => seq(|sets[t]|, c requires 0 <= c < |sets[t]| => view(sets[t][c])))
  }

  lemma {:induction false} FlatGroups(rows: Candidates)
    requires GroupsInRange(rows)
    ensures forall i :: 0 <= i < |Flat(rows)| ==> |Flat(rows)[i].word.igs| <= GROUP_LIMIT
  {
    if rows != [] {
      var body, last := rows[..|rows| - 1], |rows| - 1;
      FlatGroups(body);
      forall c | 0 <= c < |rows[last]|
        ensures |rows[last][c].word.igs| <= GROUP_LIMIT
      {
      }
    }
  }

  lemma FlatIsScorable(d: Decoder, candidates: Candidates)
    requires Flattens(d, candidates) && GroupsInRange(candidates)
    requires |d.begin.word.igs| <= GROUP_LIMIT && |d.end.word.igs| <= GROUP_LIMIT
    ensures d.Valid() && d.Scorable()
  {
    hide FlatUpTo, GroupsInRange, Flat, Decoder.Valid;
    FlattensValid(d, candidates);
    var n := |candidates|;
    FlatStarts(d, candidates);
    Entry.AnalysesAreFlat(d.analyses, d.starts, candidates, n);
    assert candidates[..n] == candidates;
    FlatGroups(candidates);
  }

  lemma FlatStarts(d: Decoder, candidates: Candidates)
    requires Flattens(d, candidates)
    ensures |d.starts| == |candidates| + 1 && d.starts[0] == 2 && d.starts[|candidates|] == |d.analyses| + 2
  {
  }

  /** Selects causally without codes and without a score cache. */
  method DisambiguateIndicesCausal(m: Model, begin: Analysis, end: Analysis, candidates: Candidates)
    returns (r: Result<seq<nat>, DecodeError>)
    requires GroupsInRange(candidates) && |begin.word.igs| <= GROUP_LIMIT && |end.word.igs| <= GROUP_LIMIT
    ensures r.Success? <==> WellFormed(candidates, None)
    ensures r.Success? ==> CausalReading(m, begin, candidates, r.value)
    ensures r.Success? ==> NoneEmpty(candidates) && r.value == CausalSelect(m, begin, candidates)
  {
    hide Decoder.Valid, Decoder.Scorable, Flattens, GroupsInRange, CausalReading, CausalPath, ChoicesOf;
    var made := NewDecoder(m, begin, end, candidates, None);
    if made.Failure? {
      return Failure(made.error);
    }
    var d := made.value;
    FlatIsScorable(d, candidates);
    var scorer := new Scoring.TransitionScorer(d, null);
    var selected := DecodeCausal(d, scorer);
    CausalPathIsReading(d, candidates, selected);
    CausalReadingExists(m, begin, candidates);
    CausalReadingUnique(m, begin, candidates, selected, CausalSelect(m, begin, candidates));
    r := Success(selected);
  }

  /** A sentence has one causal reading. */
  lemma CausalReadingUnique(m: Model, begin: Analysis, candidates: Candidates, p: seq<nat>, q: seq<nat>)
    requires CausalReading(m, begin, candidates, p) && CausalReading(m, begin, candidates, q)
    ensures p == q
  {
    hide FirstBest;
    CausalPrefix(m, begin, candidates, candidates, p, q, |candidates|);
    assert p[..|candidates|] == p && q[..|candidates|] == q;
  }

  // ------------------------------------------------------------------ whole documents

  /** The choice of the pipeline is what the causal decoder selects. */
  ghost predicate SelectsCausally(m: Morphology, model: Model, begin: Analysis, view: NativeAnalysis -> Analysis) {
    forall sets: seq<seq<NativeAnalysis>> | sets != [] && (forall t: nat | t < |sets| :: sets[t] != []) ::
      CausalReading(model, begin, Viewed(view, sets), m.select(sets))
  }

  /** Every unit of the sentence carries the first candidate of greatest causal score behind the two
      words chosen before it, or its only candidate. */
  ghost predicate CarriesCausalChoice(m: Morphology, isNumeric: int -> bool, raw: seq<byte>, before: seq<TokenizedUnit>,
                                      after: seq<TokenizedUnit>, sentence: seq<nat>, model: Model, begin: Analysis,
                                      view: NativeAnalysis -> Analysis, choice: seq<nat>)
  {
    && Pending(raw, before, sentence)
    && var sets := SetsOf(m, raw, before, sentence);
      && CausalReading(model, begin, Viewed(view, sets), choice)
      && ChosenUpTo(m, isNumeric, raw, before, after, sentence, sets, choice, |sentence|)
  }

  lemma SentenceIsCausal(m: Morphology, isNumeric: int -> bool, raw: seq<byte>, before: seq<TokenizedUnit>,
                         after: seq<TokenizedUnit>, sentence: seq<nat>, model: Model, begin: Analysis,
                         view: NativeAnalysis -> Analysis)
    requires Sentence(m, isNumeric, true, raw, before, after, sentence) && sentence != []
    requires SelectsCausally(m, model, begin, view)
    ensures CarriesCausalChoice(m, isNumeric, raw, before, after, sentence, model, begin, view,
                                m.select(SetsOf(m, raw, before, sentence)))
  {
    hide Finished, CandidatesOf, FreshText, CausalReading, Viewed;
    var sets := SetsOf(m, raw, before, sentence);
    forall t: nat | t < |sets|
      ensures sets[t] != []
    {
      assert ChoiceOf(m, true, sets)[t] < |sets[t]|;
    }
  }

  /** The pipeline with the causal decoder as its choice. */
  ghost function Causally(m: Morphology, model: Model, begin: Analysis, view: NativeAnalysis -> Analysis): Morphology {
    m.(select := (sets: seq<seq<NativeAnalysis>>) =>
      if NoneEmpty(Viewed(view, sets)) then CausalSelect(model, begin, Viewed(view, sets)) else [])
  }

  lemma CausalChoice(m: Morphology, model: Model, begin: Analysis, view: NativeAnalysis -> Analysis, sets: seq<seq<NativeAnalysis>>)
    requires forall t: nat | t < |sets| :: sets[t] != []
    ensures InRange(Causally(m, model, begin, view).select(sets), sets)
    ensures CausalReading(model, begin, Viewed(view, sets), Causally(m, model, begin, view).select(sets))
  {
    hide CausalReading, CausalSelect, Viewed;
    CausalReadingExists(model, begin, Viewed(view, sets));
  }

  lemma CausallyKeeps(m: Morphology, model: Model, begin: Analysis, view: NativeAnalysis -> Analysis)
    ensures var causal := Causally(m, model, begin, view);
      causal.analyze == m.analyze && causal.complete == m.complete && causal.language == m.language && causal.spell == m.spell
  {
  }

  /** It is lawful whenever the morphology is, and chooses as the decoder does. */
  lemma CausallySelects(m: Morphology, model: Model, begin: Analysis, view: NativeAnalysis -> Analysis)
    requires m.Lawful()
    ensures Causally(m, model, begin, view).Lawful() && SelectsCausally(Causally(m, model, begin, view), model, begin, view)
  {
    hide CausalReading, Causally, IdentityOk, Viewed, InRange;
    var causal := Causally(m, model, begin, view);
    CausallyKeeps(m, model, begin, view);
    forall sets: seq<seq<NativeAnalysis>> | forall t: nat | t < |sets| :: sets[t] != []
      ensures InRange(causal.select(sets), sets)
      ensures CausalReading(model, begin, Viewed(view, sets), causal.select(sets))
    {
      CausalChoice(m, model, begin, view, sets);
    }
  }

  /** Every sentence of every document that the pipeline produces with the causal decoder carries the
      reading which the decoder selects among its candidates. */
  lemma DocumentIsCausal(c: Config, m: Morphology, u: LexicalClasses.Properties, rules: CodeRules, raw: seq<byte>, s: Stages,
                         result: seq<TokenizedUnit>, model: Model, begin: Analysis, view: NativeAnalysis -> Analysis,
                         sentence: seq<nat>)
    requires m.Lawful() && c.contextual && Produced(c, Causally(m, model, begin, view), u, rules, raw, s, result)
    requires sentence != [] && sentence in SentencesOf(raw, FreshUnits(s.pieces), c.maxSentenceTokens)
    ensures Pending(raw, FreshUnits(s.pieces), sentence)
    ensures var causal := Causally(m, model, begin, view);
      var candidates := Viewed(view, SetsOf(causal, raw, FreshUnits(s.pieces), sentence));
      && NoneEmpty(candidates)
      && CarriesCausalChoice(causal, u.isNumeric, raw, FreshUnits(s.pieces), s.analysed, sentence, model, begin, view,
                             CausalSelect(model, begin, candidates))
    ensures var sets := SetsOf(Causally(m, model, begin, view), raw, FreshUnits(s.pieces), sentence);
      ViewOf(view, sets, Viewed(view, sets))
  {
    hide Produced, CausalReading, ChosenUpTo, Causally, SetsOf, SelectsCausally, CausalSelect, Pending;
    var causal := Causally(m, model, begin, view);
    var before := FreshUnits(s.pieces);
    CausallySelects(m, model, begin, view);
    AgreesWithDecoder(c, causal, u, rules, raw, s, result, model, begin, view, sentence);
    var candidates := Viewed(view, SetsOf(causal, raw, before, sentence));
    var choice := causal.select(SetsOf(causal, raw, before, sentence));
    ReadingHasCandidates(model, begin, candidates, choice);
    CausalReadingExists(model, begin, candidates);
    CausalReadingUnique(model, begin, candidates, choice, CausalSelect(model, begin, candidates));
    ViewedIs(view, SetsOf(causal, raw, before, sentence));
  }

  /** The decoder sees every candidate at its place. */
  predicate ViewOf(view: NativeAnalysis -> Analysis, sets: seq<seq<NativeAnalysis>>, candidates: Candidates) {
    && |candidates| == |sets|
    && forall t: nat | t < |sets| ::
      |candidates[t]| == |sets[t]| && forall c: nat | c < |sets[t]| :: candidates[t][c] == view(sets[t][c])
  }

  lemma ViewedIs(view: NativeAnalysis -> Analysis, sets: seq<seq<NativeAnalysis>>)
    ensures ViewOf(view, sets, Viewed(view, sets))
  {
  }

  lemma ReadingHasCandidates(m: Model, begin: Analysis, candidates: Candidates, p: seq<nat>)
    requires CausalReading(m, begin, candidates, p)
    ensures NoneEmpty(candidates)
  {
    hide FirstBest;
  }

  /** If the pipeline chooses as the causal decoder does, every sentence of every document it produces
      carries the causal reading of its candidates. */
  lemma AgreesWithDecoder(c: Config, m: Morphology, u: LexicalClasses.Properties, rules: CodeRules, raw: seq<byte>, s: Stages,
                         result: seq<TokenizedUnit>, model: Model, begin: Analysis, view: NativeAnalysis -> Analysis,
                         sentence: seq<nat>)
    requires Produced(c, m, u, rules, raw, s, result) && c.contextual && SelectsCausally(m, model, begin, view)
    requires sentence != [] && sentence in SentencesOf(raw, FreshUnits(s.pieces), c.maxSentenceTokens)
    ensures CarriesCausalChoice(m, u.isNumeric, raw, FreshUnits(s.pieces), s.analysed, sentence, model, begin, view,
                                m.select(SetsOf(m, raw, FreshUnits(s.pieces), sentence)))
  {
    hide SelectsCausally, Sentence, CarriesCausalChoice, SegmentsUpTo, LongSplit, Grouped, SpansFor, FreshUnits;
    var before := FreshUnits(s.pieces);
    var segments := SegmentsUpTo(raw, before, c.maxSentenceTokens, |before|);
    var sentences := segments.ended + [segments.open];
    var k: nat :| k < |sentences| && sentences[k] == sentence;
    assert Sentence(m, u.isNumeric, true, raw, before, s.analysed, sentences[k]);
    SentenceIsCausal(m, u.isNumeric, raw, before, s.analysed, sentence, model, begin, view);
  }

  /** The sentences the pipeline analyses. */
  function SentencesOf(raw: seq<byte>, units: seq<TokenizedUnit>, maximum: nat): seq<seq<nat>> {
    if !Inside(raw, units) then []
    else
      var segments := SegmentsUpTo(raw, units, maximum, |units|);
      segments.ended + [segments.open]
  }
}
