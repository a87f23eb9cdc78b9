/** The disambiguator's entry points over candidate lists. */
module Disambiguator {
  import opened Wrappers
  import opened Trigram
  import opened Lattice
  import opened Scoring
  import opened Hypotheses
  import opened ActiveTable
  import opened Workspace
  import DenseDecoder
  import HashDecoder

  type Candidates = seq<seq<Analysis>>

  /** One candidate of every token. */
  ghost predicate IsChoice(candidates: Candidates, p: seq<nat>) {
    |p| == |candidates| && forall t :: 0 <= t < |p| ==> p[t] < |candidates[t]|
  }

  ghost function ChosenWords(candidates: Candidates, p: seq<nat>): (ws: seq<WordData>)
    requires IsChoice(candidates, p)
    ensures |ws| == |p|
  {
    seq(|p|, t requires 0 <= t < |p| => candidates[t][p[t]].word)
  }

  /** The score of a sentence reading: all its trigram factors and the end factor. */
  ghost function ReadingScore(m: Model, begin: Analysis, end: Analysis, candidates: Candidates, p: seq<nat>): int
    requires IsChoice(candidates, p)
  {
    SentenceScore(m, begin.word, end.word, ChosenWords(candidates, p))
  }

  /** No reading of the sentence scores more than `p`. */
  ghost predicate BestReading(m: Model, begin: Analysis, end: Analysis, candidates: Candidates, p: seq<nat>) {
    IsChoice(candidates, p) && forall q :: IsChoice(candidates, q) ==>
      ReadingScore(m, begin, end, candidates, q) <= ReadingScore(m, begin, end, candidates, p)
  }

  // ----- flattening -----

  /** The first `t` candidate lists stand one after the other in `analyses`. */
  ghost predicate FlatUpTo(analyses: seq<Analysis>, starts: seq<nat>, candidates: Candidates, t: nat) {
    && t <= |candidates| && |starts| == t + 1 && starts[0] == 2 && starts[t] == |analyses| + 2
    && (forall u :: 0 <= u < t ==> candidates[u] != [] && starts[u + 1] == starts[u] + |candidates[u]|)
    && (forall u, v :: 0 <= u < v <= t ==> starts[u] < starts[v])
    && forall u, c :: 0 <= u < t && 0 <= c < |candidates[u]| ==> Numbered(analyses, starts[u] + c, candidates[u][c])
  }

  ghost predicate Numbered(analyses: seq<Analysis>, index: nat, a: Analysis) {
    2 <= index < |analyses| + 2 && analyses[index - 2] == a
  }

  /** The decoder numbers the candidates token by token. */
  ghost predicate Flattens(d: Decoder, candidates: Candidates) {
    && FlatUpTo(d.analyses, d.starts, candidates, |candidates|)
    && candidates != [] && (d.codes.Some? ==> |d.codes.value| == |d.analyses|)
  }

  lemma FlattensValid(d: Decoder, candidates: Candidates)
    requires Flattens(d, candidates)
    ensures d.Valid() && d.TokenCount() == |candidates|
  {
    hide Numbered;
  }

  lemma FlatNext(analyses: seq<Analysis>, starts: seq<nat>, candidates: Candidates, t: nat)
    requires FlatUpTo(analyses, starts, candidates, t) && t < |candidates| && candidates[t] != []
    ensures FlatUpTo(analyses + candidates[t], starts + [|analyses| + |candidates[t]| + 2], candidates, t + 1)
  {
    var analyses', starts' := analyses + candidates[t], starts + [|analyses| + |candidates[t]| + 2];
    forall u, c | 0 <= u < t + 1 && 0 <= c < |candidates[u]|
      ensures Numbered(analyses', starts'[u] + c, candidates[u][c])
    {
      assert starts'[u] == starts[u];
      if u < t {
        assert Numbered(analyses, starts[u] + c, candidates[u][c]);
      }
    }
    hide Numbered;
  }

  ghost predicate WellFormed(candidates: Candidates, codes: Option<seq<seq<ScoringCode>>>) {
    && candidates != []
    && (forall t :: 0 <= t < |candidates| ==> candidates[t] != [])
    && (codes.Some? ==> SameShape(candidates, codes.value))
  }

  ghost predicate SameShape(candidates: Candidates, codes: seq<seq<ScoringCode>>) {
    |codes| == |candidates| && forall t :: 0 <= t < |candidates| ==> |codes[t]| == |candidates[t]|
  }

  function Flat<T>(rows: seq<seq<T>>): (flat: seq<T>) {
    if rows == [] then [] else Flat(rows[..|rows| - 1]) + rows[|rows| - 1]
  }

  lemma {:induction false} FlatSnoc<T>(rows: seq<seq<T>>, row: seq<T>)
    ensures Flat(rows + [row]) == Flat(rows) + row
  {
    assert (rows + [row])[..|rows|] == rows;
  }

  /** Flattens candidate lists, refusing empty or mismatched ones. */
  method NewDecoder(m: Model, begin: Analysis, end: Analysis, candidates: Candidates,
                    codes: Option<seq<seq<ScoringCode>>>) returns (r: Result<Decoder, DecodeError>)
    ensures r.Success? <==> WellFormed(candidates, codes)
    ensures r.Success? ==>
      && Flattens(r.value, candidates) && r.value.model == m && r.value.begin == begin && r.value.end == end
      && r.value.codes == if codes.None? then None else Some(Flat(codes.value))
    ensures r.Failure? ==> r.error == if candidates == [] then EmptySentence
      else if codes.Some? && !SameShape(candidates, codes.value) then CodeCardinality else EmptyCandidateList
  {
    hide FlatUpTo, SameShape;
    if candidates == [] {
      return Failure(EmptySentence);
    }
    if codes.Some? {
      var matching := Matching(candidates, codes.value);
      if !matching {
        return Failure(CodeCardinality);
      }
    }
    var analyses: seq<Analysis> := [];
    var flattenedCodes: seq<ScoringCode> := [];
    var starts: seq<nat> := [2];
    FlatNone(candidates);
    for t := 0 to |candidates|
      invariant FlatUpTo(analyses, starts, candidates, t)
      invariant forall u :: 0 <= u < t ==> candidates[u] != []
      invariant codes.Some? ==> |codes.value| == |candidates| && flattenedCodes == Flat(codes.value[..t])
    {
      if candidates[t] == [] {
        return Failure(EmptyCandidateList);
      }
      FlatNext(analyses, starts, candidates, t);
      starts := starts + [|analyses| + |candidates[t]| + 2];
      analyses := analyses + candidates[t];
      if codes.Some? {
        CodesNext(candidates, codes.value, t);
        flattenedCodes := flattenedCodes + codes.value[t];
      }
    }
    if codes.Some? {
      CodesAll(candidates, codes.value, analyses, starts);
    }
    return Success(Decoder(m, begin, end, analyses, if codes.Some? then Some(flattenedCodes) else None, starts));
  }

  lemma CodesNext(candidates: Candidates, codes: seq<seq<ScoringCode>>, t: nat)
    requires SameShape(candidates, codes) && t < |candidates|
    ensures t < |codes| && Flat(codes[..t + 1]) == Flat(codes[..t]) + codes[t]
  {
    assert codes[..t + 1] == codes[..t] + [codes[t]];
    FlatSnoc(codes[..t], codes[t]);
  }

  lemma {:induction false} CodesAll(candidates: Candidates, codes: seq<seq<ScoringCode>>, analyses: seq<Analysis>, starts: seq<nat>)
    requires SameShape(candidates, codes) && FlatUpTo(analyses, starts, candidates, |candidates|)
    ensures codes[..|candidates|] == codes && |Flat(codes)| == |analyses|
  {
    FlatLength(candidates, codes);
    StartsAreLengths(analyses, starts, candidates, |candidates|);
  }

  lemma {:induction false} StartsAreLengths(analyses: seq<Analysis>, starts: seq<nat>, candidates: Candidates, t: nat)
    requires FlatUpTo(analyses, starts, candidates, |candidates|) && t <= |candidates|
    ensures starts[t] == Lengths(candidates, t) + 2
  {
    hide Numbered;
    if t > 0 {
      StartsAreLengths(analyses, starts, candidates, t - 1);
      assert starts[t - 1 + 1] == starts[t - 1] + |candidates[t - 1]|;
    }
  }

  function Lengths(candidates: Candidates, t: nat): nat
    requires t <= |candidates|
  {
    if t == 0 then 0 else Lengths(candidates, t - 1) + |candidates[t - 1]|
  }

  lemma FlatNone(candidates: Candidates)
    ensures FlatUpTo([], [2], candidates, 0)
  {
  }

  lemma {:induction false} FlatLength(candidates: Candidates, codes: seq<seq<ScoringCode>>)
    requires SameShape(candidates, codes)
    ensures |Flat(codes)| == Lengths(candidates, |candidates|)
  {
    FlatLengthUpTo(candidates, codes, |candidates|);
    assert codes[..|candidates|] == codes;
  }

  lemma {:induction false} FlatLengthUpTo(candidates: Candidates, codes: seq<seq<ScoringCode>>, t: nat)
    requires SameShape(candidates, codes) && t <= |candidates|
    ensures |Flat(codes[..t])| == Lengths(candidates, t)
  {
    if t > 0 {
      FlatLengthUpTo(candidates, codes, t - 1);
      assert codes[..t] == codes[..t - 1] + [codes[t - 1]];
      FlatSnoc(codes[..t - 1], codes[t - 1]);
    }
  }

  method Matching(candidates: Candidates, codes: seq<seq<ScoringCode>>) returns (same: bool)
    ensures same <==> SameShape(candidates, codes)
    ensures same ==> |codes| == |candidates|
  {
    if |codes| != |candidates| {
      return false;
    }
    for t := 0 to |candidates|
      invariant forall u :: 0 <= u < t ==> |codes[u]| == |candidates[u]|
    {
      if |codes[t]| != |candidates[t]| {
        return false;
      }
    }
    return true;
  }

  // ----- readings and lattice choices -----

  lemma TokenLengths(d: Decoder, candidates: Candidates)
    requires Flattens(d, candidates)
    ensures d.Valid() && d.TokenCount() == |candidates|
    ensures forall t :: 0 <= t < |candidates| ==> d.starts[t + 1] - d.starts[t] == |candidates[t]|
  {
    hide Numbered;
    FlattensValid(d, candidates);
  }

  lemma ChoicesAreReadings(d: Decoder, candidates: Candidates, p: seq<nat>)
    requires d.Valid() && Flattens(d, candidates)
    ensures ChoicesOf(d, p) <==> IsChoice(candidates, p)
  {
    hide Flattens, Decoder.Valid;
    TokenLengths(d, candidates);
    if IsChoice(candidates, p) {
      forall t | 0 <= t < |p|
        ensures p[t] < d.starts[t + 1] - d.starts[t]
      {
        assert d.starts[t + 1] - d.starts[t] == |candidates[t]|;
      }
    }
    if ChoicesOf(d, p) {
      forall t | 0 <= t < |p|
        ensures p[t] < |candidates[t]|
      {
        assert d.starts[t + 1] - d.starts[t] == |candidates[t]|;
      }
    }
  }

  lemma ChosenWord(d: Decoder, candidates: Candidates, t: nat, c: nat)
    requires Flattens(d, candidates) && t < |candidates| && c < |candidates[t]|
    ensures t < |d.starts| && 2 <= d.starts[t] + c < |d.analyses| + 2 && d.Word(d.starts[t] + c) == candidates[t][c]
  {
    assert Numbered(d.analyses, d.starts[t] + c, candidates[t][c]);
  }

  /** A choice scores the same in the lattice and over its words. */
  lemma ScoresAgree(d: Decoder, candidates: Candidates, p: seq<nat>)
    requires d.Valid() && Flattens(d, candidates) && IsChoice(candidates, p) && ChoicesOf(d, p)
    ensures ChoiceScore(d, p) == ReadingScore(d.model, d.begin, d.end, candidates, p)
  {
    hide SentenceScore, Decoder.Valid, Flattens, Decoder.Path, Decoder.Word, ChoicesOf, PathOf;
    var g := PathOf(d, p);
    d.PathWords(g);
    forall t | 0 <= t < |p|
      ensures d.Words(g)[t] == ChosenWords(candidates, p)[t]
    {
      ChosenWord(d, candidates, t, p[t]);
    }
    assert d.Words(g) == ChosenWords(candidates, p);
  }

  lemma BestIsBestReading(d: Decoder, candidates: Candidates, p: seq<nat>)
    requires d.Valid() && Flattens(d, candidates) && HashDecoder.Best(d, p)
    ensures BestReading(d.model, d.begin, d.end, candidates, p)
  {
    hide Flattens, Decoder.Valid, ReadingScore, ChoiceScore, IsChoice, ChoicesOf;
    ChoicesAreReadings(d, candidates, p);
    ScoresAgree(d, candidates, p);
    forall q | IsChoice(candidates, q)
      ensures ReadingScore(d.model, d.begin, d.end, candidates, q) <= ReadingScore(d.model, d.begin, d.end, candidates, p)
    {
      ChoicesAreReadings(d, candidates, q);
      ScoresAgree(d, candidates, q);
    }
  }

  // ----- decoding -----

  /** Where the dense decoder answers, the hash decoder gives the same answer. */
  lemma DenseAgreesWithHash(d: Decoder, dense: seq<nat>, hash: seq<nat>)
    requires d.Valid() && DenseDecoder.UniqueBest(d, dense) && HashDecoder.Best(d, hash)
    ensures dense == hash
  {
    hide ChoicesOf, ChoiceScore, Decoder.Valid;
    assert ChoiceScore(d, dense) <= ChoiceScore(d, hash);
  }

  /** Tries the dense decoder when there are scoring codes, and falls back on the hash decoder. */
  method Decode(d: Decoder, scorer: TransitionScorer, ws: CompactDecodeWorkspace, forceHash: bool)
    returns (r: Result<seq<nat>, DecodeError>)
    requires d.Valid() && HashDecoder.CanonicalsNameWords(d) && ws.Idle()
    requires scorer.Valid() && scorer.d == d
    requires ws !in scorer.repr && ws.next !in scorer.repr && ws.current !in scorer.repr
    modifies ws, ws.current, ws.next, scorer.repr
    ensures scorer.Valid() && ws.Idle() && {ws.current, ws.next} == {old(ws.current), old(ws.next)}
    ensures r.Success? ==> HashDecoder.Best(d, r.value)
    ensures r.Failure? ==> r.error == IndexOverflow && NO_INDEX <= |ws.hypotheses|
  {
    hide Decoder.Valid, TransitionScorer.Valid, TransitionScorer.Rows, HashDecoder.CanonicalsNameWords,
      HashDecoder.Best, DenseDecoder.UniqueBest, DenseDecoder.TooManyStates, DenseDecoder.SameIdentity,
      CompactActiveHypotheses.Idle;
    if d.codes.Some? && !forceHash {
      var dense := DenseDecoder.DecodeDense(d, scorer, ws);
      if dense.Failure? {
        return Failure(dense.error);
      }
      if dense.value.Selected? {
        UniqueIsBest(d, dense.value.choices);
        return Success(dense.value.choices);
      }
    }
    r := HashDecoder.DecodeHash(d, scorer, ws);
  }

  lemma UniqueIsBest(d: Decoder, p: seq<nat>)
    requires d.Valid() && DenseDecoder.UniqueBest(d, p)
    ensures HashDecoder.Best(d, p)
  {
    hide ChoicesOf, ChoiceScore, Decoder.Valid;
  }
}
