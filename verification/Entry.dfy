/** Disambiguating a sentence of candidate lists with a worker's score cache. */
module Entry {
  import opened Wrappers
  import opened Trigram
  import opened Lattice
  import opened Scoring
  import opened Hypotheses
  import opened ActiveTable
  import opened Workspace
  import opened Disambiguator
  import opened CausalDecoder
  import HashDecoder

  /** What the interner promises of one candidate: its signature and its canonical id name its word. */
  ghost predicate Named(lex: nat -> WordData, names: nat -> WordData, a: Analysis, code: ScoringCode) {
    CodeFits(lex, code, a.word) && names(code.canonical) == a.word && |a.word.igs| <= GROUP_LIMIT
  }

  ghost predicate Coherent(lex: nat -> WordData, names: nat -> WordData, candidates: Candidates, codes: seq<seq<ScoringCode>>) {
    forall t, c :: 0 <= t < |candidates| && t < |codes| && 0 <= c < |candidates[t]| && c < |codes[t]| ==>
      Named(lex, names, candidates[t][c], codes[t][c])
  }

  /** The boundary signatures name the sentence boundaries. */
  ghost predicate BoundariesFit(lex: nat -> WordData, begin: Analysis, end: Analysis) {
    && lex(BEGIN_SIGNATURE) == begin.word && lex(END_SIGNATURE) == end.word
    && |begin.word.igs| <= GROUP_LIMIT && |end.word.igs| <= GROUP_LIMIT
  }

  lemma {:induction false} FlatNamed(lex: nat -> WordData, names: nat -> WordData, candidates: Candidates,
                                     codes: seq<seq<ScoringCode>>, t: nat)
    requires SameShape(candidates, codes) && Coherent(lex, names, candidates, codes) && t <= |candidates|
    ensures |Flat(candidates[..t])| == |Flat(codes[..t])|
    ensures forall i :: 0 <= i < |Flat(candidates[..t])| ==>
      Named(lex, names, Flat(candidates[..t])[i], Flat(codes[..t])[i])
  {
    hide Named;
    if t > 0 {
      FlatNamed(lex, names, candidates, codes, t - 1);
      FlatSnoc(candidates[..t - 1], candidates[t - 1]);
      FlatSnoc(codes[..t - 1], codes[t - 1]);
      assert candidates[..t] == candidates[..t - 1] + [candidates[t - 1]];
      assert codes[..t] == codes[..t - 1] + [codes[t - 1]];
    }
  }

  /** A token's candidates stand together in the numbering. */
  lemma TokenSlice(analyses: seq<Analysis>, starts: seq<nat>, candidates: Candidates, t: nat)
    requires FlatUpTo(analyses, starts, candidates, |candidates|) && t < |candidates|
    ensures |starts| == |candidates| + 1 && starts[0] == 2 <= starts[t]
    ensures starts[t + 1] == starts[t] + |candidates[t]| <= |analyses| + 2
    ensures analyses[starts[t] - 2..starts[t + 1] - 2] == candidates[t]
  {
    hide Numbered;
    assert starts[t + 1] == starts[t] + |candidates[t]|;
    assert t + 1 == |candidates| || starts[t + 1] < starts[|candidates|];
    assert t == 0 || starts[0] < starts[t];
    var from, row := starts[t] - 2, candidates[t];
    forall c | 0 <= c < |row|
      ensures analyses[from + c] == row[c]
    {
      NumberedAt(analyses, starts, candidates, t, c);
    }
  }

  lemma NumberedAt(analyses: seq<Analysis>, starts: seq<nat>, candidates: Candidates, t: nat, c: nat)
    requires FlatUpTo(analyses, starts, candidates, |candidates|) && t < |candidates| && c < |candidates[t]|
    ensures 2 <= starts[t] + c < |analyses| + 2 && analyses[starts[t] - 2 + c] == candidates[t][c]
  {
    assert Numbered(analyses, starts[t] + c, candidates[t][c]);
  }

  lemma {:induction false} AnalysesAreFlat(analyses: seq<Analysis>, starts: seq<nat>, candidates: Candidates, t: nat)
    requires FlatUpTo(analyses, starts, candidates, |candidates|) && t <= |candidates|
    requires |starts| == |candidates| + 1 && starts[0] == 2
    ensures starts[t] == |Flat(candidates[..t])| + 2 <= |analyses| + 2
    ensures analyses[..starts[t] - 2] == Flat(candidates[..t])
  {
    hide FlatUpTo;
    if t > 0 {
      AnalysesAreFlat(analyses, starts, candidates, t - 1);
      TokenSlice(analyses, starts, candidates, t - 1);
      FlatSnoc(candidates[..t - 1], candidates[t - 1]);
      assert candidates[..t] == candidates[..t - 1] + [candidates[t - 1]];
      var from, to := starts[t - 1] - 2, starts[t] - 2;
      assert analyses[..to] == analyses[..from] + analyses[from..to];
    }
  }

  /** The interner's promises carry over to the numbered lattice. */
  lemma {:induction false} LatticeNamed(lex: nat -> WordData, names: nat -> WordData, d: Decoder, candidates: Candidates,
                     codes: seq<seq<ScoringCode>>)
    requires Flattens(d, candidates) && SameShape(candidates, codes) && d.codes == Some(Flat(codes))
    requires Coherent(lex, names, candidates, codes)
    ensures forall i :: 0 <= i < |d.analyses| ==> i < |d.codes.value| && Named(lex, names, d.analyses[i], d.codes.value[i])
  {
    hide Named, Numbered, FlatUpTo, SameShape, Coherent;
    FlatNamed(lex, names, candidates, codes, |candidates|);
    LastStart(d, candidates);
    AnalysesAreFlat(d.analyses, d.starts, candidates, |candidates|);
    SameLength(candidates, codes);
    assert candidates[..|candidates|] == candidates && codes[..|candidates|] == codes;
    assert d.analyses[..|d.analyses|] == d.analyses;
  }

  lemma LastStart(d: Decoder, candidates: Candidates)
    requires Flattens(d, candidates)
    ensures |d.starts| == |candidates| + 1 && d.starts[0] == 2 && d.starts[|candidates|] == |d.analyses| + 2
  {
    hide Numbered;
  }

  lemma SameLength(candidates: Candidates, codes: seq<seq<ScoringCode>>)
    requires SameShape(candidates, codes)
    ensures |codes| == |candidates|
  {
  }

  lemma {:induction false} LatticeReady(lex: nat -> WordData, names: nat -> WordData, d: Decoder, candidates: Candidates,
                     codes: seq<seq<ScoringCode>>)
    requires Flattens(d, candidates) && SameShape(candidates, codes) && d.codes == Some(Flat(codes))
    requires Coherent(lex, names, candidates, codes) && BoundariesFit(lex, d.begin, d.end)
    ensures d.Valid() && d.Scorable() && Fits(lex, d) && HashDecoder.CanonicalsNameWords(d)
  {
    hide Flattens, SameShape, Coherent, Flat;
    FlattensValid(d, candidates);
    LatticeNamed(lex, names, d, candidates, codes);
    hide Decoder.Valid;
    forall i: nat | i < |d.analyses| + 2 && d.Code(i).Some?
      ensures CodeFits(lex, d.Code(i).value, d.Word(i).word)
    {
      if 2 <= i {
        assert Named(lex, names, d.analyses[i - 2], d.codes.value[i - 2]);
      }
    }
    forall i: nat, j: nat | i < |d.analyses| && j < |d.analyses| && HashDecoder.SameCanonical(d, i, j)
      ensures d.analyses[i].word == d.analyses[j].word
    {
      assert Named(lex, names, d.analyses[i], d.codes.value[i]) && Named(lex, names, d.analyses[j], d.codes.value[j]);
    }
    forall i | 0 <= i < |d.analyses|
      ensures |d.analyses[i].word.igs| <= GROUP_LIMIT
    {
      assert Named(lex, names, d.analyses[i], d.codes.value[i]);
    }
  }

  /** Selects a best reading, whatever the cache retained from other sentences. */
  method DisambiguateIndicesScored(m: Model, begin: Analysis, end: Analysis, candidates: Candidates,
                                   codes: seq<seq<ScoringCode>>, cache: DisambiguationScoreCache,
                                   ws: CompactDecodeWorkspace, forceHash: bool, ghost names: nat -> WordData)
    returns (r: Result<seq<nat>, DecodeError>)
    requires cache.Valid() && cache.model == m && BoundariesFit(cache.lex, begin, end)
    requires Coherent(cache.lex, names, candidates, codes) && ws.Idle()
    requires ws !in cache.Footprint() && ws.current !in cache.Footprint() && ws.next !in cache.Footprint()
    modifies ws, ws.current, ws.next, cache.Footprint()
    ensures cache.Valid() && ws.Idle()
    ensures r.Success? ==> BestReading(m, begin, end, candidates, r.value)
    ensures r.Failure? ==> if WellFormed(candidates, Some(codes)) then r.error == IndexOverflow && NO_INDEX <= |ws.hypotheses|
                           else r.error != IndexOverflow
  {
    hide TransitionScorer.Rows, HashDecoder.CanonicalsNameWords, HashDecoder.Best, Decoder.Valid,
      Decoder.Scorable, Fits, Flattens, Coherent, BoundariesFit, BestReading, CompactActiveHypotheses.Idle, Flat,
      DisambiguationScoreCache.Valid, SameShape;
    var made := NewDecoder(m, begin, end, candidates, Some(codes));
    if made.Failure? {
      return Failure(made.error);
    }
    var d := made.value;
    LatticeReady(cache.lex, names, d, candidates, codes);
    var scorer := new TransitionScorer(d, cache);
    r := Decode(d, scorer, ws, forceHash);
    if r.Success? {
      BestIsBestReading(d, candidates, r.value);
    }
  }

  /** Selects the causal reading, whatever the cache retained from other sentences. */
  method DisambiguateIndicesScoredCausal(m: Model, begin: Analysis, end: Analysis, candidates: Candidates,
                                         codes: seq<seq<ScoringCode>>, cache: DisambiguationScoreCache,
                                         ghost names: nat -> WordData)
    returns (r: Result<seq<nat>, DecodeError>)
    requires cache.Valid() && cache.model == m && BoundariesFit(cache.lex, begin, end)
    requires Coherent(cache.lex, names, candidates, codes)
    modifies cache.Footprint()
    ensures cache.Valid() && (r.Success? <==> WellFormed(candidates, Some(codes)))
    ensures r.Success? ==> CausalReading(m, begin, candidates, r.value)
  {
    hide TransitionScorer.Rows, HashDecoder.CanonicalsNameWords, Decoder.Valid, Decoder.Scorable, Fits, Flattens,
      Coherent, BoundariesFit, CausalReading, CausalPath, Flat, DisambiguationScoreCache.Valid, SameShape, ChoicesOf;
    var made := NewDecoder(m, begin, end, candidates, Some(codes));
    if made.Failure? {
      return Failure(made.error);
    }
    var d := made.value;
    LatticeReady(cache.lex, names, d, candidates, codes);
    var scorer := new TransitionScorer(d, cache);
    var selected := DecodeCausal(d, scorer);
    CausalPathIsReading(d, candidates, selected);
    return Success(selected);
  }
}
