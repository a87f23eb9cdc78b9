/** The greedy left-to-right decoder and its score rows. */
module CausalDecoder {
  import opened Wrappers
  import opened Trigram
  import opened Lattice
  import opened Scoring
  import opened Hypotheses
  import opened Disambiguator
  import opened ContextScores
  import ScoreCache

  // ----- what a causal reading is -----

  /** The score of candidate `c` of token `t` after the selected tokens before it. */
  ghost function CausalScore(m: Model, begin: Analysis, candidates: Candidates, p: seq<nat>, t: nat, c: nat): int
    requires IsChoice(candidates, p) && t < |candidates| && c < |candidates[t]|
  {
    TrigramScore(m, WordAt(begin.word, ChosenWords(candidates, p), t - 2),
                 WordAt(begin.word, ChosenWords(candidates, p), t - 1), candidates[t][c].word)
  }

  /** The choice at `t` is the only candidate, or the first one of the greatest causal score. */
  ghost predicate FirstBest(m: Model, begin: Analysis, candidates: Candidates, p: seq<nat>, t: nat)
    requires IsChoice(candidates, p) && t < |candidates|
  {
    |candidates[t]| == 1 ||
    forall c :: 0 <= c < |candidates[t]| ==>
      && CausalScore(m, begin, candidates, p, t, c) <= CausalScore(m, begin, candidates, p, t, p[t])
      && (c < p[t] ==> CausalScore(m, begin, candidates, p, t, c) < CausalScore(m, begin, candidates, p, t, p[t]))
  }

  ghost predicate CausalReading(m: Model, begin: Analysis, candidates: Candidates, p: seq<nat>) {
    IsChoice(candidates, p) && forall t :: 0 <= t < |candidates| ==> FirstBest(m, begin, candidates, p, t)
  }

  /** The choices for the first tokens do not depend on later tokens. */
  lemma {:induction false} CausalPrefix(m: Model, begin: Analysis, left: Candidates, right: Candidates,
                                        p: seq<nat>, q: seq<nat>, k: nat)
    requires CausalReading(m, begin, left, p) && CausalReading(m, begin, right, q)
    requires k <= |left| && k <= |right| && left[..k] == right[..k]
    ensures p[..k] == q[..k]
  {
    hide TrigramScore, ChosenWords;
    if k > 0 {
      assert left[..k - 1] == left[..k][..k - 1] && right[..k - 1] == right[..k][..k - 1];
      CausalPrefix(m, begin, left, right, p, q, k - 1);
      assert left[k - 1] == left[..k][k - 1] == right[k - 1];
      SameCausalScores(m, begin, left, right, p, q, k - 1);
      assert FirstBest(m, begin, left, p, k - 1) && FirstBest(m, begin, right, q, k - 1);
      if |left[k - 1]| != 1 {
        assert CausalScore(m, begin, left, p, k - 1, q[k - 1]) <= CausalScore(m, begin, left, p, k - 1, p[k - 1]);
        assert CausalScore(m, begin, right, q, k - 1, p[k - 1]) <= CausalScore(m, begin, right, q, k - 1, q[k - 1]);
      }
      assert p[..k] == p[..k - 1] + [p[k - 1]] && q[..k] == q[..k - 1] + [q[k - 1]];
    }
  }

  lemma SameCausalScores(m: Model, begin: Analysis, left: Candidates, right: Candidates, p: seq<nat>, q: seq<nat>, t: nat)
    requires IsChoice(left, p) && IsChoice(right, q) && t < |left| && t < |right|
    requires left[..t] == right[..t] && left[t] == right[t] && p[..t] == q[..t]
    ensures forall c :: 0 <= c < |left[t]| ==>
      CausalScore(m, begin, left, p, t, c) == CausalScore(m, begin, right, q, t, c)
  {
    hide TrigramScore;
    assert forall u :: 0 <= u < t ==> left[u] == left[..t][u] == right[u] && p[u] == p[..t][u] == q[u];
    assert forall u :: 0 <= u < t ==> ChosenWords(left, p)[u] == ChosenWords(right, q)[u];
  }

  // ----- the decoder -----

  /** The best analysis for the next token of a path, before `end`. */
  ghost predicate BestSoFar(d: Decoder, g: seq<nat>, best: nat, end: nat)
    requires d.Valid() && d.Path(g) && |g| < d.TokenCount()
  {
    var t := |g|;
    && d.starts[t] <= best < end <= d.starts[t + 1] && end <= |d.analyses| + 2
    && Previous(g) < |d.analyses| + 2 && Current(g) < |d.analyses| + 2
    && forall a :: d.starts[t] <= a < end ==>
         && d.Score(Previous(g), Current(g), a) <= d.Score(Previous(g), Current(g), best)
         && (a < best ==> d.Score(Previous(g), Current(g), a) < d.Score(Previous(g), Current(g), best))
  }

  /** The only analysis of the next token, or the first best one. */
  ghost predicate NextBest(d: Decoder, g: seq<nat>, a: nat)
    requires d.Valid() && d.Path(g) && |g| < d.TokenCount()
  {
    if d.starts[|g| + 1] - d.starts[|g|] == 1 then a == d.starts[|g|] else BestSoFar(d, g, a, d.starts[|g| + 1])
  }

  lemma NextInRange(d: Decoder, g: seq<nat>, a: nat)
    requires d.Valid() && d.Path(g) && |g| < d.TokenCount() && d.AtToken(|g|, a)
    ensures Previous(g) < |d.analyses| + 2 && Current(g) < |d.analyses| + 2 && a < |d.analyses| + 2
    ensures d.InLayer(|g|, Current(g), a) && d.starts[|g| + 1] <= |d.analyses| + 2
    ensures d.Path(g + [a])
  {
    hide Decoder.PathScore, Decoder.Score;
    d.PathSnoc(g, a);
    PathEndsInLayer(d, |g|, g + [a]);
    d.AtTokenInRange(|g|, d.starts[|g| + 1] - 1);
  }

  lemma NoRow(rowPair: seq<nat>, d: Decoder, previous: nat, current: nat)
    requires d.Valid() && previous < |d.analyses| + 2 && current < |d.analyses| + 2
    ensures RowFits(rowPair, d, ScoreCache.INVALID_ROW, previous, current)
  {
  }

  lemma FirstSoFar(d: Decoder, g: seq<nat>, a: nat)
    requires d.Valid() && d.Path(g) && |g| < d.TokenCount() && a == d.starts[|g|]
    ensures BestSoFar(d, g, a, a + 1)
  {
    hide Decoder.Score;
    NextInRange(d, g, a);
  }

  lemma NextSoFar(d: Decoder, g: seq<nat>, best: nat, a: nat)
    requires d.Valid() && d.Path(g) && |g| < d.TokenCount() && a < d.starts[|g| + 1]
    requires BestSoFar(d, g, best, a) && best < |d.analyses| + 2 && a < |d.analyses| + 2
    requires Previous(g) < |d.analyses| + 2 && Current(g) < |d.analyses| + 2
    ensures var known, score := d.Score(Previous(g), Current(g), best), d.Score(Previous(g), Current(g), a);
      if known < score then BestSoFar(d, g, a, a + 1) else BestSoFar(d, g, best, a + 1)
  {
    hide Decoder.Score;
    NextInRange(d, g, a);
  }

  /** Scores the analyses of the next token from the path to its left. */
  method ChooseNext(d: Decoder, g: seq<nat>, scorer: TransitionScorer) returns (best: nat)
    requires scorer.Valid() && scorer.d == d && d.Valid() && d.Path(g) && |g| < d.TokenCount()
    requires d.starts[|g|] < d.starts[|g| + 1]
    modifies scorer.repr
    ensures scorer.Valid() && BestSoFar(d, g, best, d.starts[|g| + 1])
  {
    hide TransitionScorer.Valid, TransitionScorer.Rows, RowFits, Decoder.Score, Decoder.InLayer, Decoder.Path, Decoder.Valid,
      BestSoFar;
    var start, end := d.starts[|g|], d.starts[|g| + 1];
    best := start;
    var bestScore: Option<int> := None;
    for analysis := start to end
      invariant scorer.Valid() && (bestScore == None <==> analysis == start) && (analysis == start ==> best == start)
      invariant bestScore.Some? ==>
        && BestSoFar(d, g, best, analysis)
        && best < |d.analyses| + 2 && Previous(g) < |d.analyses| + 2 && Current(g) < |d.analyses| + 2
        && bestScore.value == d.Score(Previous(g), Current(g), best)
    {
      NextInRange(d, g, analysis);
      NoRow(scorer.Rows(), d, Previous(g), Current(g));
      var score, _ := scorer.Transition(|g|, Previous(g), Current(g), analysis, ScoreCache.INVALID_ROW, false);
      if bestScore.Some? {
        NextSoFar(d, g, best, analysis);
      } else {
        FirstSoFar(d, g, analysis);
      }
      if bestScore == None || bestScore.value < score {
        best, bestScore := analysis, Some(score);
      }
    }
  }

  /** Every analysis of the path was chosen from the path before it. */
  ghost predicate CausalPath(d: Decoder, g: seq<nat>)
    requires d.Valid()
  {
    d.Path(g) && forall t :: 0 <= t < |g| ==> ChosenAt(d, g, t)
  }

  ghost predicate ChosenAt(d: Decoder, g: seq<nat>, t: nat)
    requires d.Valid() && t < |g|
  {
    d.Path(g[..t]) && t < d.TokenCount() && NextBest(d, g[..t], g[t])
  }

  lemma CausalNext(d: Decoder, g: seq<nat>, best: nat)
    requires d.Valid() && CausalPath(d, g) && |g| < d.TokenCount()
    requires if d.starts[|g| + 1] - d.starts[|g|] == 1 then best == d.starts[|g|] else BestSoFar(d, g, best, d.starts[|g| + 1])
    ensures CausalPath(d, g + [best]) && d.starts[|g|] <= best
  {
    hide Decoder.Score, BestSoFar;
    BestAtToken(d, g, best);
    var h := g + [best];
    forall t | 0 <= t < |h|
      ensures ChosenAt(d, h, t)
    {
      if t < |g| {
        assert ChosenAt(d, g, t) && h[..t] == g[..t];
      } else {
        assert h[..t] == g;
      }
    }
  }

  lemma BestAtToken(d: Decoder, g: seq<nat>, best: nat)
    requires d.Valid() && d.Path(g) && |g| < d.TokenCount()
    requires if d.starts[|g| + 1] - d.starts[|g|] == 1 then best == d.starts[|g|] else BestSoFar(d, g, best, d.starts[|g| + 1])
    ensures d.AtToken(|g|, best)
  {
    hide Decoder.Score;
  }

  /** Selects one analysis per token from left to right; a single candidate is taken unscored. */
  method DecodeCausal(d: Decoder, scorer: TransitionScorer) returns (selected: seq<nat>)
    requires scorer.Valid() && scorer.d == d && d.Valid()
    modifies scorer.repr
    ensures scorer.Valid() && ChoicesOf(d, selected) && CausalPath(d, PathOf(d, selected))
  {
    hide TransitionScorer.Valid, CausalPath, BestSoFar, Decoder.Valid, ChoicesOf, Decoder.Path;
    selected := [];
    var selectedGlobal: seq<nat> := [];
    NoChoices(d);
    for t := 0 to d.TokenCount()
      invariant scorer.Valid() && |selectedGlobal| == t && Records(d, selected, selectedGlobal)
    {
      RecordsPath(d, selected, selectedGlobal);
      var start, end := d.starts[t], d.starts[t + 1];
      var best := start;
      if end - start != 1 {
        best := ChooseNext(d, selectedGlobal, scorer);
      }
      RecordNext(d, selected, selectedGlobal, best);
      selected := selected + [best - start];
      selectedGlobal := selectedGlobal + [best];
    }
    RecordsAll(d, selected, selectedGlobal);
  }

  /** The local and the global form of the choices made so far. */
  ghost predicate Records(d: Decoder, selected: seq<nat>, g: seq<nat>)
    requires d.Valid()
  {
    CausalPath(d, g) && |selected| == |g| && forall t :: 0 <= t < |g| ==> g[t] == d.starts[t] + selected[t]
  }

  lemma NoChoices(d: Decoder)
    requires d.Valid()
    ensures Records(d, [], [])
  {
  }

  lemma RecordsPath(d: Decoder, selected: seq<nat>, g: seq<nat>)
    requires d.Valid() && Records(d, selected, g) && |g| < d.TokenCount()
    ensures d.Path(g) && d.starts[|g|] < d.starts[|g| + 1]
  {
  }

  lemma RecordNext(d: Decoder, selected: seq<nat>, g: seq<nat>, best: nat)
    requires d.Valid() && Records(d, selected, g) && |g| < d.TokenCount() && d.Path(g)
    requires if d.starts[|g| + 1] - d.starts[|g|] == 1 then best == d.starts[|g|] else BestSoFar(d, g, best, d.starts[|g| + 1])
    ensures d.starts[|g|] <= best && Records(d, selected + [best - d.starts[|g|]], g + [best])
  {
    hide BestSoFar, CausalPath, Decoder.Valid, Decoder.Path;
    CausalNext(d, g, best);
  }

  lemma RecordsAll(d: Decoder, selected: seq<nat>, g: seq<nat>)
    requires d.Valid() && Records(d, selected, g) && |g| == d.TokenCount()
    ensures ChoicesOf(d, selected) && PathOf(d, selected) == g && CausalPath(d, PathOf(d, selected))
  {
    hide ChosenAt, CausalPath;
    CausalPathIsPath(d, g);
    forall t | 0 <= t < |g|
      ensures selected[t] < d.starts[t + 1] - d.starts[t]
    {
      assert d.AtToken(t, g[t]);
    }
    SamePath(d, selected, g);
  }

  lemma SamePath(d: Decoder, selected: seq<nat>, g: seq<nat>)
    requires d.Valid() && ChoicesOf(d, selected) && |selected| == |g| && forall t :: 0 <= t < |g| ==> g[t] == d.starts[t] + selected[t]
    ensures PathOf(d, selected) == g
  {
    hide PathOf, Decoder.Path, ChoicesOf;
  }

  lemma CausalPathIsPath(d: Decoder, g: seq<nat>)
    requires d.Valid() && CausalPath(d, g)
    ensures d.Path(g)
  {
  }

  // ----- causal paths are causal readings -----

  lemma StateWords(d: Decoder, candidates: Candidates, p: seq<nat>, g: seq<nat>, t: nat)
    requires d.Valid() && Flattens(d, candidates) && IsChoice(candidates, p) && t < |candidates|
    requires |g| == |p| && forall u :: 0 <= u < |p| ==> g[u] == d.starts[u] + p[u]
    ensures Previous(g[..t]) < |d.analyses| + 2 && Current(g[..t]) < |d.analyses| + 2
    ensures d.Word(Previous(g[..t])).word == WordAt(d.begin.word, ChosenWords(candidates, p), t - 2)
    ensures d.Word(Current(g[..t])).word == WordAt(d.begin.word, ChosenWords(candidates, p), t - 1)
  {
    hide Flattens, Decoder.Valid;
    if t >= 1 {
      ChosenWord(d, candidates, t - 1, p[t - 1]);
    }
    if t >= 2 {
      ChosenWord(d, candidates, t - 2, p[t - 2]);
    }
  }

  /** Lattice scores of the next token are causal scores. */
  lemma NextScores(d: Decoder, candidates: Candidates, p: seq<nat>, g: seq<nat>, t: nat, c: nat)
    requires d.Valid() && Flattens(d, candidates) && IsChoice(candidates, p) && t < |candidates| && c < |candidates[t]|
    requires |g| == |p| && forall u :: 0 <= u < |p| ==> g[u] == d.starts[u] + p[u]
    ensures t < |d.starts| && Previous(g[..t]) < |d.analyses| + 2 && Current(g[..t]) < |d.analyses| + 2
    ensures d.starts[t] + c < |d.analyses| + 2
    ensures d.Score(Previous(g[..t]), Current(g[..t]), d.starts[t] + c)
         == CausalScore(d.model, d.begin, candidates, p, t, c)
  {
    hide Flattens, Decoder.Valid, TrigramScore, Decoder.Word;
    StateWords(d, candidates, p, g, t);
    ChosenWord(d, candidates, t, c);
  }

  lemma ChosenIsFirstBest(d: Decoder, candidates: Candidates, p: seq<nat>, g: seq<nat>, t: nat)
    requires d.Valid() && Flattens(d, candidates) && IsChoice(candidates, p) && t < |candidates|
    requires |g| == |p| && forall u :: 0 <= u < |p| ==> g[u] == d.starts[u] + p[u]
    requires ChosenAt(d, g, t)
    ensures FirstBest(d.model, d.begin, candidates, p, t)
  {
    hide Flattens, Decoder.Valid, CausalScore, Decoder.Score, Decoder.Path;
    TokenLengths(d, candidates);
    if |candidates[t]| != 1 {
      assert d.starts[t + 1] - d.starts[t] == |candidates[t]|;
      assert |g[..t]| == t;
      assert BestSoFar(d, g[..t], g[t], d.starts[t + 1]);
      NextScores(d, candidates, p, g, t, p[t]);
      forall c | 0 <= c < |candidates[t]|
        ensures CausalScore(d.model, d.begin, candidates, p, t, c) <= CausalScore(d.model, d.begin, candidates, p, t, p[t])
        ensures c < p[t] ==>
          CausalScore(d.model, d.begin, candidates, p, t, c) < CausalScore(d.model, d.begin, candidates, p, t, p[t])
      {
        NextScores(d, candidates, p, g, t, c);
      }
    }
  }

  lemma CausalPathIsReading(d: Decoder, candidates: Candidates, p: seq<nat>)
    requires d.Valid() && Flattens(d, candidates) && ChoicesOf(d, p) && CausalPath(d, PathOf(d, p))
    ensures CausalReading(d.model, d.begin, candidates, p)
  {
    hide Flattens, Decoder.Valid, FirstBest, ChosenAt, Decoder.Path;
    ChoicesAreReadings(d, candidates, p);
    TokenLengths(d, candidates);
    var g := PathOf(d, p);
    forall t | 0 <= t < |candidates|
      ensures FirstBest(d.model, d.begin, candidates, p, t)
    {
      ChosenIsFirstBest(d, candidates, p, g, t);
    }
  }

  // ----- score rows -----

  /** One row: zero for a single candidate, the causal scores otherwise. */
  ghost predicate CausalRow(m: Model, begin: Analysis, candidates: Candidates, p: seq<nat>, t: nat, row: seq<int>)
    requires IsChoice(candidates, p) && t < |candidates|
  {
    && |row| == |candidates[t]|
    && if |candidates[t]| == 1 then row == [0]
       else forall c :: 0 <= c < |row| ==> row[c] == CausalScore(m, begin, candidates, p, t, c)
  }

  /** The choice of the causal decoder is the first maximal entry of its own row. */
  lemma CausalChoiceIsFirstMaximum(m: Model, begin: Analysis, candidates: Candidates, p: seq<nat>, t: nat, row: seq<int>, c: nat)
    requires CausalReading(m, begin, candidates, p) && t < |candidates|
    requires CausalRow(m, begin, candidates, p, t, row) && c < |row|
    ensures p[t] < |row| && row[c] <= row[p[t]] && (c < p[t] ==> row[c] < row[p[t]])
  {
    hide CausalScore;
    assert FirstBest(m, begin, candidates, p, t);
  }

  /** Scores every candidate from the selected tokens to its left. */
  method CausalCandidateScores(d: Decoder, ghost candidates: Candidates, selected: seq<nat>, scorer: TransitionScorer)
    returns (r: Result<seq<seq<int>>, ScoringError>)
    requires scorer.Valid() && scorer.d == d && d.Valid() && Flattens(d, candidates)
    modifies scorer.repr
    ensures scorer.Valid() && (r.Success? <==> IsChoice(candidates, selected))
    ensures r.Success? ==>
      && |r.value| == |candidates|
      && forall t :: 0 <= t < |candidates| ==> CausalRow(d.model, d.begin, candidates, selected, t, r.value[t])
  {
    hide TransitionScorer.Valid, Decoder.Valid, Flattens, CausalRow, CausalScore, Decoder.Path;
    TokenLengths(d, candidates);
    if |selected| != d.TokenCount() {
      return Failure(Cardinality);
    }
    var selectedGlobal: seq<nat> := [];
    for t := 0 to |selected|
      invariant |selectedGlobal| == t
      invariant forall u :: 0 <= u < t ==> selected[u] < |candidates[u]| && selectedGlobal[u] == d.starts[u] + selected[u]
    {
      assert d.starts[t + 1] - d.starts[t] == |candidates[t]|;
      if selected[t] >= d.starts[t + 1] - d.starts[t] {
        return Failure(OutOfRange);
      }
      selectedGlobal := selectedGlobal + [d.starts[t] + selected[t]];
    }
    GlobalsArePath(d, candidates, selected, selectedGlobal);
    var rows: seq<seq<int>> := [];
    for t := 0 to d.TokenCount()
      invariant scorer.Valid() && |rows| == t
      invariant forall u :: 0 <= u < t ==> CausalRow(d.model, d.begin, candidates, selected, u, rows[u])
    {
      var row := CausalRowOf(d, candidates, selected, selectedGlobal, t, scorer);
      rows := rows + [row];
    }
    return Success(rows);
  }

  lemma GlobalsArePath(d: Decoder, candidates: Candidates, p: seq<nat>, g: seq<nat>)
    requires d.Valid() && Flattens(d, candidates) && IsChoice(candidates, p)
    requires |g| == |p| && forall u :: 0 <= u < |p| ==> g[u] == d.starts[u] + p[u]
    ensures d.Path(g)
  {
    hide Flattens, Decoder.Valid;
    ChoicesAreReadings(d, candidates, p);
    assert g == PathOf(d, p);
  }

  method CausalRowOf(d: Decoder, ghost candidates: Candidates, ghost selected: seq<nat>, g: seq<nat>, t: nat,
                     scorer: TransitionScorer) returns (row: seq<int>)
    requires scorer.Valid() && scorer.d == d && d.Valid() && Flattens(d, candidates) && IsChoice(candidates, selected)
    requires d.Path(g) && |g| == |selected| && forall u :: 0 <= u < |g| ==> g[u] == d.starts[u] + selected[u]
    requires t < |candidates| && t < d.TokenCount()
    modifies scorer.repr
    ensures scorer.Valid() && CausalRow(d.model, d.begin, candidates, selected, t, row)
  {
    hide TransitionScorer.Valid, TransitionScorer.Rows, RowFits, Decoder.Valid, Flattens, CausalScore, Decoder.Score,
      Decoder.Path, Decoder.InLayer;
    TokenLengths(d, candidates);
    assert d.starts[t + 1] - d.starts[t] == |candidates[t]|;
    var start, end := d.starts[t], d.starts[t + 1];
    if end - start == 1 {
      return [0];
    }
    var left := g[..t];
    PrefixIsPath(d, g, t);
    row := [];
    for analysis := start to end
      invariant scorer.Valid() && |row| == analysis - start
      invariant forall c :: 0 <= c < |row| ==> row[c] == CausalScore(d.model, d.begin, candidates, selected, t, c)
    {
      NextInRange(d, left, analysis);
      NoRow(scorer.Rows(), d, Previous(left), Current(left));
      NextScores(d, candidates, selected, g, t, analysis - start);
      var score, _ := scorer.Transition(t, Previous(left), Current(left), analysis, ScoreCache.INVALID_ROW, false);
      row := row + [score];
    }
  }

  lemma PrefixIsPath(d: Decoder, g: seq<nat>, t: nat)
    requires d.Valid() && d.Path(g) && t <= |g|
    ensures d.Path(g[..t])
  {
  }
}
