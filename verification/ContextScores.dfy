/** Scoring the candidates of one token in the context of a chosen reading. */
module ContextScores {
  import opened Wrappers
  import opened FeatureTable
  import opened Trigram
  import opened Lattice
  import opened Disambiguator

  datatype ScoringError = Empty | Cardinality | OutOfRange

  // ----- what changing one word changes -----

  /** The word at position `t` of a reading; before the first word stands the sentence start. */
  function WordAt(begin: WordData, ws: seq<WordData>, t: int): WordData
    requires t < |ws|
  {
    if t < 0 then begin else ws[t]
  }

  /** The factors before `k` that see position `i`, with `w` standing there. */
  ghost function FactorsUpTo(m: Model, begin: WordData, ws: seq<WordData>, i: nat, w: WordData, k: nat): int
    requires i < |ws| && k <= |ws|
  {
    (if i < k then TrigramScore(m, WordAt(begin, ws, i - 2), WordAt(begin, ws, i - 1), w) else 0)
    + (if i + 1 < k then TrigramScore(m, WordAt(begin, ws, i - 1), w, ws[i + 1]) else 0)
    + (if i + 2 < k then TrigramScore(m, w, ws[i + 1], ws[i + 2]) else 0)
  }

  /** All factors that see position `i`, the sentence end included. */
  ghost function ConditionalScore(m: Model, begin: WordData, end: WordData, ws: seq<WordData>, i: nat, w: WordData): int
    requires i < |ws|
  {
    FactorsUpTo(m, begin, ws, i, w, |ws|)
    + (if i + 1 == |ws| then TrigramScore(m, WordAt(begin, ws, i - 1), w, end)
       else if i + 2 == |ws| then TrigramScore(m, w, ws[i + 1], end)
       else 0)
  }

  lemma {:induction false} PrefixDifference(m: Model, begin: WordData, ws: seq<WordData>, i: nat, a: WordData, b: WordData, k: nat)
    requires i < |ws| && k <= |ws|
    ensures PrefixScore(m, begin, ws[i := a][..k]) - PrefixScore(m, begin, ws[i := b][..k])
         == FactorsUpTo(m, begin, ws, i, a, k) - FactorsUpTo(m, begin, ws, i, b, k)
  {
    hide TrigramScore;
    if k > 0 {
      PrefixDifference(m, begin, ws, i, a, b, k - 1);
      PrefixStep(m, begin, ws[i := a], k);
      PrefixStep(m, begin, ws[i := b], k);
    }
  }

  lemma {:induction false} PrefixStep(m: Model, begin: WordData, ws: seq<WordData>, k: nat)
    requires 0 < k <= |ws|
    ensures PrefixScore(m, begin, ws[..k])
         == PrefixScore(m, begin, ws[..k - 1])
            + TrigramScore(m, WordAt(begin, ws, k - 3), WordAt(begin, ws, k - 2), ws[k - 1])
  {
    hide TrigramScore, PrefixScore;
    assert ws[..k] == ws[..k - 1] + [ws[k - 1]];
    PrefixScoreSnoc(m, begin, ws[..k - 1], ws[k - 1]);
  }

  /** Replacing one word changes the whole score by the difference of its conditional scores. */
  lemma ConditionalIsExact(m: Model, begin: WordData, end: WordData, ws: seq<WordData>, i: nat, a: WordData, b: WordData)
    requires i < |ws|
    ensures SentenceScore(m, begin, end, ws[i := a]) - SentenceScore(m, begin, end, ws[i := b])
         == ConditionalScore(m, begin, end, ws, i, a) - ConditionalScore(m, begin, end, ws, i, b)
  {
    hide TrigramScore, PrefixScore, FactorsUpTo;
    PrefixDifference(m, begin, ws, i, a, b, |ws|);
    assert ws[i := a][..|ws|] == ws[i := a] && ws[i := b][..|ws|] == ws[i := b];
  }

  // ----- rows of conditional scores -----

  /** Row `i` scores every candidate of token `i` with all other tokens as selected. */
  ghost predicate ConditionalRow(m: Model, begin: Analysis, end: Analysis, candidates: Candidates, selected: seq<nat>,
                                 i: nat, row: seq<int>)
    requires IsChoice(candidates, selected) && i < |candidates|
  {
    && |row| == |candidates[i]|
    && forall c :: 0 <= c < |row| ==>
         row[c] == ConditionalScore(m, begin.word, end.word, ChosenWords(candidates, selected), i, candidates[i][c].word)
  }

  /** In a row, score differences are exactly the differences of the whole readings. */
  lemma RowIsExact(m: Model, begin: Analysis, end: Analysis, candidates: Candidates, selected: seq<nat>,
                   i: nat, row: seq<int>, c: nat, e: nat)
    requires IsChoice(candidates, selected) && i < |candidates|
    requires ConditionalRow(m, begin, end, candidates, selected, i, row) && c < |row| && e < |row|
    ensures IsChoice(candidates, selected[i := c]) && IsChoice(candidates, selected[i := e])
    ensures ReadingScore(m, begin, end, candidates, selected[i := c]) - ReadingScore(m, begin, end, candidates, selected[i := e])
         == row[c] - row[e]
  {
    hide SentenceScore, ConditionalScore;
    var ws := ChosenWords(candidates, selected);
    ConditionalIsExact(m, begin.word, end.word, ws, i, candidates[i][c].word, candidates[i][e].word);
    assert ChosenWords(candidates, selected[i := c]) == ws[i := candidates[i][c].word];
    assert ChosenWords(candidates, selected[i := e]) == ws[i := candidates[i][e].word];
  }

  /** Along a best reading every selected candidate is maximal in its row. */
  lemma BestIsRowwiseMaximal(m: Model, begin: Analysis, end: Analysis, candidates: Candidates, selected: seq<nat>,
                             i: nat, row: seq<int>, c: nat)
    requires BestReading(m, begin, end, candidates, selected) && i < |candidates|
    requires ConditionalRow(m, begin, end, candidates, selected, i, row) && c < |row|
    ensures selected[i] < |row| && row[c] <= row[selected[i]]
  {
    hide ReadingScore, ConditionalRow;
    RowShape(m, begin, end, candidates, selected, i, row);
    RowIsExact(m, begin, end, candidates, selected, i, row, c, selected[i]);
    assert selected[i := selected[i]] == selected;
  }

  lemma RowShape(m: Model, begin: Analysis, end: Analysis, candidates: Candidates, selected: seq<nat>, i: nat, row: seq<int>)
    requires IsChoice(candidates, selected) && i < |candidates|
    requires ConditionalRow(m, begin, end, candidates, selected, i, row)
    ensures |row| == |candidates[i]| && selected[i] < |row|
  {
  }

  ghost predicate GroupsInRange(candidates: Candidates) {
    forall t, c :: 0 <= t < |candidates| && 0 <= c < |candidates[t]| ==> |candidates[t][c].word.igs| <= GROUP_LIMIT
  }

  /** Scores one candidate at one position. */
  method ScoreCandidate(m: Model, begin: Analysis, end: Analysis, candidates: Candidates, selected: seq<nat>,
                        index: nat, candidate: WordData, scratch: FeatureScratch) returns (score: int)
    requires IsChoice(candidates, selected) && index < |candidates| && scratch.Valid()
    requires GroupsInRange(candidates) && |end.word.igs| <= GROUP_LIMIT && |candidate.igs| <= GROUP_LIMIT
    modifies scratch
    ensures scratch.Valid()
    ensures score == ConditionalScore(m, begin.word, end.word, ChosenWords(candidates, selected), index, candidate)
  {
    hide TrigramScore, FeatureScratch.Valid;
    var n := |candidates|;
    ghost var ws := ChosenWords(candidates, selected);
    var older := if index >= 2 then candidates[index - 2][selected[index - 2]].word else begin.word;
    var previous := if index >= 1 then candidates[index - 1][selected[index - 1]].word else begin.word;
    assert older == WordAt(begin.word, ws, index - 2) && previous == WordAt(begin.word, ws, index - 1);
    score := ScoreParts(m, older, previous, candidate, scratch);
    if index + 1 < n {
      var next := candidates[index + 1][selected[index + 1]].word;
      var s := ScoreParts(m, previous, candidate, next, scratch);
      score := score + s;
    }
    if index + 2 < n {
      var next := candidates[index + 1][selected[index + 1]].word;
      var s := ScoreParts(m, candidate, next, candidates[index + 2][selected[index + 2]].word, scratch);
      score := score + s;
    }
    if index + 1 == n {
      var s := ScoreParts(m, previous, candidate, end.word, scratch);
      score := score + s;
    } else if index + 2 == n {
      var s := ScoreParts(m, candidate, candidates[index + 1][selected[index + 1]].word, end.word, scratch);
      score := score + s;
    }
  }

  /** Scores every candidate conditionally on the selected reading. */
  method ConditionalCandidateScores(m: Model, begin: Analysis, end: Analysis, candidates: Candidates, selected: seq<nat>)
    returns (r: Result<seq<seq<int>>, ScoringError>)
    requires GroupsInRange(candidates) && |end.word.igs| <= GROUP_LIMIT
    ensures r.Success? <==> candidates != [] && IsChoice(candidates, selected)
    ensures r.Success? ==> |r.value| == |candidates| && forall i :: 0 <= i < |candidates| ==>
      ConditionalRow(m, begin, end, candidates, selected, i, r.value[i])
  {
    hide TrigramScore, ConditionalScore;
    if candidates == [] {
      return Failure(Empty);
    }
    if |candidates| != |selected| {
      return Failure(Cardinality);
    }
    for t := 0 to |candidates|
      invariant forall u :: 0 <= u < t ==> selected[u] < |candidates[u]|
    {
      if candidates[t] == [] || selected[t] >= |candidates[t]| {
        return Failure(OutOfRange);
      }
    }
    var scratch := new FeatureScratch(m.rehash);
    var rows: seq<seq<int>> := [];
    for i := 0 to |candidates|
      invariant scratch.Valid() && |rows| == i
      invariant forall u :: 0 <= u < i ==> ConditionalRow(m, begin, end, candidates, selected, u, rows[u])
    {
      var row := ConditionalRowOf(m, begin, end, candidates, selected, i, scratch);
      rows := rows + [row];
    }
    return Success(rows);
  }

  method ConditionalRowOf(m: Model, begin: Analysis, end: Analysis, candidates: Candidates, selected: seq<nat>, i: nat,
                          scratch: FeatureScratch) returns (row: seq<int>)
    requires IsChoice(candidates, selected) && i < |candidates| && scratch.Valid()
    requires GroupsInRange(candidates) && |end.word.igs| <= GROUP_LIMIT
    modifies scratch
    ensures scratch.Valid() && ConditionalRow(m, begin, end, candidates, selected, i, row)
  {
    hide ConditionalScore, FeatureScratch.Valid;
    row := [];
    for c := 0 to |candidates[i]|
      invariant scratch.Valid() && |row| == c
      invariant forall e :: 0 <= e < c ==>
        row[e] == ConditionalScore(m, begin.word, end.word, ChosenWords(candidates, selected), i, candidates[i][e].word)
    {
      var score := ScoreCandidate(m, begin, end, candidates, selected, i, candidates[i][c].word, scratch);
      row := row + [score];
    }
  }
}
