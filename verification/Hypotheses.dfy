/** Viterbi hypotheses, the paths they stand for, and the recovery of a path by backpointers. */
module Hypotheses {
  import opened Wrappers
  import opened Lattice
  import opened Scoring

  /** Hypothesis indices are 32-bit; the largest one marks "none". */
  const NO_INDEX: nat := 0xFFFF_FFFF

  datatype Hypothesis = Hypothesis(previous: nat, current: nat, back: nat, row: nat, score: int)

  datatype DecodeError =
    | EmptySentence
    | EmptyCandidateList
    | CodeCardinality
    | MissingCodes
    | IndexOverflow
    | NoHypothesis
    | BackpointerMismatch

  function Root(row: nat): Hypothesis {
    Hypothesis(0, 0, NO_INDEX, row, 0)
  }

  /** A hypothesis ends in the state of the path it stands for. */
  ghost predicate EndsLike(d: Decoder, h: Hypothesis, g: seq<nat>)
    requires d.Valid()
  {
    d.Path(g) && h.previous == Previous(g) && h.current == Current(g)
  }

  /** The backpointer of a hypothesis leads to the path without its last analysis. */
  ghost predicate Linked(h: Hypothesis, g: seq<nat>, paths: seq<seq<nat>>) {
    if g == [] then h.back == NO_INDEX
    else h.back < |paths| && h.back != NO_INDEX && paths[h.back] == g[..|g| - 1]
  }

  /** Every hypothesis stands for a path, recoverable by backpointers. */
  ghost predicate Traces(d: Decoder, hypotheses: seq<Hypothesis>, paths: seq<seq<nat>>)
    requires d.Valid()
  {
    && |hypotheses| == |paths| <= NO_INDEX
    && forall i :: 0 <= i < |hypotheses| ==>
         EndsLike(d, hypotheses[i], paths[i]) && Linked(hypotheses[i], paths[i], paths)
  }

  /** Every hypothesis carries the score of its path. */
  ghost predicate Scored(d: Decoder, hypotheses: seq<Hypothesis>, paths: seq<seq<nat>>)
    requires d.Valid()
  {
    |hypotheses| == |paths| &&
    forall i :: 0 <= i < |hypotheses| ==> d.Path(paths[i]) && hypotheses[i].score == d.PathScore(paths[i])
  }

  /** Every hypothesis carries a row of its own state. */
  ghost predicate RowsFit(rowPair: seq<nat>, d: Decoder, hypotheses: seq<Hypothesis>)
    requires d.Valid()
  {
    forall i :: 0 <= i < |hypotheses| ==>
      && hypotheses[i].previous < |d.analyses| + 2 && hypotheses[i].current < |d.analyses| + 2
      && RowFits(rowPair, d, hypotheses[i].row, hypotheses[i].previous, hypotheses[i].current)
  }

  ghost predicate NoLongerThan(paths: seq<seq<nat>>, t: nat) {
    forall i :: 0 <= i < |paths| ==> |paths[i]| <= t
  }

  /** A candidate extends the path of its parent by one analysis. */
  ghost predicate Extends(d: Decoder, c: Hypothesis, parent: nat, a: nat, paths: seq<seq<nat>>)
    requires d.Valid()
  {
    && parent < |paths| && parent < NO_INDEX
    && d.Path(paths[parent]) && d.Path(paths[parent] + [a])
    && c.previous == Current(paths[parent]) && c.current == a && c.back == parent
    && c.score == d.PathScore(paths[parent] + [a])
  }

  lemma PushKeepsTraces(d: Decoder, hypotheses: seq<Hypothesis>, paths: seq<seq<nat>>, c: Hypothesis, parent: nat, a: nat)
    requires d.Valid() && Traces(d, hypotheses, paths) && Scored(d, hypotheses, paths)
    requires Extends(d, c, parent, a, paths) && |hypotheses| < NO_INDEX
    ensures Traces(d, hypotheses + [c], paths + [paths[parent] + [a]])
    ensures Scored(d, hypotheses + [c], paths + [paths[parent] + [a]])
  {
    hide Decoder.Path, Decoder.PathScore;
    var g := paths[parent] + [a];
    assert g[..|g| - 1] == paths[parent];
    forall i | 0 <= i < |hypotheses|
      ensures EndsLike(d, hypotheses[i], paths[i]) && Linked(hypotheses[i], paths[i], paths + [g])
    {
      assert Linked(hypotheses[i], paths[i], paths);
    }
  }

  /** The newest hypotheses may be replaced in place: nothing points to them yet. */
  lemma ReplaceKeepsTraces(d: Decoder, hypotheses: seq<Hypothesis>, paths: seq<seq<nat>>, e: nat,
                           c: Hypothesis, parent: nat, a: nat)
    requires d.Valid() && Traces(d, hypotheses, paths) && Scored(d, hypotheses, paths)
    requires Extends(d, c, parent, a, paths) && e < |hypotheses|
    requires |paths[e]| == |paths[parent]| + 1 && NoLongerThan(paths, |paths[e]|)
    ensures Traces(d, hypotheses[e := c], paths[e := paths[parent] + [a]])
    ensures Scored(d, hypotheses[e := c], paths[e := paths[parent] + [a]])
  {
    hide Decoder.Path, Decoder.PathScore;
    var g := paths[parent] + [a];
    assert g[..|g| - 1] == paths[parent];
    var after := paths[e := g];
    forall i | 0 <= i < |hypotheses| && i != e
      ensures EndsLike(d, hypotheses[i], paths[i]) && Linked(hypotheses[i], paths[i], after)
    {
      assert Linked(hypotheses[i], paths[i], paths);
      assert paths[i] != [] ==> hypotheses[i].back != e;
    }
  }

  // ----- candidate choices -----

  /** One candidate position per token. */
  ghost predicate ChoicesOf(d: Decoder, p: seq<nat>)
    requires d.Valid()
  {
    |p| == d.TokenCount() && forall t :: 0 <= t < |p| ==> p[t] < d.starts[t + 1] - d.starts[t]
  }

  /** The path that makes these choices. */
  ghost function PathOf(d: Decoder, p: seq<nat>): (g: seq<nat>)
    requires d.Valid() && ChoicesOf(d, p)
    ensures |g| == |p| && forall t :: 0 <= t < |p| ==> g[t] == d.starts[t] + p[t]
    ensures d.Path(g)
  {
    seq(|p|, t requires 0 <= t < |p| => d.starts[t] + p[t])
  }

  ghost function ChoiceScore(d: Decoder, p: seq<nat>): int
    requires d.Valid() && ChoicesOf(d, p)
  {
    d.FullScore(PathOf(d, p))
  }

  lemma ChoicesOfPath(d: Decoder, g: seq<nat>)
    requires d.Valid() && d.Path(g) && |g| == d.TokenCount()
    ensures ChoicesOf(d, Choices(d, g)) && PathOf(d, Choices(d, g)) == g
  {
    hide PathOf, Choices, Decoder.Valid;
    var p := Choices(d, g);
    forall t | 0 <= t < |p|
      ensures p[t] < d.starts[t + 1] - d.starts[t]
    {
      assert d.AtToken(t, g[t]);
    }
  }

  lemma PathOfChoices(d: Decoder, p: seq<nat>)
    requires d.Valid() && ChoicesOf(d, p)
    ensures Choices(d, PathOf(d, p)) == p
  {
    var g := PathOf(d, p);
    hide Decoder.Path, Decoder.Valid, ChoicesOf, PathOf;
    var c := Choices(d, g);
    assert forall t :: 0 <= t < |p| ==> c[t] + d.starts[t] == g[t] && c[t] == p[t];
  }

  /** Every lattice has a path. */
  lemma SomePath(d: Decoder) returns (g: seq<nat>)
    requires d.Valid()
    ensures d.Path(g) && |g| == d.TokenCount()
  {
    g := seq(d.TokenCount(), t requires 0 <= t < d.TokenCount() => d.starts[t]);
  }

  /** The position of each analysis of a path within the candidate list of its token. */
  ghost function Choices(d: Decoder, g: seq<nat>): (choices: seq<nat>)
    requires d.Valid() && d.Path(g)
    ensures |choices| == |g|
    ensures forall t :: 0 <= t < |g| ==> choices[t] + d.starts[t] == g[t]
  {
    seq(|g|, t requires 0 <= t < |g| => assert d.AtToken(t, g[t]); g[t] - d.starts[t])
  }

  /** The cursor stands at the hypothesis of the first `k` analyses of `g`. */
  ghost predicate StandsAt(d: Decoder, hypotheses: seq<Hypothesis>, paths: seq<seq<nat>>, cursor: nat, g: seq<nat>, k: nat)
    requires d.Valid()
  {
    && Traces(d, hypotheses, paths) && d.Path(g)
    && cursor < |hypotheses| && k <= |g| && paths[cursor] == g[..k]
  }

  lemma BackStep(d: Decoder, hypotheses: seq<Hypothesis>, paths: seq<seq<nat>>, cursor: nat, g: seq<nat>, k: nat)
    requires d.Valid() && StandsAt(d, hypotheses, paths, cursor, g, k)
    ensures cursor < |hypotheses| && k <= |g| <= d.TokenCount()
    ensures hypotheses[cursor].back == NO_INDEX <==> k == 0
    ensures 0 < k ==>
      && hypotheses[cursor].current == g[k - 1] && d.starts[k - 1] <= g[k - 1] < d.starts[k]
      && hypotheses[cursor].back < |hypotheses| && StandsAt(d, hypotheses, paths, hypotheses[cursor].back, g, k - 1)
  {
    assert EndsLike(d, hypotheses[cursor], paths[cursor]) && Linked(hypotheses[cursor], paths[cursor], paths);
    if 0 < k {
      assert g[..k][..k - 1] == g[..k - 1];
      assert d.AtToken(k - 1, g[k - 1]);
    }
  }

  /** The choices read backwards. */
  ghost predicate ReadBack(choices: seq<nat>, reversed: seq<nat>) {
    |reversed| <= |choices| && forall i :: 0 <= i < |reversed| ==> reversed[i] == choices[|choices| - 1 - i]
  }

  lemma ReadBackNext(choices: seq<nat>, reversed: seq<nat>, choice: nat)
    requires ReadBack(choices, reversed) && |reversed| < |choices| && choice == choices[|choices| - |reversed| - 1]
    ensures ReadBack(choices, reversed + [choice])
  {
  }

  /** Follows the backpointers of a whole hypothesis and returns its candidate choices. */
  method ReconstructSelected(d: Decoder, hypotheses: seq<Hypothesis>, best: nat, ghost paths: seq<seq<nat>>)
    returns (r: Result<seq<nat>, DecodeError>)
    requires d.Valid() && Traces(d, hypotheses, paths) && best < |hypotheses| && |paths[best]| == d.TokenCount()
    ensures d.Path(paths[best]) && r == Success(Choices(d, paths[best]))
  {
    ghost var g := paths[best];
    assert EndsLike(d, hypotheses[best], paths[best]);
    ghost var choices := Choices(d, g);
    assert g[..|g|] == g;
    assert |hypotheses| == |paths|;
    assert StandsAt(d, hypotheses, paths, best, g, |g|);
    ReadBackStart(choices);
    hide Traces, Choices, Decoder.Valid, Decoder.Path, EndsLike, ReadBack, StandsAt;
    var reversed: seq<nat> := [];
    var cursor := best;
    ghost var k: nat := |g|;
    var count := d.TokenCount();
    while hypotheses[cursor].back != NO_INDEX
      invariant 0 <= k && k + |reversed| == |g|
      invariant 0 <= cursor < |hypotheses| && StandsAt(d, hypotheses, paths, cursor, g, k)
      invariant ReadBack(choices, reversed)
      decreases k
    {
      BackStep(d, hypotheses, paths, cursor, g, k);
      var global := hypotheses[cursor].current;
      if count < |reversed| + 1 {
        return Failure(BackpointerMismatch);
      }
      var token := count - (|reversed| + 1);
      if global < d.starts[token] || global >= d.starts[token + 1] {
        return Failure(BackpointerMismatch);
      }
      ReadBackNext(choices, reversed, global - d.starts[token]);
      reversed := reversed + [global - d.starts[token]];
      cursor := hypotheses[cursor].back;
      k := k - 1;
    }
    BackStep(d, hypotheses, paths, cursor, g, k);
    ReadBackAll(choices, reversed);
    var selected := Reversed(reversed);
    if |selected| != count {
      return Failure(BackpointerMismatch);
    }
    return Success(selected);
  }

  function Reversed(s: seq<nat>): (r: seq<nat>)
    ensures |r| == |s|
  {
    seq(|s|, i requires 0 <= i < |s| => s[|s| - 1 - i])
  }

  lemma ReadBackStart(choices: seq<nat>)
    ensures ReadBack(choices, [])
  {
  }

  lemma ReadBackAll(choices: seq<nat>, reversed: seq<nat>)
    requires ReadBack(choices, reversed) && |reversed| == |choices|
    ensures Reversed(reversed) == choices
  {
  }

  // ----- facts shared by the decoders -----

  /** A path of length `t + 1` ends in a state of layer `t`. */
  lemma PathEndsInLayer(d: Decoder, t: nat, g: seq<nat>)
    requires d.Valid() && t < d.TokenCount() && d.Path(g) && |g| == t + 1
    ensures d.InLayer(t, Previous(g), Current(g))
  {
    assert d.AtToken(t, g[t]);
    assert t > 0 ==> d.AtToken(t - 1, g[t - 1]);
  }

  lemma ExtendsState(d: Decoder, c: Hypothesis, parent: nat, a: nat, paths: seq<seq<nat>>)
    requires d.Valid() && Extends(d, c, parent, a, paths)
    ensures var q := paths[parent] + [a]; d.Path(q) && c.previous == Previous(q) && c.current == Current(q)
  {
    hide Decoder.PathScore, Decoder.Path;
  }

  lemma TracesLengths(d: Decoder, hypotheses: seq<Hypothesis>, paths: seq<seq<nat>>)
    requires d.Valid() && Traces(d, hypotheses, paths)
    ensures |hypotheses| == |paths|
  {
  }

  ghost predicate KeepsEarlier(t: nat, before: seq<seq<nat>>, after: seq<seq<nat>>) {
    |before| <= |after| && forall i :: 0 <= i < |before| && |before[i]| <= t ==> after[i] == before[i]
  }

  /** Every hypothesis is an old one or the new candidate. */
  ghost predicate AddsOnly(c: Hypothesis, before: seq<Hypothesis>, after: seq<Hypothesis>) {
    forall i :: 0 <= i < |after| ==> after[i] == c || (i < |before| && after[i] == before[i])
  }

  /** What extending hypothesis `p` by analysis `a` of token `t` gives. */
  lemma OfferFacts(d: Decoder, t: nat, hypotheses: seq<Hypothesis>, paths: seq<seq<nat>>, p: nat, a: nat, row: nat)
    requires d.Valid() && t < d.TokenCount() && Traces(d, hypotheses, paths) && Scored(d, hypotheses, paths)
    requires p < |hypotheses| && |paths[p]| == t && d.AtToken(t, a)
    ensures var h := hypotheses[p];
      && h.previous < |d.analyses| + 2 && h.current < |d.analyses| + 2 && a < |d.analyses| + 2
      && d.InLayer(t, h.current, a)
      && Extends(d, Hypothesis(h.current, a, p, row, h.score + d.Score(h.previous, h.current, a)), p, a, paths)
  {
    hide Decoder.PathScore, Decoder.Score, Decoder.Path;
    assert EndsLike(d, hypotheses[p], paths[p]);
    d.PathSnoc(paths[p], a);
    PathEndsInLayer(d, t, paths[p] + [a]);
    assert |hypotheses| <= NO_INDEX;
  }

  lemma RowsFitAdded(rowPair: seq<nat>, more: seq<nat>, d: Decoder, before: seq<Hypothesis>, after: seq<Hypothesis>, c: Hypothesis)
    requires d.Valid() && RowsFit(rowPair, d, before) && rowPair <= more && AddsOnly(c, before, after)
    requires c.previous < |d.analyses| + 2 && c.current < |d.analyses| + 2
    requires RowFits(more, d, c.row, c.previous, c.current)
    ensures RowsFit(more, d, after)
  {
    forall i | 0 <= i < |after| && after[i] != c
      ensures after[i].previous < |d.analyses| + 2 && after[i].current < |d.analyses| + 2
      ensures RowFits(more, d, after[i].row, after[i].previous, after[i].current)
    {
      RowFitsGrows(rowPair, more, d, before[i].row, before[i].previous, before[i].current);
    }
    hide RowFits;
  }

  lemma RowsFitRescored(rowPair: seq<nat>, more: seq<nat>, d: Decoder, hypotheses: seq<Hypothesis>, i: nat, score: int)
    requires d.Valid() && RowsFit(rowPair, d, hypotheses) && rowPair <= more && i < |hypotheses|
    ensures RowsFit(more, d, hypotheses[i := hypotheses[i].(score := score)])
  {
    forall j | 0 <= j < |hypotheses|
      ensures RowFits(more, d, hypotheses[j].row, hypotheses[j].previous, hypotheses[j].current)
    {
      RowFitsGrows(rowPair, more, d, hypotheses[j].row, hypotheses[j].previous, hypotheses[j].current);
    }
    hide RowFits;
  }

  lemma RowOf(rowPair: seq<nat>, d: Decoder, hypotheses: seq<Hypothesis>, i: nat)
    requires d.Valid() && RowsFit(rowPair, d, hypotheses) && i < |hypotheses|
    ensures hypotheses[i].previous < |d.analyses| + 2 && hypotheses[i].current < |d.analyses| + 2
    ensures RowFits(rowPair, d, hypotheses[i].row, hypotheses[i].previous, hypotheses[i].current)
  {
  }

  ghost predicate CarriesScore(d: Decoder, h: Hypothesis, g: seq<nat>, ended: bool)
    requires d.Valid()
  {
    d.Path(g) && h.score == if ended then d.FullScore(g) else d.PathScore(g)
  }

  /** The end factor turns the path score of a terminal hypothesis into its full score. */
  lemma EndFactor(d: Decoder, h: Hypothesis, g: seq<nat>)
    requires d.Valid() && EndsLike(d, h, g) && |g| == d.TokenCount() && CarriesScore(d, h, g, false)
    ensures d.InLayer(d.TokenCount(), h.current, 1)
    ensures h.previous < |d.analyses| + 2 && h.current < |d.analyses| + 2
    ensures CarriesScore(d, h.(score := h.score + d.Score(h.previous, h.current, 1)), g, true)
  {
    hide Decoder.Score, Decoder.FullScore, Decoder.PathScore, Decoder.Path, Decoder.InLayer, Decoder.Valid, Current, Previous;
    d.PathEnd(g);
    EndInLayer(d, g);
  }

  lemma EndInLayer(d: Decoder, g: seq<nat>)
    requires d.Valid() && d.Path(g) && |g| == d.TokenCount()
    ensures d.InLayer(d.TokenCount(), Current(g), 1)
  {
    assert d.AtToken(|g| - 1, g[|g| - 1]);
  }

  lemma RescoreKeepsTraces(d: Decoder, hypotheses: seq<Hypothesis>, paths: seq<seq<nat>>, i: nat, score: int)
    requires d.Valid() && Traces(d, hypotheses, paths) && i < |hypotheses|
    ensures Traces(d, hypotheses[i := hypotheses[i].(score := score)], paths)
  {
    hide Decoder.Path;
    forall j | 0 <= j < |hypotheses|
      ensures EndsLike(d, hypotheses[j], paths[j]) && Linked(hypotheses[j], paths[j], paths)
    {
    }
  }

  lemma TraceEnds(d: Decoder, hypotheses: seq<Hypothesis>, paths: seq<seq<nat>>, i: nat)
    requires d.Valid() && Traces(d, hypotheses, paths) && i < |hypotheses|
    ensures i < |paths| && EndsLike(d, hypotheses[i], paths[i])
  {
  }

  /** The number of states of the widest layer before `n`, at least one. */
  function StateBound(d: Decoder, n: nat): (bound: nat)
    requires d.Valid() && n <= d.TokenCount()
  {
    if n == 0 then 1
    else
      var count := d.PreviousCount(n - 1) * d.CurrentCount(n - 1);
      var rest := StateBound(d, n - 1);
      if rest < count then count else rest
  }

  lemma {:induction false} StateBoundCovers(d: Decoder, t: nat, n: nat)
    requires d.Valid() && t < n <= d.TokenCount()
    ensures d.PreviousCount(t) * d.CurrentCount(t) <= StateBound(d, n)
  {
    hide Decoder.PreviousCount, Decoder.CurrentCount, Decoder.Valid;
    if t < n - 1 {
      StateBoundCovers(d, t, n - 1);
    }
  }

  lemma {:induction false} LayerStates(d: Decoder, t: nat)
    requires d.Valid() && t < d.TokenCount()
    ensures d.PreviousCount(t) * d.CurrentCount(t) <= StateBound(d, d.TokenCount())
  {
    StateBoundCovers(d, t, d.TokenCount());
  }
}
