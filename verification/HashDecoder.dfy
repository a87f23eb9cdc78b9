/** The Viterbi decoder over the open-addressed active list. */
module HashDecoder {
  import opened Wrappers
  import opened Lattice
  import opened Trigram
  import opened Scoring
  import opened Hypotheses
  import opened ActiveTable
  import opened Workspace

  /** Equal canonical identities belong to equal words. */
  ghost predicate CanonicalsNameWords(d: Decoder)
    requires d.Valid()
  {
    forall i: nat, j: nat :: i < |d.analyses| && j < |d.analyses| && SameCanonical(d, i, j) ==>
      d.analyses[i].word == d.analyses[j].word
  }

  ghost predicate SameCanonical(d: Decoder, i: nat, j: nat)
    requires d.Valid() && i < |d.analyses| && j < |d.analyses|
  {
    if d.codes.Some? then d.codes.value[i].canonical == d.codes.value[j].canonical
    else d.analyses[i].canonical == d.analyses[j].canonical
  }

  // ----- states the table merges -----

  /** Both numbers are a sentence boundary, or both are analyses with the same canonical identity. */
  ghost predicate Alike(d: Decoder, i: nat, j: nat)
    requires d.Valid()
  {
    (i == j == 0) || (2 <= i < |d.analyses| + 2 && 2 <= j < |d.analyses| + 2 && SameCanonical(d, i - 2, j - 2))
  }

  lemma AlikeWords(d: Decoder, i: nat, j: nat)
    requires d.Valid() && CanonicalsNameWords(d) && Alike(d, i, j)
    ensures i < |d.analyses| + 2 && j < |d.analyses| + 2 && d.Word(i).word == d.Word(j).word
  {
  }

  ghost predicate SameState(d: Decoder, p: seq<nat>, g: seq<nat>)
    requires d.Valid()
  {
    Alike(d, Previous(p), Previous(g)) && Alike(d, Current(p), Current(g))
  }

  /** Keys are equal exactly for states with alike analyses. */
  lemma KeysOfStates(d: Decoder, p: seq<nat>, g: seq<nat>)
    requires d.Valid() && d.Path(p) && d.Path(g) && |p| == |g|
    ensures Previous(p) < |d.analyses| + 2 && Current(p) < |d.analyses| + 2
    ensures Previous(g) < |d.analyses| + 2 && Current(g) < |d.analyses| + 2
    ensures KeyOf(d, Previous(p), Current(p)) == KeyOf(d, Previous(g), Current(g)) <==> SameState(d, p, g)
  {
    hide Decoder.Valid, Decoder.Path;
    StateRange(d, p);
    StateRange(d, g);
    if d.codes.Some? {
      PackedEqual(d.Code(Previous(p)).value.canonical, d.Code(Current(p)).value.canonical,
                  d.Code(Previous(g)).value.canonical, d.Code(Current(g)).value.canonical);
    }
  }

  lemma StateRange(d: Decoder, p: seq<nat>)
    requires d.Valid() && d.Path(p)
    ensures Previous(p) < |d.analyses| + 2 && Current(p) < |d.analyses| + 2
    ensures if |p| == 0 then Current(p) == 0 else 2 <= Current(p)
    ensures if |p| < 2 then Previous(p) == 0 else 2 <= Previous(p)
    ensures d.codes.Some? ==> |d.codes.value| == |d.analyses|
  {
    hide Decoder.Path;
    if |p| > 0 {
      d.PathInRange(p, |p| - 1);
    }
    if |p| > 1 {
      d.PathInRange(p, |p| - 2);
    }
  }

  lemma PackedEqual(a: u32, b: u32, c: u32, e: u32)
    ensures a * 0x1_0000_0000 + b == c * 0x1_0000_0000 + e <==> a == c && b == e
  {
  }

  /** `p` ends in a merged state of `g` and scores at least as much. */
  ghost predicate Dominates(d: Decoder, p: seq<nat>, g: seq<nat>)
    requires d.Valid()
  {
    && d.Path(p) && d.Path(g) && |p| == |g|
    && SameState(d, p, g) && d.PathScore(g) <= d.PathScore(p)
  }

  ghost predicate Dominated(d: Decoder, paths: seq<seq<nat>>, active: set<nat>, g: seq<nat>)
    requires d.Valid()
  {
    exists i :: i in active && i < |paths| && Dominates(d, paths[i], g)
  }

  ghost predicate LayerComplete(d: Decoder, t: nat, paths: seq<seq<nat>>, active: set<nat>)
    requires d.Valid()
  {
    forall g :: d.Path(g) && |g| == t ==> Dominated(d, paths, active, g)
  }

  ghost predicate ActiveOf(t: nat, paths: seq<seq<nat>>, active: set<nat>) {
    forall i :: i in active ==> i < |paths| && |paths[i]| == t
  }

  lemma SameStateTransitive(d: Decoder, p: seq<nat>, q: seq<nat>, g: seq<nat>)
    requires d.Valid() && SameState(d, p, q) && SameState(d, q, g)
    ensures SameState(d, p, g)
  {
  }

  lemma SameStateExtends(d: Decoder, p: seq<nat>, g: seq<nat>, a: nat)
    requires d.Valid() && SameState(d, p, g) && 2 <= a < |d.analyses| + 2
    ensures SameState(d, p + [a], g + [a])
  {
  }

  /** Merged states have the same future. */
  lemma DominatesExtends(d: Decoder, p: seq<nat>, g: seq<nat>, a: nat, w: seq<nat>)
    requires d.Valid() && CanonicalsNameWords(d)
    requires Dominates(d, p, g) && |g| < d.TokenCount() && d.AtToken(|g|, a)
    requires Dominates(d, w, p + [a])
    ensures Dominates(d, w, g + [a])
  {
    hide CanonicalsNameWords, Decoder.PathScore, Decoder.Path, Decoder.Valid, SameState, Decoder.AtToken, TrigramScore;
    d.PathSnoc(p, a);
    d.PathSnoc(g, a);
    d.AtTokenInRange(|g|, a);
    SameStateWords(d, p, g);
    SameStateExtends(d, p, g, a);
    SameStateTransitive(d, w, p + [a], g + [a]);
  }

  lemma SameStateWords(d: Decoder, p: seq<nat>, g: seq<nat>)
    requires d.Valid() && CanonicalsNameWords(d) && SameState(d, p, g)
    ensures Previous(p) < |d.analyses| + 2 && Previous(g) < |d.analyses| + 2
    ensures Current(p) < |d.analyses| + 2 && Current(g) < |d.analyses| + 2
    ensures d.Word(Previous(p)).word == d.Word(Previous(g)).word && d.Word(Current(p)).word == d.Word(Current(g)).word
  {
    AlikeWords(d, Previous(p), Previous(g));
    AlikeWords(d, Current(p), Current(g));
  }

  lemma EndsNoBetter(d: Decoder, g: seq<nat>, h: seq<nat>)
    requires d.Valid() && CanonicalsNameWords(d) && Dominates(d, g, h)
    ensures d.FullScore(h) <= d.FullScore(g)
  {
    hide CanonicalsNameWords, Decoder.PathScore, Decoder.FullScore, Decoder.Path, Decoder.Valid, SameState, TrigramScore;
    d.PathEnd(h);
    d.PathEnd(g);
    SameStateWords(d, g, h);
  }

  // ----- one layer -----

  /** All active parents were extended by the analyses before `a`, and the first `offset` ones by `a` itself. */
  ghost predicate Offered(d: Decoder, before: seq<seq<nat>>, order: seq<nat>, paths: seq<seq<nat>>, active: set<nat>,
                          first: nat, a: nat, offset: nat)
    requires d.Valid()
  {
    forall o, b :: 0 <= o < |order| && order[o] < |before| && first <= b && (b < a || (b == a && o < offset)) ==>
      Dominated(d, paths, active, before[order[o]] + [b])
  }

  lemma LayerStep(d: Decoder, t: nat, before: seq<seq<nat>>, current: set<nat>, order: seq<nat>,
                  paths: seq<seq<nat>>, active: set<nat>)
    requires d.Valid() && CanonicalsNameWords(d) && t < d.TokenCount()
    requires LayerComplete(d, t, before, current) && forall i :: i in current ==> i in order
    requires Offered(d, before, order, paths, active, d.starts[t], d.starts[t + 1], 0)
    ensures LayerComplete(d, t + 1, paths, active)
  {
    hide Dominates, Decoder.PathScore, CanonicalsNameWords;
    forall g | d.Path(g) && |g| == t + 1
      ensures Dominated(d, paths, active, g)
    {
      d.PathInit(g);
      var init, a := g[..t], g[t];
      assert Dominated(d, before, current, init);
      var i :| i in current && i < |before| && Dominates(d, before[i], init);
      var o :| 0 <= o < |order| && order[o] == i;
      assert Dominated(d, paths, active, before[order[o]] + [a]);
      var w :| w in active && w < |paths| && Dominates(d, paths[w], before[i] + [a]);
      DominatesExtends(d, before[i], init, a, paths[w]);
    }
  }

  /** The state of building layer `t + 1`. */
  ghost predicate Building(d: Decoder, t: nat, hypotheses: seq<Hypothesis>, paths: seq<seq<nat>>, active: set<nat>)
    requires d.Valid()
  {
    && Traces(d, hypotheses, paths) && Scored(d, hypotheses, paths) && NoLongerThan(paths, t + 1)
    && ActiveOf(t + 1, paths, active)
  }

  ghost predicate TookIn(d: Decoder, t: nat, paths: seq<seq<nat>>, active: set<nat>,
                         paths': seq<seq<nat>>, active': set<nat>, q: seq<nat>)
    requires d.Valid()
  {
    && Dominated(d, paths', active', q)
    && (forall g :: Dominated(d, paths, active, g) ==> Dominated(d, paths', active', g))
    && KeepsEarlier(t, paths, paths')
  }

  lemma SelfDominated(d: Decoder, paths: seq<seq<nat>>, active: set<nat>, i: nat)
    requires d.Valid() && i in active && i < |paths| && d.Path(paths[i])
    ensures Dominated(d, paths, active, paths[i])
  {
    StateRange(d, paths[i]);
    hide Decoder.Path, Decoder.PathScore;
    assert Dominates(d, paths[i], paths[i]);
  }

  function With(active: set<nat>, i: nat): set<nat> {
    active + {i}
  }

  lemma PushActive(t: nat, paths: seq<seq<nat>>, active: set<nat>, q: seq<nat>)
    requires ActiveOf(t, paths, active) && NoLongerThan(paths, t) && |q| == t
    ensures ActiveOf(t, paths + [q], With(active, |paths|)) && NoLongerThan(paths + [q], t)
  {
  }

  /** A candidate with a new key joins the active list. */
  lemma PlaceNew(d: Decoder, t: nat, hypotheses: seq<Hypothesis>, paths: seq<seq<nat>>, active: set<nat>,
                 c: Hypothesis, parent: nat, a: nat)
    requires d.Valid() && Building(d, t, hypotheses, paths, active)
    requires parent < |paths| && Extends(d, c, parent, a, paths) && |paths[parent]| == t && |hypotheses| < NO_INDEX
    ensures |hypotheses| == |paths|
    ensures var q := paths[parent] + [a];
      && Building(d, t, hypotheses + [c], paths + [q], With(active, |hypotheses|))
      && TookIn(d, t, paths, active, paths + [q], With(active, |hypotheses|), q)
  {
    hide Traces, Scored, Decoder.PathScore, Decoder.Path, Decoder.Valid, TookIn, ActiveOf, NoLongerThan, Extends;
    var q := paths[parent] + [a];
    ExtendsState(d, c, parent, a, paths);
    PushKeepsTraces(d, hypotheses, paths, c, parent, a);
    TracesLengths(d, hypotheses, paths);
    PushActive(t + 1, paths, active, q);
    NewTookIn(d, t, paths, active, q);
  }

  lemma NewTookIn(d: Decoder, t: nat, paths: seq<seq<nat>>, active: set<nat>, q: seq<nat>)
    requires d.Valid() && d.Path(q)
    ensures TookIn(d, t, paths, active, paths + [q], With(active, |paths|), q)
  {
    hide Decoder.Path, Decoder.Valid, Dominated;
    PushKeepsDominated(d, paths, active, q);
    assert (paths + [q])[|paths|] == q;
    SelfDominated(d, paths + [q], With(active, |paths|), |paths|);
  }

  lemma PushKeepsDominated(d: Decoder, paths: seq<seq<nat>>, active: set<nat>, q: seq<nat>)
    requires d.Valid()
    ensures forall g :: Dominated(d, paths, active, g) ==> Dominated(d, paths + [q], With(active, |paths|), g)
  {
    hide Dominates;
    forall g | Dominated(d, paths, active, g)
      ensures Dominated(d, paths + [q], With(active, |paths|), g)
    {
      var i :| i in active && i < |paths| && Dominates(d, paths[i], g);
      assert (paths + [q])[i] == paths[i];
    }
  }

  /** What the hypothesis found under the key of a candidate stands for. */
  lemma FoundUnderKey(d: Decoder, t: nat, hypotheses: seq<Hypothesis>, paths: seq<seq<nat>>, active: set<nat>,
                      c: Hypothesis, parent: nat, a: nat, e: nat)
    requires d.Valid() && Building(d, t, hypotheses, paths, active)
    requires Extends(d, c, parent, a, paths) && |paths[parent]| == t
    requires e in active && e < |hypotheses| && InRange(d, hypotheses)
    requires c.previous < |d.analyses| + 2 && c.current < |d.analyses| + 2
    requires KeyOf(d, hypotheses[e].previous, hypotheses[e].current) == KeyOf(d, c.previous, c.current)
    ensures var q := paths[parent] + [a];
      && parent < |paths| && e < |paths| && d.Path(paths[e]) && |paths[e]| == t + 1 && d.Path(q) && |q| == t + 1
      && SameState(d, paths[e], q) && SameState(d, q, paths[e])
      && hypotheses[e].score == d.PathScore(paths[e]) && c.score == d.PathScore(q)
  {
    hide KeyOf, Decoder.PathScore, Decoder.Path, SameState;
    assert EndsLike(d, hypotheses[e], paths[e]);
    ExtendsState(d, c, parent, a, paths);
    KeysOfStates(d, paths[e], paths[parent] + [a]);
    KeysOfStates(d, paths[parent] + [a], paths[e]);
  }

  /** A stronger candidate takes the place of the hypothesis under its key. */
  lemma PlaceStronger(d: Decoder, t: nat, hypotheses: seq<Hypothesis>, paths: seq<seq<nat>>, active: set<nat>,
                      c: Hypothesis, parent: nat, a: nat, e: nat)
    requires d.Valid() && Building(d, t, hypotheses, paths, active)
    requires Extends(d, c, parent, a, paths) && |paths[parent]| == t
    requires e in active && e < |hypotheses| && InRange(d, hypotheses)
    requires c.previous < |d.analyses| + 2 && c.current < |d.analyses| + 2
    requires KeyOf(d, hypotheses[e].previous, hypotheses[e].current) == KeyOf(d, c.previous, c.current)
    requires hypotheses[e].score < c.score
    ensures var q := paths[parent] + [a];
      && e < |paths|
      && Building(d, t, hypotheses[e := c], paths[e := q], active)
      && TookIn(d, t, paths, active, paths[e := q], active, q)
  {
    hide KeyOf, Traces, Scored, Decoder.PathScore, Decoder.Path, Decoder.Valid, SameState, InRange;
    var q := paths[parent] + [a];
    FoundUnderKey(d, t, hypotheses, paths, active, c, parent, a, e);
    ReplaceKeepsTraces(d, hypotheses, paths, e, c, parent, a);
    SelfDominated(d, paths[e := q], active, e);
    forall g | Dominated(d, paths, active, g)
      ensures Dominated(d, paths[e := q], active, g)
    {
      ReplaceKeepsDominated(d, paths, active, e, q, g);
    }
  }

  lemma ReplaceKeepsDominated(d: Decoder, paths: seq<seq<nat>>, active: set<nat>, e: nat, q: seq<nat>, g: seq<nat>)
    requires d.Valid() && e < |paths| && Dominated(d, paths, active, g)
    requires d.Path(q) && d.Path(paths[e]) && |q| == |paths[e]| && d.PathScore(paths[e]) <= d.PathScore(q)
    requires SameState(d, q, paths[e])
    ensures Dominated(d, paths[e := q], active, g)
  {
    hide Decoder.Path, Decoder.PathScore, Decoder.Valid, SameState;
    var i :| i in active && i < |paths| && Dominates(d, paths[i], g);
    if i == e {
      SameStateTransitive(d, q, paths[e], g);
    }
    assert Dominates(d, paths[e := q][i], g);
  }

  /** A candidate no better than the hypothesis under its key is dropped. */
  lemma PlaceWeaker(d: Decoder, t: nat, hypotheses: seq<Hypothesis>, paths: seq<seq<nat>>, active: set<nat>,
                    c: Hypothesis, parent: nat, a: nat, e: nat)
    requires d.Valid() && Building(d, t, hypotheses, paths, active)
    requires Extends(d, c, parent, a, paths) && |paths[parent]| == t
    requires e in active && e < |hypotheses| && InRange(d, hypotheses)
    requires c.previous < |d.analyses| + 2 && c.current < |d.analyses| + 2
    requires KeyOf(d, hypotheses[e].previous, hypotheses[e].current) == KeyOf(d, c.previous, c.current)
    requires c.score <= hypotheses[e].score
    ensures TookIn(d, t, paths, active, paths, active, paths[parent] + [a])
  {
    hide KeyOf, Building, Decoder.PathScore, Decoder.Path, Decoder.Valid, SameState, InRange, Extends;
    FoundUnderKey(d, t, hypotheses, paths, active, c, parent, a, e);
    assert Dominates(d, paths[e], paths[parent] + [a]);
  }

  // ----- the loops -----

  /** The active list under construction and the hypotheses it names. */
  ghost predicate Growing(d: Decoder, t: nat, ws: CompactDecodeWorkspace)
    requires d.Valid()
    reads ws, ws.next
  {
    && ws.next.Ready(|ws.hypotheses|) && InRange(d, ws.hypotheses)
    && Building(d, t, ws.hypotheses, ws.paths, ws.next.Active())
  }

  lemma BuildingBound(d: Decoder, t: nat, hypotheses: seq<Hypothesis>, paths: seq<seq<nat>>, active: set<nat>)
    requires d.Valid() && Building(d, t, hypotheses, paths, active)
    ensures |hypotheses| == |paths| <= NO_INDEX
  {
  }

  /** Puts a candidate into the next active list. */
  method PlaceHash(d: Decoder, t: nat, c: Hypothesis, ghost parent: nat, ghost a: nat, ws: CompactDecodeWorkspace)
    returns (placed: bool)
    requires d.Valid() && Growing(d, t, ws)
    requires parent < |ws.paths| && Extends(d, c, parent, a, ws.paths) && |ws.paths[parent]| == t
    requires c.previous < |d.analyses| + 2 && c.current < |d.analyses| + 2
    modifies ws`hypotheses, ws`paths, ws.next
    ensures Growing(d, t, ws) && AddsOnly(c, old(ws.hypotheses), ws.hypotheses)
    ensures placed ==>
      TookIn(d, t, old(ws.paths), old(ws.next.Active()), ws.paths, ws.next.Active(), old(ws.paths)[parent] + [a])
    ensures !placed ==> |ws.hypotheses| == NO_INDEX
  {
    hide Building, TookIn, Extends, KeyOf, Decoder.Valid, CompactActiveHypotheses.Ready, CompactActiveHypotheses.Active,
      Decoder.Path;
    ghost var hypotheses, paths, active, q := ws.hypotheses, ws.paths, ws.next.Active(), ws.paths[parent] + [a];
    BuildingBound(d, t, hypotheses, paths, active);
    var after, offer := ws.next.AddCandidate(d, c, ws.hypotheses);
    placed := true;
    match offer {
      case Pushed =>
        PlaceNew(d, t, hypotheses, paths, active, c, parent, a);
        ws.paths := paths + [q];
      case Replaced(e) =>
        PlaceStronger(d, t, hypotheses, paths, active, c, parent, a, e);
        ws.paths := paths[e := q];
      case Kept(e) =>
        PlaceWeaker(d, t, hypotheses, paths, active, c, parent, a, e);
      case Overflowed =>
        placed := false;
    }
    ws.hypotheses := after;
  }

  lemma OfferFactsHere(d: Decoder, t: nat, hypotheses: seq<Hypothesis>, paths: seq<seq<nat>>, active: set<nat>,
                       p: nat, a: nat, row: nat)
    requires d.Valid() && t < d.TokenCount() && Building(d, t, hypotheses, paths, active)
    requires p < |hypotheses| && p < |paths| && |paths[p]| == t && d.AtToken(t, a)
    ensures var h := hypotheses[p];
      && h.previous < |d.analyses| + 2 && h.current < |d.analyses| + 2 && a < |d.analyses| + 2
      && d.InLayer(t, h.current, a)
      && Extends(d, Hypothesis(h.current, a, p, row, h.score + d.Score(h.previous, h.current, a)), p, a, paths)
  {
    OfferFacts(d, t, hypotheses, paths, p, a, row);
  }

  /** Extends hypothesis `p` of the current list by analysis `a` and offers the result to the next list. */
  method OfferHash(d: Decoder, t: nat, p: nat, a: nat, scorer: TransitionScorer, ws: CompactDecodeWorkspace)
    returns (placed: bool)
    requires scorer.Valid() && scorer.d == d && ws !in scorer.repr && ws.next !in scorer.repr
    requires d.Valid() && t < d.TokenCount() && d.AtToken(t, a)
    requires Growing(d, t, ws) && RowsFit(scorer.Rows(), d, ws.hypotheses)
    requires p < |ws.hypotheses| && p < |ws.paths| && |ws.paths[p]| == t
    modifies ws`hypotheses, ws`paths, ws.next, scorer.repr
    ensures scorer.Valid() && Growing(d, t, ws) && RowsFit(scorer.Rows(), d, ws.hypotheses)
    ensures placed ==>
      TookIn(d, t, old(ws.paths), old(ws.next.Active()), ws.paths, ws.next.Active(), old(ws.paths)[p] + [a])
    ensures !placed ==> |ws.hypotheses| == NO_INDEX
  {
    hide Building, TookIn, Extends, Decoder.Valid, Decoder.AtToken, Decoder.Score, Decoder.InLayer, Decoder.PathScore,
      TransitionScorer.Valid, TransitionScorer.Rows, RowFits, RowsFit, CompactActiveHypotheses.Ready,
      CompactActiveHypotheses.Active;
    ghost var before := ws.hypotheses;
    ghost var rowPair := scorer.Rows();
    var h := ws.hypotheses[p];
    OfferFactsHere(d, t, ws.hypotheses, ws.paths, ws.next.Active(), p, a, 0);
    RowOf(rowPair, d, ws.hypotheses, p);
    var score, nextRow := scorer.Transition(t, h.previous, h.current, a, h.row, true);
    var c := Hypothesis(h.current, a, p, nextRow, h.score + score);
    OfferFactsHere(d, t, ws.hypotheses, ws.paths, ws.next.Active(), p, a, nextRow);
    placed := PlaceHash(d, t, c, p, a, ws);
    RowsFitAdded(rowPair, scorer.Rows(), d, before, ws.hypotheses, c);
  }

  /** Parents `order` have been extended by the analyses before `a`, and the first `offset` by `a`. */
  ghost predicate Partial(d: Decoder, t: nat, before: seq<seq<nat>>, order: seq<nat>, paths: seq<seq<nat>>,
                          active: set<nat>, a: nat, offset: nat)
    requires d.Valid() && t < d.TokenCount()
  {
    && KeepsEarlier(t, before, paths)
    && (forall o :: 0 <= o < |order| ==> order[o] < |before| && |before[order[o]]| == t)
    && Offered(d, before, order, paths, active, d.starts[t], a, offset)
  }

  lemma PartialStep(d: Decoder, t: nat, before: seq<seq<nat>>, order: seq<nat>, paths: seq<seq<nat>>, active: set<nat>,
                    a: nat, offset: nat, paths': seq<seq<nat>>, active': set<nat>)
    requires d.Valid() && t < d.TokenCount() && offset < |order| && order[offset] < |before|
    requires Partial(d, t, before, order, paths, active, a, offset)
    requires TookIn(d, t, paths, active, paths', active', before[order[offset]] + [a])
    ensures Partial(d, t, before, order, paths', active', a, offset + 1)
  {
    hide Dominated;
  }

  lemma PartialNext(d: Decoder, t: nat, before: seq<seq<nat>>, order: seq<nat>, paths: seq<seq<nat>>, active: set<nat>, a: nat)
    requires d.Valid() && t < d.TokenCount() && Partial(d, t, before, order, paths, active, a, |order|)
    ensures Partial(d, t, before, order, paths, active, a + 1, 0)
  {
    hide Dominated;
  }

  lemma PartialParent(d: Decoder, t: nat, before: seq<seq<nat>>, order: seq<nat>, paths: seq<seq<nat>>, active: set<nat>,
                      a: nat, offset: nat)
    requires d.Valid() && t < d.TokenCount() && offset < |order|
    requires Partial(d, t, before, order, paths, active, a, offset)
    ensures order[offset] < |before| && order[offset] < |paths| && |paths[order[offset]]| == t
    ensures paths[order[offset]] == before[order[offset]]
  {
    hide Offered;
  }

  method HashInner(d: Decoder, t: nat, ghost before: seq<seq<nat>>, order: seq<nat>, a: nat, offset: nat,
                   scorer: TransitionScorer, ws: CompactDecodeWorkspace)
    returns (placed: bool)
    requires scorer.Valid() && scorer.d == d && ws !in scorer.repr && ws.next !in scorer.repr
    requires d.Valid() && t < d.TokenCount() && d.AtToken(t, a)
    requires Growing(d, t, ws) && RowsFit(scorer.Rows(), d, ws.hypotheses) && offset < |order|
    requires Partial(d, t, before, order, ws.paths, ws.next.Active(), a, offset)
    modifies ws`hypotheses, ws`paths, ws.next, scorer.repr
    ensures scorer.Valid() && Growing(d, t, ws) && RowsFit(scorer.Rows(), d, ws.hypotheses)
    ensures placed ==> Partial(d, t, before, order, ws.paths, ws.next.Active(), a, offset + 1)
    ensures !placed ==> |ws.hypotheses| == NO_INDEX
  {
    hide Building, TookIn, Decoder.Valid, Decoder.AtToken, TransitionScorer.Valid, TransitionScorer.Rows, RowsFit,
      CompactActiveHypotheses.Ready, CompactActiveHypotheses.Active, Partial;
    ghost var paths, active := ws.paths, ws.next.Active();
    PartialParent(d, t, before, order, paths, active, a, offset);
    BuildingBound(d, t, ws.hypotheses, ws.paths, active);
    placed := OfferHash(d, t, order[offset], a, scorer, ws);
    if placed {
      PartialStep(d, t, before, order, paths, active, a, offset, ws.paths, ws.next.Active());
    }
  }

  method HashAnalysis(d: Decoder, t: nat, ghost before: seq<seq<nat>>, order: seq<nat>, a: nat,
                      scorer: TransitionScorer, ws: CompactDecodeWorkspace)
    returns (placed: bool)
    requires scorer.Valid() && scorer.d == d && ws !in scorer.repr && ws.next !in scorer.repr
    requires d.Valid() && t < d.TokenCount() && d.AtToken(t, a)
    requires Growing(d, t, ws) && RowsFit(scorer.Rows(), d, ws.hypotheses)
    requires Partial(d, t, before, order, ws.paths, ws.next.Active(), a, 0)
    modifies ws`hypotheses, ws`paths, ws.next, scorer.repr
    ensures scorer.Valid() && Growing(d, t, ws) && RowsFit(scorer.Rows(), d, ws.hypotheses)
    ensures placed ==> Partial(d, t, before, order, ws.paths, ws.next.Active(), a + 1, 0)
    ensures !placed ==> |ws.hypotheses| == NO_INDEX
  {
    hide Growing, Decoder.Valid, Decoder.AtToken, TransitionScorer.Valid, TransitionScorer.Rows, RowsFit,
      CompactActiveHypotheses.Active, Partial;
    for offset := 0 to |order|
      invariant scorer.Valid() && Growing(d, t, ws) && RowsFit(scorer.Rows(), d, ws.hypotheses)
      invariant Partial(d, t, before, order, ws.paths, ws.next.Active(), a, offset)
    {
      placed := HashInner(d, t, before, order, a, offset, scorer, ws);
      if !placed {
        return;
      }
    }
    PartialNext(d, t, before, order, ws.paths, ws.next.Active(), a);
    placed := true;
  }

  /** The active list stands for complete best paths of length `t`. */
  ghost predicate Layer(d: Decoder, t: nat, hypotheses: seq<Hypothesis>, paths: seq<seq<nat>>, active: set<nat>)
    requires d.Valid()
  {
    && Traces(d, hypotheses, paths) && Scored(d, hypotheses, paths) && NoLongerThan(paths, t)
    && ActiveOf(t, paths, active) && LayerComplete(d, t, paths, active) && InRange(d, hypotheses)
  }

  /** Layer `t` is held by the current table; the next table may hold anything. */
  ghost predicate Holding(d: Decoder, t: nat, ws: CompactDecodeWorkspace)
    requires d.Valid()
    reads ws, ws.current, ws.next
  {
    && ws.current != ws.next && ws.current.Ready(|ws.hypotheses|) && ws.next.Idle() && 8 <= |ws.next.slots|
    && Layer(d, t, ws.hypotheses, ws.paths, ws.current.Active())
  }

  lemma LayerStart(d: Decoder, t: nat, hypotheses: seq<Hypothesis>, paths: seq<seq<nat>>, current: set<nat>, order: seq<nat>)
    requires d.Valid() && t < d.TokenCount() && Layer(d, t, hypotheses, paths, current)
    requires forall o :: 0 <= o < |order| ==> order[o] in current
    ensures Building(d, t, hypotheses, paths, {}) && InRange(d, hypotheses)
    ensures Partial(d, t, paths, order, paths, {}, d.starts[t], 0)
  {
    hide Traces, Scored, LayerComplete, Dominated;
  }

  lemma LayerEnd(d: Decoder, t: nat, before: seq<seq<nat>>, current: set<nat>, order: seq<nat>,
                 hypotheses: seq<Hypothesis>, paths: seq<seq<nat>>, active: set<nat>)
    requires d.Valid() && CanonicalsNameWords(d) && t < d.TokenCount()
    requires LayerComplete(d, t, before, current) && forall i :: i in current ==> i in order
    requires Partial(d, t, before, order, paths, active, d.starts[t + 1], 0)
    requires Building(d, t, hypotheses, paths, active) && InRange(d, hypotheses)
    ensures Layer(d, t + 1, hypotheses, paths, active)
  {
    hide Traces, Scored, LayerComplete, Offered, InRange, ActiveOf, CanonicalsNameWords;
    LayerStep(d, t, before, current, order, paths, active);
  }

  lemma SnapshotOrder(scratch: seq<nat>, count: nat, active: set<nat>)
    requires count <= |scratch| && (set o | 0 <= o < count :: scratch[o]) == active
    ensures forall o :: 0 <= o < count ==> scratch[..count][o] in active
    ensures forall i :: i in active ==> i in scratch[..count]
  {
    forall i | i in active
      ensures i in scratch[..count]
    {
      var o :| 0 <= o < count && scratch[o] == i;
      assert scratch[..count][o] == i;
    }
  }

  /** Extends every parent by every analysis of token `t`. */
  method HashAnalyses(d: Decoder, t: nat, ghost before: seq<seq<nat>>, order: seq<nat>,
                      scorer: TransitionScorer, ws: CompactDecodeWorkspace)
    returns (placed: bool)
    requires scorer.Valid() && scorer.d == d && ws !in scorer.repr && ws.next !in scorer.repr
    requires d.Valid() && t < d.TokenCount()
    requires Growing(d, t, ws) && RowsFit(scorer.Rows(), d, ws.hypotheses)
    requires Partial(d, t, before, order, ws.paths, ws.next.Active(), d.starts[t], 0)
    modifies ws`hypotheses, ws`paths, ws.next, scorer.repr
    ensures scorer.Valid() && Growing(d, t, ws) && RowsFit(scorer.Rows(), d, ws.hypotheses)
    ensures placed ==> Partial(d, t, before, order, ws.paths, ws.next.Active(), d.starts[t + 1], 0)
    ensures !placed ==> |ws.hypotheses| == NO_INDEX
  {
    hide Growing, Decoder.Valid, TransitionScorer.Valid, TransitionScorer.Rows, RowsFit,
      CompactActiveHypotheses.Active, Partial;
    StartsOrdered(d, t);
    for a := d.starts[t] to d.starts[t + 1]
      invariant scorer.Valid() && Growing(d, t, ws) && RowsFit(scorer.Rows(), d, ws.hypotheses)
      invariant Partial(d, t, before, order, ws.paths, ws.next.Active(), a, 0)
    {
      placed := HashAnalysis(d, t, before, order, a, scorer, ws);
      if !placed {
        return;
      }
    }
    placed := true;
  }

  lemma StartsOrdered(d: Decoder, t: nat)
    requires d.Valid() && t < d.TokenCount()
    ensures d.starts[t] <= d.starts[t + 1]
  {
  }

  lemma LayerParts(d: Decoder, t: nat, hypotheses: seq<Hypothesis>, paths: seq<seq<nat>>, active: set<nat>)
    requires d.Valid() && Layer(d, t, hypotheses, paths, active)
    ensures InRange(d, hypotheses) && LayerComplete(d, t, paths, active)
  {
  }

  /** Builds the next layer in the next table and makes it the current one. */
  method HashLayer(d: Decoder, t: nat, scorer: TransitionScorer, ws: CompactDecodeWorkspace)
    returns (placed: bool)
    requires d.Valid() && CanonicalsNameWords(d) && t < d.TokenCount() && Holding(d, t, ws)
    requires scorer.Valid() && scorer.d == d
    requires ws !in scorer.repr && ws.next !in scorer.repr && ws.current !in scorer.repr
    requires RowsFit(scorer.Rows(), d, ws.hypotheses)
    modifies ws`hypotheses, ws`paths, ws`current, ws`next, ws.current, ws.next, scorer.repr
    ensures scorer.Valid() && RowsFit(scorer.Rows(), d, ws.hypotheses)
    ensures {ws.current, ws.next} == {old(ws.current), old(ws.next)}
    ensures placed ==> Holding(d, t + 1, ws)
    ensures !placed ==> |ws.hypotheses| == NO_INDEX && ws.current != ws.next && ws.current.Idle() && ws.next.Idle()
  {
    hide Layer, Decoder.Valid, TransitionScorer.Valid, TransitionScorer.Rows, RowsFit, LayerComplete,
      CompactActiveHypotheses.Active, Partial, Building, InRange, CanonicalsNameWords;
    ghost var before, active := ws.paths, ws.current.Active();
    ws.next.Reset();
    var order := ListActive(ws.current, |ws.hypotheses|);
    LayerParts(d, t, ws.hypotheses, before, active);
    LayerStart(d, t, ws.hypotheses, before, active, order);
    placed := HashAnalyses(d, t, before, order, scorer, ws);
    if placed {
      LayerEnd(d, t, before, active, order, ws.hypotheses, ws.paths, ws.next.Active());
    }
    ws.current, ws.next := ws.next, ws.current;
  }

  /** The active hypotheses in slot order. */
  method ListActive(table: CompactActiveHypotheses, ghost bound: nat) returns (order: seq<nat>)
    requires table.Ready(bound)
    modifies table`scratch
    ensures table.Ready(bound) && table.Active() == old(table.Active())
    ensures forall o :: 0 <= o < |order| ==> order[o] in table.Active()
    ensures forall i :: i in table.Active() ==> i in order
  {
    var count := table.Snapshot();
    assert table.Active() == old(table.Active());
    order := table.scratch[..count];
    SnapshotOrder(table.scratch, count, table.Active());
  }

  // ----- the sentence end -----

  /** Terminal hypotheses in `done` carry full scores, the other active ones still path scores. */
  ghost predicate Ended(d: Decoder, hypotheses: seq<Hypothesis>, paths: seq<seq<nat>>, active: set<nat>, done: set<nat>)
    requires d.Valid()
  {
    && Traces(d, hypotheses, paths) && ActiveOf(d.TokenCount(), paths, active)
    && forall i :: i in active ==> i < |hypotheses| && CarriesScore(d, hypotheses[i], paths[i], i in done)
  }

  lemma EndStart(d: Decoder, hypotheses: seq<Hypothesis>, paths: seq<seq<nat>>, active: set<nat>)
    requires d.Valid() && Layer(d, d.TokenCount(), hypotheses, paths, active)
    ensures Ended(d, hypotheses, paths, active, {})
  {
    hide Decoder.FullScore, Decoder.PathScore, Decoder.Path, Decoder.Valid, LayerComplete, InRange;
    TracesLengths(d, hypotheses, paths);
  }

  lemma EndStep(d: Decoder, hypotheses: seq<Hypothesis>, paths: seq<seq<nat>>, active: set<nat>, done: set<nat>, i: nat)
    requires d.Valid() && Ended(d, hypotheses, paths, active, done) && i in active && i !in done
    ensures i < |hypotheses| == |paths|
    ensures var h := hypotheses[i];
      && d.InLayer(d.TokenCount(), h.current, 1)
      && h.previous < |d.analyses| + 2 && h.current < |d.analyses| + 2
      && Ended(d, hypotheses[i := h.(score := h.score + d.Score(h.previous, h.current, 1))], paths, active, With(done, i))
  {
    hide CarriesScore, Decoder.Score, Decoder.InLayer, EndsLike, Traces, Decoder.Valid;
    TracesLengths(d, hypotheses, paths);
    TraceEnds(d, hypotheses, paths, i);
    EndFactor(d, hypotheses[i], paths[i]);
    RescoreKeepsTraces(d, hypotheses, paths, i,
      hypotheses[i].score + d.Score(hypotheses[i].previous, hypotheses[i].current, 1));
  }

  /** Adds the end factor to every active hypothesis, in slot order. */
  method EndHash(d: Decoder, scorer: TransitionScorer, ws: CompactDecodeWorkspace)
    requires scorer.Valid() && scorer.d == d && ws !in scorer.repr && ws.current !in scorer.repr && d.Valid()
    requires ws.current.Ready(|ws.hypotheses|) && RowsFit(scorer.Rows(), d, ws.hypotheses)
    requires Ended(d, ws.hypotheses, ws.paths, ws.current.Active(), {})
    modifies ws`hypotheses, scorer.repr
    ensures scorer.Valid() && |ws.hypotheses| == |old(ws.hypotheses)|
    ensures Ended(d, ws.hypotheses, ws.paths, ws.current.Active(), ws.current.Active())
  {
    hide Decoder.Valid, TransitionScorer.Valid, TransitionScorer.Rows, RowsFit, Ended, Members, NamedOnce;
    var table := ws.current;
    assert table.Active() == Members(table.slots, table.activeLen);
    NoneBefore(table.slots);
    for s := 0 to table.activeLen
      invariant scorer.Valid() && RowsFit(scorer.Rows(), d, ws.hypotheses) && |ws.hypotheses| == |old(ws.hypotheses)|
      invariant Ended(d, ws.hypotheses, ws.paths, table.Active(), Members(table.slots, s))
    {
      MembersNext(table.slots, s, table.activeLen);
      if table.slots[s] != NO_INDEX {
        EndHashOne(d, table.slots[s], Members(table.slots, s), scorer, ws);
        assert Members(table.slots, s + 1) == With(Members(table.slots, s), table.slots[s]);
      } else {
        assert Members(table.slots, s + 1) == Members(table.slots, s);
      }
    }
  }

  lemma NoneBefore(slots: seq<nat>)
    ensures Members(slots, 0) == {}
  {
  }

  method EndHashOne(d: Decoder, i: nat, ghost done: set<nat>, scorer: TransitionScorer, ws: CompactDecodeWorkspace)
    requires scorer.Valid() && scorer.d == d && ws !in scorer.repr && ws.current !in scorer.repr && d.Valid()
    requires RowsFit(scorer.Rows(), d, ws.hypotheses) && i in ws.current.Active() && i !in done
    requires Ended(d, ws.hypotheses, ws.paths, ws.current.Active(), done)
    modifies ws`hypotheses, scorer.repr
    ensures scorer.Valid() && RowsFit(scorer.Rows(), d, ws.hypotheses) && |ws.hypotheses| == |old(ws.hypotheses)|
    ensures Ended(d, ws.hypotheses, ws.paths, ws.current.Active(), With(done, i))
  {
    hide Decoder.Valid, TransitionScorer.Valid, TransitionScorer.Rows, RowsFit, RowFits, Ended,
      Decoder.InLayer, Decoder.Score, CompactActiveHypotheses.Active;
    EndStep(d, ws.hypotheses, ws.paths, ws.current.Active(), done, i);
    var h := ws.hypotheses[i];
    ghost var rowPair := scorer.Rows();
    RowOf(rowPair, d, ws.hypotheses, i);
    var score, _ := scorer.Transition(d.TokenCount(), h.previous, h.current, 1, h.row, true);
    RowsFitRescored(rowPair, scorer.Rows(), d, ws.hypotheses, i, h.score + score);
    ws.hypotheses := ws.hypotheses[i := h.(score := h.score + score)];
  }

  // ----- the decoder -----

  /** No choice of candidates scores more than `p`. */
  ghost predicate Best(d: Decoder, p: seq<nat>)
    requires d.Valid()
  {
    ChoicesOf(d, p) && forall q :: ChoicesOf(d, q) ==> ChoiceScore(d, q) <= ChoiceScore(d, p)
  }

  lemma SomeEndsNoWorse(d: Decoder, paths: seq<seq<nat>>, active: set<nat>, h: seq<nat>) returns (i: nat)
    requires d.Valid() && CanonicalsNameWords(d) && LayerComplete(d, d.TokenCount(), paths, active)
    requires d.Path(h) && |h| == d.TokenCount()
    ensures i in active && i < |paths| && d.Path(paths[i]) && d.FullScore(h) <= d.FullScore(paths[i])
  {
    assert Dominated(d, paths, active, h);
    hide LayerComplete, Decoder.Path, Decoder.FullScore, Decoder.PathScore, Decoder.Valid, SameState;
    i :| i in active && i < |paths| && Dominates(d, paths[i], h);
    EndsNoBetter(d, paths[i], h);
  }

  lemma BestNoWorse(d: Decoder, hypotheses: seq<Hypothesis>, paths: seq<seq<nat>>, active: set<nat>, best: nat, h: seq<nat>)
    requires d.Valid() && CanonicalsNameWords(d) && LayerComplete(d, d.TokenCount(), paths, active)
    requires Ended(d, hypotheses, paths, active, active) && best in active && best < |hypotheses|
    requires forall i :: i in active && i < |hypotheses| ==> hypotheses[i].score <= hypotheses[best].score
    requires d.Path(h) && |h| == d.TokenCount()
    ensures best < |paths| && d.Path(paths[best]) && d.FullScore(h) <= d.FullScore(paths[best])
  {
    hide CanonicalsNameWords, LayerComplete, Decoder.Path, Decoder.FullScore, Decoder.PathScore, Decoder.Valid, Traces;
    var i := SomeEndsNoWorse(d, paths, active, h);
    assert CarriesScore(d, hypotheses[i], paths[i], true) && CarriesScore(d, hypotheses[best], paths[best], true);
  }

  /** The best terminal hypothesis stands for a best choice. */
  lemma BestIsBest(d: Decoder, hypotheses: seq<Hypothesis>, paths: seq<seq<nat>>, active: set<nat>, best: nat)
    requires d.Valid() && CanonicalsNameWords(d) && LayerComplete(d, d.TokenCount(), paths, active)
    requires Ended(d, hypotheses, paths, active, active) && best in active && best < |hypotheses|
    requires forall i :: i in active && i < |hypotheses| ==> hypotheses[i].score <= hypotheses[best].score
    ensures Traces(d, hypotheses, paths) && best < |paths| && |paths[best]| == d.TokenCount()
    ensures d.Path(paths[best]) && Best(d, Choices(d, paths[best]))
  {
    hide CanonicalsNameWords, LayerComplete, Traces, CarriesScore, Decoder.Path, Decoder.FullScore, Choices, PathOf;
    var some := SomePath(d);
    BestNoWorse(d, hypotheses, paths, active, best, some);
    var g := paths[best];
    ChoicesOfPath(d, g);
    forall q | ChoicesOf(d, q)
      ensures ChoiceScore(d, q) <= ChoiceScore(d, Choices(d, g))
    {
      BestNoWorse(d, hypotheses, paths, active, best, PathOf(d, q));
    }
  }

  lemma RootLayer(d: Decoder, row: nat)
    requires d.Valid()
    ensures Layer(d, 0, [Root(row)], [[]], {0})
  {
    assert d.Path([]);
    forall g | d.Path(g) && |g| == 0
      ensures Dominated(d, [[]], {0}, g)
    {
      assert g == [];
      assert Dominates(d, [[]][0], g);
    }
  }

  /** Puts the root into the current table. */
  method StartHash(d: Decoder, activeCapacity: nat, scorer: TransitionScorer, ws: CompactDecodeWorkspace)
    requires scorer.Valid() && scorer.d == d && ws !in scorer.repr && d.Valid() && ws.Idle()
    requires ws.current !in scorer.repr && ws.next !in scorer.repr
    modifies ws`hypotheses, ws`paths, ws.current, ws.next, scorer.repr
    ensures scorer.Valid() && RowsFit(scorer.Rows(), d, ws.hypotheses) && Holding(d, 0, ws)
  {
    hide Decoder.Valid, TransitionScorer.Valid, TransitionScorer.Rows, Layer, RowFits;
    PrepareTables(activeCapacity, ws);
    var row := scorer.InitialScoreRow();
    RootLayer(d, row);
    ws.hypotheses := [Root(row)];
    ws.paths := [[]];
    AddRoot(d, ws);
  }

  method PrepareTables(activeCapacity: nat, ws: CompactDecodeWorkspace)
    requires ws.Idle()
    modifies ws.current, ws.next
    ensures ws.current.Ready(0) && ws.current.Active() == {} && ws.next.Idle() && 8 <= |ws.next.slots|
  {
    hide NamedOnce, Members;
    ws.current.EnsureCapacity(activeCapacity);
    ws.next.EnsureCapacity(activeCapacity);
    ws.current.Reset();
    ws.next.Reset();
  }

  method AddRoot(d: Decoder, ws: CompactDecodeWorkspace)
    requires d.Valid() && |ws.hypotheses| == 1 && ws.hypotheses[0].previous == 0 && ws.hypotheses[0].current == 0
    requires ws.current.Ready(0) && ws.current.Active() == {} && ws.current != ws.next
    modifies ws.current
    ensures ws.current.Ready(1) && ws.current.Active() == {0}
  {
    hide Decoder.Valid, KeyOf, StateHash, NamedOnce, Members;
    var slot := ws.current.Locate(d, ws.hypotheses, 0, 0);
    ws.current.InsertIndex(d, ws.hypotheses, slot, 0);
  }

  /** Decodes a lattice through the active list. Whatever the score cache retained and the buffers hold
      from earlier sentences, the selected choice is a best one. */
  method DecodeHash(d: Decoder, scorer: TransitionScorer, ws: CompactDecodeWorkspace)
    returns (r: Result<seq<nat>, DecodeError>)
    requires d.Valid() && CanonicalsNameWords(d) && ws.Idle()
    requires scorer.Valid() && scorer.d == d
    requires ws !in scorer.repr && ws.next !in scorer.repr && ws.current !in scorer.repr
    modifies ws`hypotheses, ws`paths, ws`current, ws`next, ws.current, ws.next, scorer.repr
    ensures scorer.Valid() && ws.Idle() && {ws.current, ws.next} == {old(ws.current), old(ws.next)}
    ensures r.Success? ==> Best(d, r.value)
    ensures r.Failure? ==> r.error == IndexOverflow && |ws.hypotheses| == NO_INDEX
  {
    hide Decoder.Valid, TransitionScorer.Valid, TransitionScorer.Rows, RowsFit, Layer, Best, CanonicalsNameWords,
      StateBound, CompactActiveHypotheses.Active, CompactActiveHypotheses.Idle;
    StartHash(d, 4 * StateBound(d, d.TokenCount()), scorer, ws);
    for t := 0 to d.TokenCount()
      invariant scorer.Valid() && RowsFit(scorer.Rows(), d, ws.hypotheses)
      invariant {ws.current, ws.next} == {old(ws.current), old(ws.next)}
      invariant Holding(d, t, ws)
    {
      var placed := HashLayer(d, t, scorer, ws);
      if !placed {
        return Failure(IndexOverflow);
      }
    }
    r := FinishHash(d, scorer, ws);
  }

  /** Ends the sentence and recovers the best path. */
  method FinishHash(d: Decoder, scorer: TransitionScorer, ws: CompactDecodeWorkspace)
    returns (r: Result<seq<nat>, DecodeError>)
    requires d.Valid() && CanonicalsNameWords(d) && Holding(d, d.TokenCount(), ws)
    requires scorer.Valid() && scorer.d == d && RowsFit(scorer.Rows(), d, ws.hypotheses)
    requires ws !in scorer.repr && ws.next !in scorer.repr && ws.current !in scorer.repr
    modifies ws`hypotheses, scorer.repr
    ensures scorer.Valid() && ws.current.Idle() && ws.next.Idle()
    ensures r.Success? && Best(d, r.value)
  {
    hide Decoder.Valid, TransitionScorer.Valid, TransitionScorer.Rows, RowsFit, Layer, LayerComplete, Ended, Best, Traces,
      Choices, Decoder.Path, CanonicalsNameWords, CompactActiveHypotheses.Active;
    ghost var active := ws.current.Active();
    LayerParts(d, d.TokenCount(), ws.hypotheses, ws.paths, active);
    EndStart(d, ws.hypotheses, ws.paths, active);
    EndHash(d, scorer, ws);
    var best := ws.current.Best(ws.hypotheses);
    SomeActive(d, ws.paths, active);
    if best == None {
      return Failure(NoHypothesis);
    }
    BestIsBest(d, ws.hypotheses, ws.paths, active, best.value);
    r := ReconstructSelected(d, ws.hypotheses, best.value, ws.paths);
  }

  lemma SomeActive(d: Decoder, paths: seq<seq<nat>>, active: set<nat>)
    requires d.Valid() && LayerComplete(d, d.TokenCount(), paths, active)
    ensures active != {}
  {
    var g := SomePath(d);
    assert Dominated(d, paths, active, g);
  }
}
