/** The dense Viterbi decoder: one slot per pair of neighbouring candidates. */
module DenseDecoder {
  import opened Wrappers
  import opened Lattice
  import opened Scoring
  import opened Hypotheses
  import opened Probing
  import opened Workspace

  const MAX_DENSE_STATES: nat := 4096

  datatype DenseFallback = DuplicateIdentity | StateSpace | Tie

  datatype DenseOutcome = Selected(choices: seq<nat>) | Fallback(reason: DenseFallback)

  // ----- which paths the active hypotheses stand for -----

  /** `p` ends in the state of `g` and is `g` or strictly better. */
  ghost predicate Beats(d: Decoder, p: seq<nat>, g: seq<nat>)
    requires d.Valid()
  {
    && d.Path(p) && d.Path(g) && |p| == |g|
    && Previous(p) == Previous(g) && Current(p) == Current(g)
    && (p == g || d.PathScore(g) < d.PathScore(p))
  }

  ghost predicate Beaten(d: Decoder, paths: seq<seq<nat>>, active: seq<nat>, g: seq<nat>)
    requires d.Valid()
  {
    exists k :: 0 <= k < |active| && active[k] < |paths| && Beats(d, paths[active[k]], g)
  }

  /** Every path of length `t` is beaten by an active hypothesis. */
  ghost predicate LayerBest(d: Decoder, t: nat, paths: seq<seq<nat>>, active: seq<nat>)
    requires d.Valid()
  {
    forall g :: d.Path(g) && |g| == t ==> Beaten(d, paths, active, g)
  }

  /** The active hypotheses are distinct and all stand for paths of length `t`. */
  ghost predicate ActiveAt(t: nat, paths: seq<seq<nat>>, active: seq<nat>) {
    && (forall k :: 0 <= k < |active| ==> active[k] < |paths| && |paths[active[k]]| == t)
    && (forall j, k :: 0 <= j < k < |active| ==> active[j] < active[k])
  }

  /** All parents were extended by the analyses before `a`, and the first `offset` ones by `a` itself. */
  ghost predicate Offered(d: Decoder, before: seq<seq<nat>>, current: seq<nat>, paths: seq<seq<nat>>, next: seq<nat>,
                          first: nat, a: nat, offset: nat)
    requires d.Valid()
  {
    forall o, b :: 0 <= o < |current| && current[o] < |before| && first <= b && (b < a || (b == a && o < offset)) ==>
      Beaten(d, paths, next, before[current[o]] + [b])
  }

  // ----- one layer -----

  lemma BeatsExtends(d: Decoder, p: seq<nat>, g: seq<nat>, a: nat, w: seq<nat>)
    requires d.Valid() && Beats(d, p, g) && |g| < d.TokenCount() && d.AtToken(|g|, a)
    requires Beats(d, w, p + [a])
    ensures Beats(d, w, g + [a])
  {
    hide Decoder.Path, Decoder.PathScore, Decoder.Score, Decoder.AtToken, Decoder.Valid;
    d.PathSnoc(p, a);
    d.PathSnoc(g, a);
  }

  /** When every extension was offered, the next layer is complete. */
  lemma LayerStep(d: Decoder, t: nat, paths: seq<seq<nat>>, current: seq<nat>, before: seq<seq<nat>>, next: seq<nat>)
    requires d.Valid() && t < d.TokenCount()
    requires LayerBest(d, t, before, current)
    requires Offered(d, before, current, paths, next, d.starts[t], d.starts[t + 1], 0)
    ensures LayerBest(d, t + 1, paths, next)
  {
    hide Beats, Decoder.PathScore;
    forall g | d.Path(g) && |g| == t + 1
      ensures Beaten(d, paths, next, g)
    {
      d.PathInit(g);
      var init, a := g[..t], g[t];
      assert Beaten(d, before, current, init);
      var o :| 0 <= o < |current| && current[o] < |before| && Beats(d, before[current[o]], init);
      var p := before[current[o]];
      assert Beaten(d, paths, next, p + [a]);
      var k :| 0 <= k < |next| && next[k] < |paths| && Beats(d, paths[next[k]], p + [a]);
      BeatsExtends(d, p, init, a, paths[next[k]]);
    }
  }

  /** What was beaten stays beaten by the stronger path put in place of `e`. */
  lemma ReplaceKeepsBeaten(d: Decoder, paths: seq<seq<nat>>, next: seq<nat>, e: nat, q: seq<nat>, g: seq<nat>)
    requires d.Valid() && e < |paths| && Beaten(d, paths, next, g)
    requires d.Path(q) && d.Path(paths[e]) && |q| == |paths[e]| && d.PathScore(paths[e]) < d.PathScore(q)
    requires Previous(q) == Previous(paths[e]) && Current(q) == Current(paths[e])
    ensures Beaten(d, paths[e := q], next, g)
  {
    hide Decoder.Path, Decoder.PathScore;
    var k :| 0 <= k < |next| && next[k] < |paths| && Beats(d, paths[next[k]], g);
    assert Beats(d, paths[e := q][next[k]], g);
  }

  lemma PushKeepsBeaten(d: Decoder, paths: seq<seq<nat>>, next: seq<nat>, q: seq<nat>, g: seq<nat>)
    requires d.Valid() && Beaten(d, paths, next, g)
    ensures Beaten(d, paths + [q], next, g) && Beaten(d, paths + [q], next + [|paths|], g)
  {
    hide Beats;
    var k :| 0 <= k < |next| && next[k] < |paths| && Beats(d, paths[next[k]], g);
    assert (paths + [q])[next[k]] == paths[next[k]] && (next + [|paths|])[k] == next[k];
  }

  // ----- slots -----

  /** The slot of the state a hypothesis of layer `t` ends in. */
  function StateSlot(d: Decoder, t: nat, h: Hypothesis): int
    requires d.Valid() && t < d.TokenCount()
  {
    (h.previous - d.PreviousFirst(t)) * d.CurrentCount(t) + (h.current - d.CurrentFirst(t))
  }

  /** A used slot names an active hypothesis of its own state, and every active hypothesis has its slot. */
  ghost predicate SlotsMatch(d: Decoder, t: nat, slots: seq<nat>, count: nat, hypotheses: seq<Hypothesis>, next: seq<nat>)
    requires d.Valid() && t < d.TokenCount()
  {
    && count <= |slots|
    && (forall s :: 0 <= s < count && slots[s] != NO_INDEX ==>
          slots[s] < |hypotheses| && slots[s] in next && StateSlot(d, t, hypotheses[slots[s]]) == s)
    && forall k :: 0 <= k < |next| ==> next[k] < |hypotheses| && SlotHolds(d, t, slots, count, hypotheses[next[k]], next[k])
  }

  ghost predicate SlotHolds(d: Decoder, t: nat, slots: seq<nat>, count: nat, h: Hypothesis, index: nat)
    requires d.Valid() && t < d.TokenCount()
  {
    0 <= StateSlot(d, t, h) < count && count <= |slots| && slots[StateSlot(d, t, h)] == index
  }

  ghost predicate InState(d: Decoder, t: nat, h: Hypothesis)
    requires d.Valid() && t < d.TokenCount()
  {
    d.InLayer(t, h.previous, h.current)
  }

  lemma SameSlotSameState(d: Decoder, t: nat, h: Hypothesis, e: Hypothesis)
    requires d.Valid() && t < d.TokenCount() && InState(d, t, h) && InState(d, t, e)
    requires StateSlot(d, t, h) == StateSlot(d, t, e)
    ensures h.previous == e.previous && h.current == e.current
  {
    PairSlotInjective(h.previous - d.PreviousFirst(t), h.current - d.CurrentFirst(t),
                      e.previous - d.PreviousFirst(t), e.current - d.CurrentFirst(t), d.CurrentCount(t));
  }

  // ----- placing one candidate -----

  /** The state of building layer `t + 1`. */
  ghost predicate Building(d: Decoder, t: nat, hypotheses: seq<Hypothesis>, paths: seq<seq<nat>>,
                           slots: seq<nat>, count: nat, next: seq<nat>)
    requires d.Valid() && t < d.TokenCount()
  {
    && Traces(d, hypotheses, paths) && Scored(d, hypotheses, paths) && NoLongerThan(paths, t + 1)
    && ActiveAt(t + 1, paths, next) && SlotsMatch(d, t, slots, count, hypotheses, next)
  }

  lemma PushActive(t: nat, paths: seq<seq<nat>>, next: seq<nat>, q: seq<nat>)
    requires ActiveAt(t, paths, next) && NoLongerThan(paths, t) && |q| == t
    ensures ActiveAt(t, paths + [q], next + [|paths|]) && NoLongerThan(paths + [q], t)
  {
  }

  lemma PushSlots(d: Decoder, t: nat, slots: seq<nat>, count: nat, hypotheses: seq<Hypothesis>, next: seq<nat>,
                  c: Hypothesis, slot: nat)
    requires d.Valid() && t < d.TokenCount() && SlotsMatch(d, t, slots, count, hypotheses, next)
    requires slot < count && StateSlot(d, t, c) == slot && slots[slot] == NO_INDEX && |hypotheses| <= NO_INDEX
    ensures SlotsMatch(d, t, slots[slot := |hypotheses|], count, hypotheses + [c], next + [|hypotheses|])
  {
    hide StateSlot;
    var slots', next' := slots[slot := |hypotheses|], next + [|hypotheses|];
    assert next'[|next|] == |hypotheses|;
    forall k | 0 <= k < |next'|
      ensures next'[k] < |hypotheses + [c]| && SlotHolds(d, t, slots', count, (hypotheses + [c])[next'[k]], next'[k])
    {
      if k < |next| {
        assert SlotHolds(d, t, slots, count, hypotheses[next[k]], next[k]);
      }
    }
  }

  lemma PushBeaten(d: Decoder, paths: seq<seq<nat>>, next: seq<nat>, q: seq<nat>)
    requires d.Valid() && d.Path(q)
    ensures Beaten(d, paths + [q], next + [|paths|], q)
  {
    hide Decoder.Path, Decoder.PathScore;
    assert (next + [|paths|])[|next|] == |paths| && (paths + [q])[|paths|] == q;
    assert Beats(d, q, q);
  }

  /** The layer with a new hypothesis and its path in a slot. */
  ghost predicate BuiltWith(d: Decoder, t: nat, hypotheses: seq<Hypothesis>, paths: seq<seq<nat>>, slots: seq<nat>, count: nat,
                            next: seq<nat>, c: Hypothesis, q: seq<nat>, slot: nat)
    requires d.Valid() && t < d.TokenCount() && slot < |slots|
  {
    && Building(d, t, hypotheses + [c], paths + [q], slots[slot := |hypotheses|], count, next + [|hypotheses|])
    && Beaten(d, paths + [q], next + [|hypotheses|], q)
  }

  lemma PlaceNew(d: Decoder, t: nat, hypotheses: seq<Hypothesis>, paths: seq<seq<nat>>, slots: seq<nat>, count: nat,
                 next: seq<nat>, c: Hypothesis, parent: nat, a: nat, slot: nat)
    requires d.Valid() && t < d.TokenCount() && Building(d, t, hypotheses, paths, slots, count, next)
    requires parent < |paths| && Extends(d, c, parent, a, paths) && |paths[parent]| == t && |hypotheses| < NO_INDEX
    requires slot < count <= |slots| && slots[slot] == NO_INDEX && StateSlot(d, t, c) == slot
    ensures |hypotheses| == |paths| && BuiltWith(d, t, hypotheses, paths, slots, count, next, c, paths[parent] + [a], slot)
  {
    PushKeepsTraces(d, hypotheses, paths, c, parent, a);
    TracesLengths(d, hypotheses, paths);
    hide Traces, Scored, Decoder.PathScore, Decoder.Path, StateSlot, ActiveAt, SlotsMatch, NoLongerThan, Beaten;
    PushActive(t + 1, paths, next, paths[parent] + [a]);
    PushSlots(d, t, slots, count, hypotheses, next, c, slot);
    PushBeaten(d, paths, next, paths[parent] + [a]);
  }

  /** An active hypothesis of the layer being built. */
  ghost predicate Placed(d: Decoder, t: nat, hypotheses: seq<Hypothesis>, paths: seq<seq<nat>>, next: seq<nat>, e: nat)
    requires d.Valid()
  {
    && e < |hypotheses| == |paths| && e in next && |paths[e]| == t + 1 && d.Path(paths[e])
    && hypotheses[e].previous == Previous(paths[e]) && hypotheses[e].current == Current(paths[e])
    && hypotheses[e].score == d.PathScore(paths[e])
  }

  lemma SlotIsPlaced(d: Decoder, t: nat, hypotheses: seq<Hypothesis>, paths: seq<seq<nat>>, slots: seq<nat>, count: nat,
                     next: seq<nat>, slot: nat)
    requires d.Valid() && t < d.TokenCount() && Building(d, t, hypotheses, paths, slots, count, next)
    requires slot < count && slots[slot] != NO_INDEX
    ensures Placed(d, t, hypotheses, paths, next, slots[slot])
    ensures StateSlot(d, t, hypotheses[slots[slot]]) == slot
  {
    hide StateSlot, Decoder.PathScore, Decoder.Path;
    assert EndsLike(d, hypotheses[slots[slot]], paths[slots[slot]]);
  }

  /** A hypothesis found in the slot of a candidate ends in the state of the candidate. */
  lemma StoredSameState(d: Decoder, t: nat, hypotheses: seq<Hypothesis>, paths: seq<seq<nat>>, slots: seq<nat>, count: nat,
                        next: seq<nat>, c: Hypothesis, parent: nat, a: nat, slot: nat)
    requires d.Valid() && t < d.TokenCount() && Building(d, t, hypotheses, paths, slots, count, next)
    requires Extends(d, c, parent, a, paths) && |paths[parent]| == t
    requires slot < count && slots[slot] != NO_INDEX && StateSlot(d, t, c) == slot
    ensures var e, q := slots[slot], paths[parent] + [a];
      && Placed(d, t, hypotheses, paths, next, e)
      && Previous(paths[e]) == Previous(q) && Current(paths[e]) == Current(q)
  {
    var e, q := slots[slot], paths[parent] + [a];
    hide StateSlot, Decoder.PathScore, Decoder.Path, Building, Decoder.InLayer, Decoder.Valid;
    SlotIsPlaced(d, t, hypotheses, paths, slots, count, next, slot);
    ExtendsState(d, c, parent, a, paths);
    hide Extends;
    PathEndsInLayer(d, t, paths[e]);
    PathEndsInLayer(d, t, q);
    SameSlotSameState(d, t, hypotheses[e], c);
  }

  lemma ReplaceSlots(d: Decoder, t: nat, slots: seq<nat>, count: nat, hypotheses: seq<Hypothesis>, next: seq<nat>,
                     e: nat, c: Hypothesis)
    requires d.Valid() && t < d.TokenCount() && SlotsMatch(d, t, slots, count, hypotheses, next)
    requires e < |hypotheses| && hypotheses[e].previous == c.previous && hypotheses[e].current == c.current
    ensures SlotsMatch(d, t, slots, count, hypotheses[e := c], next)
  {
    forall k | 0 <= k < |next|
      ensures next[k] < |hypotheses| && SlotHolds(d, t, slots, count, hypotheses[e := c][next[k]], next[k])
    {
      assert SlotHolds(d, t, slots, count, hypotheses[next[k]], next[k]);
    }
  }

  lemma ReplaceActive(t: nat, paths: seq<seq<nat>>, next: seq<nat>, e: nat, q: seq<nat>)
    requires ActiveAt(t, paths, next) && NoLongerThan(paths, t) && e < |paths| && |q| == |paths[e]| == t
    ensures ActiveAt(t, paths[e := q], next) && NoLongerThan(paths[e := q], t)
  {
  }

  /** A stronger candidate takes the place of the stored hypothesis of its state. */
  lemma PlaceStronger(d: Decoder, t: nat, hypotheses: seq<Hypothesis>, paths: seq<seq<nat>>, slots: seq<nat>, count: nat,
                      next: seq<nat>, c: Hypothesis, parent: nat, a: nat, slot: nat)
    requires d.Valid() && t < d.TokenCount() && Building(d, t, hypotheses, paths, slots, count, next)
    requires Extends(d, c, parent, a, paths) && |paths[parent]| == t
    requires slot < count && slots[slot] != NO_INDEX && StateSlot(d, t, c) == slot
    requires slots[slot] < |hypotheses| && hypotheses[slots[slot]].score < c.score
    ensures var e, q := slots[slot], paths[parent] + [a];
      && e < |paths|
      && Building(d, t, hypotheses[e := c], paths[e := q], slots, count, next)
      && Beaten(d, paths[e := q], next, q)
      && forall g :: Beaten(d, paths, next, g) ==> Beaten(d, paths[e := q], next, g)
  {
    var e, q := slots[slot], paths[parent] + [a];
    StoredSameState(d, t, hypotheses, paths, slots, count, next, c, parent, a, slot);
    hide Decoder.PathScore, Decoder.Path, StateSlot, ActiveAt, SlotsMatch, Scored, Traces;
    ReplaceKeepsTraces(d, hypotheses, paths, e, c, parent, a);
    ReplaceSlots(d, t, slots, count, hypotheses, next, e, c);
    ReplaceActive(t + 1, paths, next, e, q);
    hide NoLongerThan, Beaten, Building;
    forall g | Beaten(d, paths, next, g)
      ensures Beaten(d, paths[e := q], next, g)
    {
      ReplaceKeepsBeaten(d, paths, next, e, q, g);
    }
    ReplacedBeaten(d, paths, next, e, q);
  }

  lemma ReplacedBeaten(d: Decoder, paths: seq<seq<nat>>, next: seq<nat>, e: nat, q: seq<nat>)
    requires d.Valid() && d.Path(q) && e in next && e < |paths|
    ensures Beaten(d, paths[e := q], next, q)
  {
    hide Decoder.PathScore, Decoder.Path;
    var k :| 0 <= k < |next| && next[k] == e;
    assert Beats(d, paths[e := q][next[k]], q);
  }

  /** A weaker candidate is dropped: the stored hypothesis of its state beats it. */
  lemma PlaceWeaker(d: Decoder, t: nat, hypotheses: seq<Hypothesis>, paths: seq<seq<nat>>, slots: seq<nat>, count: nat,
                    next: seq<nat>, c: Hypothesis, parent: nat, a: nat, slot: nat)
    requires d.Valid() && t < d.TokenCount() && Building(d, t, hypotheses, paths, slots, count, next)
    requires Extends(d, c, parent, a, paths) && |paths[parent]| == t
    requires slot < count && slots[slot] != NO_INDEX && StateSlot(d, t, c) == slot
    requires slots[slot] < |hypotheses| && c.score < hypotheses[slots[slot]].score
    ensures Beaten(d, paths, next, paths[parent] + [a])
  {
    StoredSameState(d, t, hypotheses, paths, slots, count, next, c, parent, a, slot);
    hide Building, Decoder.PathScore, Decoder.Path, StateSlot;
    var k :| 0 <= k < |next| && next[k] == slots[slot];
    assert Beats(d, paths[next[k]], paths[parent] + [a]);
  }

  /** The candidate path `q` was taken into account: it is beaten now, what was beaten before still is,
      and earlier layers are untouched. */
  ghost predicate TookIn(d: Decoder, t: nat, paths: seq<seq<nat>>, next: seq<nat>,
                         paths': seq<seq<nat>>, next': seq<nat>, q: seq<nat>)
    requires d.Valid()
  {
    && Beaten(d, paths', next', q)
    && (forall g :: Beaten(d, paths, next, g) ==> Beaten(d, paths', next', g))
    && KeepsEarlier(t, paths, paths')
    && (forall k :: 0 <= k < |next'| ==> Kept(paths, next, paths', next', k) || IsNew(paths', next', k, q))
  }

  ghost predicate Kept(paths: seq<seq<nat>>, next: seq<nat>, paths': seq<seq<nat>>, next': seq<nat>, k: nat)
    requires k < |next'|
  {
    k < |next| && next'[k] == next[k] && next[k] < |paths| && next[k] < |paths'| && paths'[next[k]] == paths[next[k]]
  }

  ghost predicate IsNew(paths: seq<seq<nat>>, next: seq<nat>, k: nat, q: seq<nat>)
    requires k < |next|
  {
    next[k] < |paths| && paths[next[k]] == q
  }

  lemma NewTookIn(d: Decoder, t: nat, paths: seq<seq<nat>>, next: seq<nat>, q: seq<nat>)
    requires d.Valid() && Beaten(d, paths + [q], next + [|paths|], q)
    requires forall k :: 0 <= k < |next| ==> next[k] < |paths|
    ensures TookIn(d, t, paths, next, paths + [q], next + [|paths|], q)
  {
    hide Beaten;
    assert forall k :: 0 <= k < |next| ==> Kept(paths, next, paths + [q], next + [|paths|], k);
    assert IsNew(paths + [q], next + [|paths|], |next|, q);
    forall g | Beaten(d, paths, next, g)
      ensures Beaten(d, paths + [q], next + [|paths|], g)
    {
      PushKeepsBeaten(d, paths, next, q, g);
    }
  }

  lemma StrongerTookIn(d: Decoder, t: nat, paths: seq<seq<nat>>, next: seq<nat>, e: nat, q: seq<nat>)
    requires d.Valid() && e < |paths| && |paths[e]| == t + 1
    requires Beaten(d, paths[e := q], next, q)
    requires forall g :: Beaten(d, paths, next, g) ==> Beaten(d, paths[e := q], next, g)
    requires forall k :: 0 <= k < |next| ==> next[k] < |paths|
    ensures TookIn(d, t, paths, next, paths[e := q], next, q)
  {
    hide Beaten;
  }

  lemma WeakerTookIn(d: Decoder, t: nat, paths: seq<seq<nat>>, next: seq<nat>, q: seq<nat>)
    requires d.Valid() && Beaten(d, paths, next, q)
    requires forall k :: 0 <= k < |next| ==> next[k] < |paths|
    ensures TookIn(d, t, paths, next, paths, next, q)
  {
    hide Beaten;
  }

  // ----- ties -----

  /** Two different readings of the first tokens end in the same state with the same score. */
  ghost predicate Tied(d: Decoder, g: seq<nat>, h: seq<nat>)
    requires d.Valid()
  {
    g != h && EquallyGood(d, g, h)
  }

  ghost predicate EquallyGood(d: Decoder, g: seq<nat>, h: seq<nat>)
    requires d.Valid()
  {
    && d.Path(g) && d.Path(h) && |g| == |h| && Previous(g) == Previous(h) && Current(g) == Current(h)
    && d.PathScore(g) == d.PathScore(h)
  }

  /** Two different readings of the whole sentence have the same score. */
  ghost predicate EndTied(d: Decoder, g: seq<nat>, h: seq<nat>)
    requires d.Valid()
  {
    g != h && d.Path(g) && d.Path(h) && |g| == |h| == d.TokenCount() && d.FullScore(g) == d.FullScore(h)
  }

  ghost predicate HasTie(d: Decoder)
    requires d.Valid()
  {
    (exists g, h :: Tied(d, g, h)) || (exists g, h :: EndTied(d, g, h))
  }

  /** An active path is as good as the candidate path `q`. */
  ghost predicate MatchedBy(d: Decoder, paths: seq<seq<nat>>, next: seq<nat>, q: seq<nat>)
    requires d.Valid()
  {
    exists k :: 0 <= k < |next| && next[k] < |paths| && EquallyGood(d, paths[next[k]], q)
  }

  lemma StoredTie(d: Decoder, t: nat, hypotheses: seq<Hypothesis>, paths: seq<seq<nat>>, slots: seq<nat>, count: nat,
                  next: seq<nat>, c: Hypothesis, parent: nat, a: nat, slot: nat)
    requires d.Valid() && t < d.TokenCount() && Building(d, t, hypotheses, paths, slots, count, next)
    requires parent < |paths| && Extends(d, c, parent, a, paths) && |paths[parent]| == t
    requires slot < count <= |slots| && slots[slot] != NO_INDEX && StateSlot(d, t, c) == slot
    ensures slots[slot] < |hypotheses| == |paths| && |paths[slots[slot]]| == t + 1
    ensures hypotheses[slots[slot]].score == c.score ==> MatchedBy(d, paths, next, paths[parent] + [a])
  {
    hide Building, Decoder.Path, Decoder.PathScore, StateSlot;
    StoredSameState(d, t, hypotheses, paths, slots, count, next, c, parent, a, slot);
    ExtendsState(d, c, parent, a, paths);
    var k :| 0 <= k < |next| && next[k] == slots[slot];
    assert hypotheses[slots[slot]].score == c.score ==> EquallyGood(d, paths[next[k]], paths[parent] + [a]);
  }

  lemma BuildingNext(d: Decoder, t: nat, hypotheses: seq<Hypothesis>, paths: seq<seq<nat>>, slots: seq<nat>, count: nat,
                     next: seq<nat>)
    requires d.Valid() && t < d.TokenCount() && Building(d, t, hypotheses, paths, slots, count, next)
    ensures forall k :: 0 <= k < |next| ==> next[k] < |paths|
  {
    hide Traces, Scored, SlotsMatch;
  }

  /** Places a candidate in the slot of its state; a tie is reported and nothing is changed. */
  method PlaceDense(d: Decoder, t: nat, c: Hypothesis, ghost parent: nat, ghost a: nat, slot: nat, ghost count: nat,
                    ws: CompactDecodeWorkspace) returns (tie: Result<bool, DecodeError>)
    requires d.Valid() && t < d.TokenCount()
    requires Building(d, t, ws.hypotheses, ws.paths, ws.denseSlots, count, ws.denseNext)
    requires parent < |ws.paths| && Extends(d, c, parent, a, ws.paths) && |ws.paths[parent]| == t
    requires slot < count <= |ws.denseSlots| && StateSlot(d, t, c) == slot
    modifies ws`hypotheses, ws`paths, ws`denseSlots, ws`denseNext
    ensures |ws.denseSlots| == |old(ws.denseSlots)|
    ensures Building(d, t, ws.hypotheses, ws.paths, ws.denseSlots, count, ws.denseNext)
    ensures AddsOnly(c, old(ws.hypotheses), ws.hypotheses)
    ensures tie.Failure? ==> tie.error == IndexOverflow && NO_INDEX <= |ws.hypotheses|
    ensures tie == Success(false) ==>
      TookIn(d, t, old(ws.paths), old(ws.denseNext), ws.paths, ws.denseNext, old(ws.paths)[parent] + [a])
    ensures tie == Success(true) ==>
      ws.paths == old(ws.paths) && ws.denseNext == old(ws.denseNext) && MatchedBy(d, ws.paths, ws.denseNext, ws.paths[parent] + [a])
  {
    hide Building, Beaten, Extends, TookIn, StateSlot, MatchedBy, Decoder.Path, Decoder.PathScore, Decoder.Valid;
    ghost var paths, next, q := ws.paths, ws.denseNext, ws.paths[parent] + [a];
    BuildingNext(d, t, ws.hypotheses, paths, ws.denseSlots, count, next);
    var hypotheses := ws.hypotheses;
    var stored := ws.denseSlots[slot];
    if stored == NO_INDEX {
      if |hypotheses| >= NO_INDEX {
        return Failure(IndexOverflow);
      }
      PlaceNew(d, t, hypotheses, paths, ws.denseSlots, count, next, c, parent, a, slot);
      NewTookIn(d, t, paths, next, q);
      ws.denseSlots := ws.denseSlots[slot := |hypotheses|];
      ws.denseNext := ws.denseNext + [|hypotheses|];
      ws.hypotheses := hypotheses + [c];
      ws.paths := paths + [q];
      return Success(false);
    }
    StoredTie(d, t, hypotheses, paths, ws.denseSlots, count, next, c, parent, a, slot);
    if hypotheses[stored].score == c.score {
      return Success(true);
    }
    if hypotheses[stored].score < c.score {
      PlaceStronger(d, t, hypotheses, paths, ws.denseSlots, count, next, c, parent, a, slot);
      StrongerTookIn(d, t, paths, next, stored, q);
      ws.hypotheses := hypotheses[stored := c];
      ws.paths := paths[stored := q];
      return Success(false);
    }
    PlaceWeaker(d, t, hypotheses, paths, ws.denseSlots, count, next, c, parent, a, slot);
    WeakerTookIn(d, t, paths, next, q);
    return Success(false);
  }

  // ----- building one layer -----

  lemma SlotOfCandidate(d: Decoder, t: nat, c: Hypothesis)
    requires d.Valid() && t < d.TokenCount() && d.InLayer(t, c.previous, c.current)
    ensures StateSlot(d, t, c)
         == PairSlot(c.previous - d.PreviousFirst(t), c.current - d.CurrentFirst(t), d.CurrentCount(t))
    ensures StateSlot(d, t, c) < d.PreviousCount(t) * d.CurrentCount(t)
  {
    PairSlotBelow(c.previous - d.PreviousFirst(t), c.current - d.CurrentFirst(t), d.PreviousCount(t), d.CurrentCount(t));
  }

  lemma OfferFactsAgain(d: Decoder, t: nat, hypotheses: seq<Hypothesis>, paths: seq<seq<nat>>, slots: seq<nat>, count: nat,
                        next: seq<nat>, p: nat, a: nat, row: nat)
    requires d.Valid() && t < d.TokenCount() && Building(d, t, hypotheses, paths, slots, count, next)
    requires p < |hypotheses| && p < |paths| && |paths[p]| == t && d.AtToken(t, a)
    ensures var h := hypotheses[p];
      && h.previous < |d.analyses| + 2 && h.current < |d.analyses| + 2 && a < |d.analyses| + 2
      && d.InLayer(t, h.current, a)
      && d.PreviousFirst(t) <= h.current && d.CurrentFirst(t) <= a
      && Extends(d, Hypothesis(h.current, a, p, row, h.score + d.Score(h.previous, h.current, a)), p, a, paths)
  {
    OfferFacts(d, t, hypotheses, paths, p, a, row);
  }

  /** Extends the hypothesis `p` of the current layer by analysis `a`. */
  method OfferDense(d: Decoder, t: nat, p: nat, a: nat, ghost count: nat, scorer: TransitionScorer, ws: CompactDecodeWorkspace)
    returns (tie: Result<bool, DecodeError>)
    requires scorer.Valid() && scorer.d == d && ws !in scorer.repr
    requires d.Valid() && t < d.TokenCount() && d.AtToken(t, a)
    requires Building(d, t, ws.hypotheses, ws.paths, ws.denseSlots, count, ws.denseNext)
    requires RowsFit(scorer.Rows(), d, ws.hypotheses)
    requires p < |ws.hypotheses| && p < |ws.paths| && |ws.paths[p]| == t
    requires count == d.PreviousCount(t) * d.CurrentCount(t) <= |ws.denseSlots|
    modifies ws`hypotheses, ws`paths, ws`denseSlots, ws`denseNext, scorer.repr
    ensures scorer.Valid() && |ws.denseSlots| == |old(ws.denseSlots)|
    ensures Building(d, t, ws.hypotheses, ws.paths, ws.denseSlots, count, ws.denseNext)
    ensures RowsFit(scorer.Rows(), d, ws.hypotheses)
    ensures tie.Failure? ==> tie.error == IndexOverflow && NO_INDEX <= |ws.hypotheses|
    ensures tie == Success(false) ==>
      TookIn(d, t, old(ws.paths), old(ws.denseNext), ws.paths, ws.denseNext, old(ws.paths)[p] + [a])
    ensures tie == Success(true) ==>
      ws.paths == old(ws.paths) && ws.denseNext == old(ws.denseNext) && MatchedBy(d, ws.paths, ws.denseNext, ws.paths[p] + [a])
  {
    hide Building, TookIn, MatchedBy, Extends, Decoder.Valid, Decoder.AtToken, Decoder.Score, Decoder.InLayer,
      Decoder.PathScore, StateSlot, Beaten, TransitionScorer.Valid, TransitionScorer.Rows, RowFits;
    ghost var before := ws.hypotheses;
    ghost var rowPair := scorer.Rows();
    var h := ws.hypotheses[p];
    OfferFactsAgain(d, t, ws.hypotheses, ws.paths, ws.denseSlots, count, ws.denseNext, p, a, 0);
    assert RowFits(rowPair, d, h.row, h.previous, h.current);
    hide RowsFit;
    var score, nextRow := scorer.Transition(t, h.previous, h.current, a, h.row, true);
    var c := Hypothesis(h.current, a, p, nextRow, h.score + score);
    OfferFactsAgain(d, t, ws.hypotheses, ws.paths, ws.denseSlots, count, ws.denseNext, p, a, nextRow);
    SlotOfCandidate(d, t, c);
    var slot := PairSlot(h.current - d.PreviousFirst(t), a - d.CurrentFirst(t), d.CurrentCount(t));
    tie := PlaceDense(d, t, c, p, a, slot, count, ws);
    RowsFitAdded(rowPair, scorer.Rows(), d, before, ws.hypotheses, c);
  }

  // ----- whole layers -----

  /** The active hypotheses stand for the best paths of length `t`. */
  ghost predicate Layer(d: Decoder, t: nat, hypotheses: seq<Hypothesis>, paths: seq<seq<nat>>, current: seq<nat>)
    requires d.Valid()
  {
    && Traces(d, hypotheses, paths) && Scored(d, hypotheses, paths) && NoLongerThan(paths, t)
    && ActiveAt(t, paths, current) && LayerBest(d, t, paths, current) && Different(paths, current)
  }

  /** The active hypotheses stand for different paths. */
  ghost predicate Different(paths: seq<seq<nat>>, active: seq<nat>) {
    forall j, k :: 0 <= j < k < |active| && active[j] < |paths| && active[k] < |paths| ==>
      paths[active[j]] != paths[active[k]]
  }

  /** `g` extends a parent that was extended so far. */
  ghost predicate SourcedPath(before: seq<seq<nat>>, current: seq<nat>, first: nat, a: nat, offset: nat, g: seq<nat>) {
    exists o, b: nat :: 0 <= o < |current| && current[o] < |before| && first <= b && (b < a || (b == a && o < offset))
      && g == before[current[o]] + [b]
  }

  ghost predicate Sourced(before: seq<seq<nat>>, current: seq<nat>, paths: seq<seq<nat>>, next: seq<nat>,
                          first: nat, a: nat, offset: nat)
  {
    forall k :: 0 <= k < |next| ==> next[k] < |paths| && SourcedPath(before, current, first, a, offset, paths[next[k]])
  }

  ghost predicate Partial(d: Decoder, t: nat, before: seq<seq<nat>>, current: seq<nat>, hypotheses: seq<Hypothesis>,
                          paths: seq<seq<nat>>, slots: seq<nat>, count: nat, next: seq<nat>, a: nat, offset: nat)
    requires d.Valid() && t < d.TokenCount()
  {
    && Building(d, t, hypotheses, paths, slots, count, next)
    && KeepsEarlier(t, before, paths)
    && Offered(d, before, current, paths, next, d.starts[t], a, offset)
    && Sourced(before, current, paths, next, d.starts[t], a, offset)
  }

  lemma PartialStart(d: Decoder, t: nat, hypotheses: seq<Hypothesis>, paths: seq<seq<nat>>, current: seq<nat>,
                     slots: seq<nat>, count: nat)
    requires d.Valid() && t < d.TokenCount() && Layer(d, t, hypotheses, paths, current)
    requires count <= |slots| && forall s :: 0 <= s < count ==> slots[s] == NO_INDEX
    ensures Partial(d, t, paths, current, hypotheses, paths, slots, count, [], d.starts[t], 0)
    ensures ActiveAt(t, paths, current) && LayerBest(d, t, paths, current) && Different(paths, current)
  {
    hide Traces, Scored, LayerBest, Beaten, Different;
  }

  lemma PartialStep(d: Decoder, t: nat, before: seq<seq<nat>>, current: seq<nat>, hypotheses: seq<Hypothesis>,
                    paths: seq<seq<nat>>, slots: seq<nat>, count: nat, next: seq<nat>, a: nat, offset: nat,
                    hypotheses': seq<Hypothesis>, paths': seq<seq<nat>>, slots': seq<nat>, next': seq<nat>)
    requires d.Valid() && t < d.TokenCount() && ActiveAt(t, before, current) && offset < |current|
    requires Partial(d, t, before, current, hypotheses, paths, slots, count, next, a, offset)
    requires Building(d, t, hypotheses', paths', slots', count, next') && d.starts[t] <= a
    requires TookIn(d, t, paths, next, paths', next', before[current[offset]] + [a])
    ensures Partial(d, t, before, current, hypotheses', paths', slots', count, next', a, offset + 1)
  {
    hide Building, Beaten, Sourced;
    SourcedStep(before, current, paths, next, d.starts[t], a, offset, paths', next');
  }

  lemma SourcedStep(before: seq<seq<nat>>, current: seq<nat>, paths: seq<seq<nat>>, next: seq<nat>, first: nat,
                    a: nat, offset: nat, paths': seq<seq<nat>>, next': seq<nat>)
    requires Sourced(before, current, paths, next, first, a, offset) && first <= a
    requires offset < |current| && current[offset] < |before|
    requires forall k :: 0 <= k < |next'| ==>
      Kept(paths, next, paths', next', k) || IsNew(paths', next', k, before[current[offset]] + [a])
    ensures Sourced(before, current, paths', next', first, a, offset + 1)
  {
    forall k | 0 <= k < |next'|
      ensures next'[k] < |paths'| && SourcedPath(before, current, first, a, offset + 1, paths'[next'[k]])
    {
      if Kept(paths, next, paths', next', k) {
        assert SourcedPath(before, current, first, a, offset, paths[next[k]]);
        var o, b: nat :| 0 <= o < |current| && current[o] < |before| && first <= b && (b < a || (b == a && o < offset))
          && paths[next[k]] == before[current[o]] + [b];
      }
    }
  }

  /** A candidate as good as an active path is a different path: it was not offered before. */
  lemma MatchIsTie(d: Decoder, t: nat, before: seq<seq<nat>>, current: seq<nat>, hypotheses: seq<Hypothesis>,
                   paths: seq<seq<nat>>, slots: seq<nat>, count: nat, next: seq<nat>, a: nat, offset: nat)
    requires d.Valid() && t < d.TokenCount() && ActiveAt(t, before, current) && Different(before, current)
    requires Partial(d, t, before, current, hypotheses, paths, slots, count, next, a, offset)
    requires offset < |current| && current[offset] < |before|
    requires MatchedBy(d, paths, next, before[current[offset]] + [a])
    ensures HasTie(d)
  {
    hide Building, Offered, KeepsEarlier, EquallyGood;
    var q := before[current[offset]] + [a];
    var k :| 0 <= k < |next| && next[k] < |paths| && EquallyGood(d, paths[next[k]], q);
    NotOfferedYet(t, before, current, d.starts[t], a, offset, paths[next[k]]);
    assert Tied(d, paths[next[k]], q);
  }

  lemma NotOfferedYet(t: nat, before: seq<seq<nat>>, current: seq<nat>, first: nat, a: nat, offset: nat, g: seq<nat>)
    requires ActiveAt(t, before, current) && Different(before, current) && offset < |current|
    requires SourcedPath(before, current, first, a, offset, g)
    ensures g != before[current[offset]] + [a]
  {
    var o, b: nat :| 0 <= o < |current| && current[o] < |before| && first <= b && (b < a || (b == a && o < offset))
      && g == before[current[o]] + [b];
    assert g[..t] == before[current[o]] && g[t] == b;
    assert (before[current[offset]] + [a])[..t] == before[current[offset]] && (before[current[offset]] + [a])[t] == a;
  }

  lemma ParentKept(d: Decoder, t: nat, before: seq<seq<nat>>, current: seq<nat>, hypotheses: seq<Hypothesis>,
                   paths: seq<seq<nat>>, slots: seq<nat>, count: nat, next: seq<nat>, a: nat, offset: nat)
    requires d.Valid() && t < d.TokenCount() && ActiveAt(t, before, current) && offset < |current|
    requires Partial(d, t, before, current, hypotheses, paths, slots, count, next, a, offset)
    ensures current[offset] < |before| && current[offset] < |hypotheses| == |paths|
    ensures paths[current[offset]] == before[current[offset]] && |paths[current[offset]]| == t
  {
    TracesLengths(d, hypotheses, paths);
    hide Traces, Scored, SlotsMatch, Offered;
  }

  lemma PartialNext(d: Decoder, t: nat, before: seq<seq<nat>>, current: seq<nat>, hypotheses: seq<Hypothesis>,
                    paths: seq<seq<nat>>, slots: seq<nat>, count: nat, next: seq<nat>, a: nat)
    requires d.Valid() && t < d.TokenCount()
    requires Partial(d, t, before, current, hypotheses, paths, slots, count, next, a, |current|)
    ensures Partial(d, t, before, current, hypotheses, paths, slots, count, next, a + 1, 0)
  {
    hide Building, Beaten, Sourced;
    SourcedNext(before, current, paths, next, d.starts[t], a);
  }

  lemma SourcedNext(before: seq<seq<nat>>, current: seq<nat>, paths: seq<seq<nat>>, next: seq<nat>, first: nat, a: nat)
    requires Sourced(before, current, paths, next, first, a, |current|)
    ensures Sourced(before, current, paths, next, first, a + 1, 0)
  {
    forall k | 0 <= k < |next|
      ensures next[k] < |paths| && SourcedPath(before, current, first, a + 1, 0, paths[next[k]])
    {
      assert SourcedPath(before, current, first, a, |current|, paths[next[k]]);
      var o, b: nat :| 0 <= o < |current| && current[o] < |before| && first <= b && (b < a || (b == a && o < |current|))
        && paths[next[k]] == before[current[o]] + [b];
    }
  }

  /** Active hypotheses in different slots stand for different paths. */
  lemma SlotsDiffer(d: Decoder, t: nat, hypotheses: seq<Hypothesis>, paths: seq<seq<nat>>, slots: seq<nat>, count: nat,
                    next: seq<nat>)
    requires d.Valid() && t < d.TokenCount() && Building(d, t, hypotheses, paths, slots, count, next)
    ensures Different(paths, next)
  {
    hide StateSlot, Decoder.Path, Decoder.PathScore, Scored, NoLongerThan;
    forall j, k | 0 <= j < k < |next| && next[j] < |paths| && next[k] < |paths|
      ensures paths[next[j]] != paths[next[k]]
    {
      assert SlotHolds(d, t, slots, count, hypotheses[next[j]], next[j]);
      assert SlotHolds(d, t, slots, count, hypotheses[next[k]], next[k]);
      SameStateSameSlot(d, t, hypotheses[next[j]], hypotheses[next[k]]);
      assert EndsLike(d, hypotheses[next[j]], paths[next[j]]) && EndsLike(d, hypotheses[next[k]], paths[next[k]]);
    }
  }

  lemma SameStateSameSlot(d: Decoder, t: nat, h: Hypothesis, e: Hypothesis)
    requires d.Valid() && t < d.TokenCount()
    ensures h.previous == e.previous && h.current == e.current ==> StateSlot(d, t, h) == StateSlot(d, t, e)
  {
  }

  lemma PartialEnd(d: Decoder, t: nat, before: seq<seq<nat>>, current: seq<nat>, hypotheses: seq<Hypothesis>,
                   paths: seq<seq<nat>>, slots: seq<nat>, count: nat, next: seq<nat>)
    requires d.Valid() && t < d.TokenCount() && LayerBest(d, t, before, current)
    requires Partial(d, t, before, current, hypotheses, paths, slots, count, next, d.starts[t + 1], 0)
    ensures Layer(d, t + 1, hypotheses, paths, next)
  {
    hide Traces, Scored, LayerBest, Offered, SlotsMatch, Different, Sourced;
    LayerStep(d, t, paths, current, before, next);
    SlotsDiffer(d, t, hypotheses, paths, slots, count, next);
  }

  /** Extends every active hypothesis by every analysis of token `t`. */
  method DenseLayer(d: Decoder, t: nat, scorer: TransitionScorer, ws: CompactDecodeWorkspace)
    returns (tie: Result<bool, DecodeError>)
    requires scorer.Valid() && scorer.d == d && ws !in scorer.repr
    requires d.Valid() && t < d.TokenCount()
    requires Layer(d, t, ws.hypotheses, ws.paths, ws.denseCurrent) && RowsFit(scorer.Rows(), d, ws.hypotheses)
    requires d.PreviousCount(t) * d.CurrentCount(t) <= |ws.denseSlots|
    modifies ws`hypotheses, ws`paths, ws`denseSlots, ws`denseNext, ws`denseCurrent, scorer.repr
    ensures scorer.Valid() && |ws.denseSlots| == |old(ws.denseSlots)|
    ensures RowsFit(scorer.Rows(), d, ws.hypotheses)
    ensures tie.Failure? ==> tie.error == IndexOverflow && NO_INDEX <= |ws.hypotheses|
    ensures tie == Success(false) ==> Layer(d, t + 1, ws.hypotheses, ws.paths, ws.denseCurrent)
    ensures tie == Success(true) ==> HasTie(d)
  {
    hide Layer, Partial, Building, TookIn, TransitionScorer.Valid, TransitionScorer.Rows, RowsFit,
      ActiveAt, LayerBest, Different, HasTie, Decoder.PreviousCount, Decoder.CurrentCount;
    assert d.starts[t] <= d.starts[t + 1];
    hide Decoder.Valid;
    var count := d.PreviousCount(t) * d.CurrentCount(t);
    var current := ws.denseCurrent;
    ghost var before := ws.paths;
    PrepareDenseLayer(d, t, count, ws);
    for a := d.starts[t] to d.starts[t + 1]
      invariant scorer.Valid() && RowsFit(scorer.Rows(), d, ws.hypotheses) && |ws.denseSlots| == |old(ws.denseSlots)|
      invariant Partial(d, t, before, current, ws.hypotheses, ws.paths, ws.denseSlots, count, ws.denseNext, a, 0)
    {
      tie := DenseAnalysis(d, t, before, current, a, count, scorer, ws);
      if tie != Success(false) {
        return;
      }
    }
    PartialEnd(d, t, before, current, ws.hypotheses, ws.paths, ws.denseSlots, count, ws.denseNext);
    ws.denseCurrent, ws.denseNext := ws.denseNext, ws.denseCurrent;
    return Success(false);
  }

  /** Empties the slots of a layer. */
  method PrepareDenseLayer(d: Decoder, t: nat, count: nat, ws: CompactDecodeWorkspace)
    requires d.Valid() && t < d.TokenCount() && count <= |ws.denseSlots|
    requires Layer(d, t, ws.hypotheses, ws.paths, ws.denseCurrent)
    modifies ws`denseSlots, ws`denseNext
    ensures |ws.denseSlots| == |old(ws.denseSlots)|
    ensures ActiveAt(t, ws.paths, ws.denseCurrent) && LayerBest(d, t, ws.paths, ws.denseCurrent)
    ensures Different(ws.paths, ws.denseCurrent)
    ensures Partial(d, t, ws.paths, ws.denseCurrent, ws.hypotheses, ws.paths, ws.denseSlots, count, ws.denseNext,
                    d.starts[t], 0)
  {
    hide Layer, Partial, Different, Decoder.Valid;
    ws.denseSlots := Cleared(ws.denseSlots, count, NO_INDEX);
    ws.denseNext := [];
    PartialStart(d, t, ws.hypotheses, ws.paths, ws.denseCurrent, ws.denseSlots, count);
  }

  /** Extends every active hypothesis by analysis `a`. */
  method DenseAnalysis(d: Decoder, t: nat, ghost before: seq<seq<nat>>, current: seq<nat>, a: nat,
                       ghost count: nat, scorer: TransitionScorer, ws: CompactDecodeWorkspace)
    returns (tie: Result<bool, DecodeError>)
    requires scorer.Valid() && scorer.d == d && ws !in scorer.repr
    requires d.Valid() && t < d.TokenCount() && d.starts[t] <= a < d.starts[t + 1]
    requires count == d.PreviousCount(t) * d.CurrentCount(t) <= |ws.denseSlots|
    requires RowsFit(scorer.Rows(), d, ws.hypotheses) && ActiveAt(t, before, current) && Different(before, current)
    requires Partial(d, t, before, current, ws.hypotheses, ws.paths, ws.denseSlots, count, ws.denseNext, a, 0)
    modifies ws`hypotheses, ws`paths, ws`denseSlots, ws`denseNext, scorer.repr
    ensures scorer.Valid() && |ws.denseSlots| == |old(ws.denseSlots)|
    ensures RowsFit(scorer.Rows(), d, ws.hypotheses)
    ensures tie.Failure? ==> tie.error == IndexOverflow && NO_INDEX <= |ws.hypotheses|
    ensures tie == Success(false) ==>
      Partial(d, t, before, current, ws.hypotheses, ws.paths, ws.denseSlots, count, ws.denseNext, a + 1, 0)
    ensures tie == Success(true) ==> HasTie(d)
  {
    hide Different, HasTie, Partial, Decoder.Valid, TransitionScorer.Valid, TransitionScorer.Rows, RowsFit, ActiveAt,
      Decoder.PreviousCount, Decoder.CurrentCount;
    for offset := 0 to |current|
      invariant scorer.Valid() && RowsFit(scorer.Rows(), d, ws.hypotheses) && |ws.denseSlots| == |old(ws.denseSlots)|
      invariant Partial(d, t, before, current, ws.hypotheses, ws.paths, ws.denseSlots, count, ws.denseNext, a, offset)
    {
      tie := DenseInner(d, t, before, current, a, offset, count, scorer, ws);
      if tie != Success(false) {
        return;
      }
    }
    PartialNext(d, t, before, current, ws.hypotheses, ws.paths, ws.denseSlots, count, ws.denseNext, a);
    return Success(false);
  }

  method DenseInner(d: Decoder, t: nat, ghost before: seq<seq<nat>>, current: seq<nat>, a: nat, offset: nat,
                    ghost count: nat, scorer: TransitionScorer, ws: CompactDecodeWorkspace)
    returns (tie: Result<bool, DecodeError>)
    requires scorer.Valid() && scorer.d == d && ws !in scorer.repr
    requires d.Valid() && t < d.TokenCount() && d.starts[t] <= a < d.starts[t + 1]
    requires count == d.PreviousCount(t) * d.CurrentCount(t) <= |ws.denseSlots|
    requires RowsFit(scorer.Rows(), d, ws.hypotheses) && ActiveAt(t, before, current) && Different(before, current)
    requires offset < |current|
    requires Partial(d, t, before, current, ws.hypotheses, ws.paths, ws.denseSlots, count, ws.denseNext, a, offset)
    modifies ws`hypotheses, ws`paths, ws`denseSlots, ws`denseNext, scorer.repr
    ensures scorer.Valid() && |ws.denseSlots| == |old(ws.denseSlots)|
    ensures RowsFit(scorer.Rows(), d, ws.hypotheses)
    ensures tie.Failure? ==> tie.error == IndexOverflow && NO_INDEX <= |ws.hypotheses|
    ensures tie == Success(false) ==>
      Partial(d, t, before, current, ws.hypotheses, ws.paths, ws.denseSlots, count, ws.denseNext, a, offset + 1)
    ensures tie == Success(true) ==> HasTie(d)
  {
    hide Different, HasTie, MatchedBy, Decoder.Valid, TransitionScorer.Valid, TransitionScorer.Rows, RowsFit, ActiveAt, Building, TookIn;
    ghost var hypotheses, paths, slots, next := ws.hypotheses, ws.paths, ws.denseSlots, ws.denseNext;
    ParentKept(d, t, before, current, hypotheses, paths, slots, count, next, a, offset);
    assert Building(d, t, hypotheses, paths, slots, count, next);
    hide Partial;
    tie := OfferDense(d, t, current[offset], a, count, scorer, ws);
    if tie == Success(false) {
      PartialStep(d, t, before, current, hypotheses, paths, slots, count, next, a, offset,
                  ws.hypotheses, ws.paths, ws.denseSlots, ws.denseNext);
    }
    if tie == Success(true) {
      MatchIsTie(d, t, before, current, hypotheses, paths, slots, count, next, a, offset);
    }
  }

  // ----- refusing and finishing -----

  /** Two candidates of one token share canonical analysis and hash. */
  ghost predicate SameIdentity(d: Decoder, t: nat, i: nat, j: nat)
    requires d.Valid() && d.codes.Some?
  {
    && t < d.TokenCount() && d.starts[t] <= i < j < d.starts[t + 1] <= |d.codes.value| + 2
    && d.codes.value[i - 2].canonical == d.codes.value[j - 2].canonical
    && d.codes.value[i - 2].javaHash == d.codes.value[j - 2].javaHash
  }

  ghost predicate TooManyStates(d: Decoder, t: nat)
    requires d.Valid()
  {
    t < d.TokenCount() && d.PreviousCount(t) * d.CurrentCount(t) > 4096
  }

  /** Why a lattice is left to the hash decoder, if it is. */
  method DenseRefusal(d: Decoder) returns (r: Option<DenseFallback>)
    requires d.Valid() && d.codes.Some?
    ensures r == None <==> (forall t: nat :: !TooManyStates(d, t)) && (forall t: nat, i: nat, j: nat :: !SameIdentity(d, t, i, j))
    ensures r != Some(Tie)
    ensures r == Some(StateSpace) ==> exists t: nat :: TooManyStates(d, t)
    ensures r == Some(DuplicateIdentity) ==> exists t: nat, i: nat, j: nat :: SameIdentity(d, t, i, j)
  {
    hide Decoder.PreviousCount, Decoder.CurrentCount;
    for t := 0 to d.TokenCount()
      invariant forall u: nat :: u < t ==> !TooManyStates(d, u)
      invariant forall u: nat, i: nat, j: nat :: u < t ==> !SameIdentity(d, u, i, j)
    {
      if d.PreviousCount(t) * d.CurrentCount(t) > MAX_DENSE_STATES {
        assert TooManyStates(d, t);
        return Some(StateSpace);
      }
      var duplicate := DuplicateAt(d, t);
      if duplicate {
        return Some(DuplicateIdentity);
      }
    }
    return None;
  }

  method DuplicateAt(d: Decoder, t: nat) returns (duplicate: bool)
    requires d.Valid() && d.codes.Some? && t < d.TokenCount()
    ensures duplicate <==> exists i: nat, j: nat :: SameIdentity(d, t, i, j)
  {
    var start, end := d.starts[t], d.starts[t + 1];
    d.AtTokenInRange(t, start);
    d.AtTokenInRange(t, end - 1);
    for i := start to end
      invariant forall k: nat, j: nat :: k < i ==> !SameIdentity(d, t, k, j)
    {
      for j := i + 1 to end
        invariant forall k: nat :: k < j ==> !SameIdentity(d, t, i, k)
      {
        if d.codes.value[i - 2].canonical == d.codes.value[j - 2].canonical
          && d.codes.value[i - 2].javaHash == d.codes.value[j - 2].javaHash {
          assert SameIdentity(d, t, i, j);
          return true;
        }
      }
    }
    return false;
  }

  /** `p` is strictly better than every other choice of candidates. */
  ghost predicate UniqueBest(d: Decoder, p: seq<nat>)
    requires d.Valid()
  {
    ChoicesOf(d, p) && forall q :: ChoicesOf(d, q) && q != p ==> ChoiceScore(d, q) < ChoiceScore(d, p)
  }

  /** The terminal hypotheses before `k` carry full scores, the others still path scores. */
  ghost predicate Ended(d: Decoder, hypotheses: seq<Hypothesis>, paths: seq<seq<nat>>, current: seq<nat>, k: nat)
    requires d.Valid()
  {
    && Traces(d, hypotheses, paths) && k <= |current|
    && ActiveAt(d.TokenCount(), paths, current)
    && forall o :: 0 <= o < |current| ==> CarriesScore(d, hypotheses[current[o]], paths[current[o]], o < k)
  }

  lemma EndStep(d: Decoder, hypotheses: seq<Hypothesis>, paths: seq<seq<nat>>, current: seq<nat>, k: nat)
    requires d.Valid() && Ended(d, hypotheses, paths, current, k) && k < |current|
    ensures current[k] < |hypotheses| == |paths|
    ensures var h := hypotheses[current[k]];
      && d.InLayer(d.TokenCount(), h.current, 1)
      && h.previous < |d.analyses| + 2 && h.current < |d.analyses| + 2
      && CarriesScore(d, h.(score := h.score + d.Score(h.previous, h.current, 1)), paths[current[k]], true)
  {
    hide CarriesScore, Decoder.Score, Decoder.InLayer, EndsLike, Traces, Decoder.Valid;
    TracesLengths(d, hypotheses, paths);
    TraceEnds(d, hypotheses, paths, current[k]);
    assert CarriesScore(d, hypotheses[current[k]], paths[current[k]], false);
    EndFactor(d, hypotheses[current[k]], paths[current[k]]);
  }

  lemma EndNext(d: Decoder, hypotheses: seq<Hypothesis>, paths: seq<seq<nat>>, current: seq<nat>, k: nat, score: int)
    requires d.Valid() && Ended(d, hypotheses, paths, current, k) && k < |current|
    requires current[k] < |hypotheses| == |paths|
    requires CarriesScore(d, hypotheses[current[k]].(score := score), paths[current[k]], true)
    ensures Ended(d, hypotheses[current[k] := hypotheses[current[k]].(score := score)], paths, current, k + 1)
  {
    hide CarriesScore, Traces, Decoder.Valid;
    RescoreKeepsTraces(d, hypotheses, paths, current[k], score);
    assert forall o :: 0 <= o < |current| && o != k ==> current[o] != current[k];
  }

  lemma EndStart(d: Decoder, hypotheses: seq<Hypothesis>, paths: seq<seq<nat>>, current: seq<nat>)
    requires d.Valid() && Layer(d, d.TokenCount(), hypotheses, paths, current)
    ensures Ended(d, hypotheses, paths, current, 0) && LayerBest(d, d.TokenCount(), paths, current)
    ensures Different(paths, current)
  {
    hide Decoder.Score, Decoder.FullScore, Decoder.PathScore, Decoder.Path;
  }

  /** A path beaten by a terminal hypothesis does not end better than it. */
  lemma EndsNoBetter(d: Decoder, g: seq<nat>, h: seq<nat>)
    requires d.Valid() && Beats(d, g, h)
    ensures h == g || d.FullScore(h) < d.FullScore(g)
  {
    d.PathEnd(h);
    d.PathEnd(g);
    hide Decoder.Score, Decoder.FullScore, Decoder.PathScore, Decoder.Path;
  }

  /** Some terminal hypothesis ends at least as well as any given path. */
  lemma SomeEndsNoWorse(d: Decoder, paths: seq<seq<nat>>, current: seq<nat>, h: seq<nat>) returns (k: nat)
    requires d.Valid() && LayerBest(d, d.TokenCount(), paths, current) && d.Path(h) && |h| == d.TokenCount()
    ensures k < |current| && current[k] < |paths| && d.Path(paths[current[k]])
    ensures h == paths[current[k]] || d.FullScore(h) < d.FullScore(paths[current[k]])
  {
    assert Beaten(d, paths, current, h);
    hide LayerBest, Decoder.Path, Decoder.FullScore, Decoder.PathScore, Decoder.Valid;
    k :| 0 <= k < |current| && current[k] < |paths| && Beats(d, paths[current[k]], h);
    EndsNoBetter(d, paths[current[k]], h);
  }

  lemma BestBeatsPath(d: Decoder, hypotheses: seq<Hypothesis>, paths: seq<seq<nat>>, current: seq<nat>, best: nat, h: seq<nat>)
    requires d.Valid() && Ended(d, hypotheses, paths, current, |current|) && LayerBest(d, d.TokenCount(), paths, current)
    requires best < |current| && d.Path(h) && |h| == d.TokenCount()
    requires forall o :: 0 <= o < |current| && o != best ==> hypotheses[current[o]].score < hypotheses[current[best]].score
    ensures d.Path(paths[current[best]]) && (h == paths[current[best]] || d.FullScore(h) < d.FullScore(paths[current[best]]))
  {
    hide Decoder.Path, Decoder.FullScore, Decoder.Valid, Ended, LayerBest;
    var k := SomeEndsNoWorse(d, paths, current, h);
    Carries(d, hypotheses, paths, current, best);
    Carries(d, hypotheses, paths, current, k);
  }

  lemma Carries(d: Decoder, hypotheses: seq<Hypothesis>, paths: seq<seq<nat>>, current: seq<nat>, k: nat)
    requires d.Valid() && Ended(d, hypotheses, paths, current, |current|) && k < |current|
    ensures current[k] < |hypotheses| == |paths| && d.Path(paths[current[k]]) && |paths[current[k]]| == d.TokenCount()
    ensures hypotheses[current[k]].score == d.FullScore(paths[current[k]])
  {
    TracesLengths(d, hypotheses, paths);
    assert CarriesScore(d, hypotheses[current[k]], paths[current[k]], true);
    hide Traces, Decoder.Path, Decoder.FullScore, Decoder.PathScore, Decoder.Valid;
  }

  /** The strictly best terminal hypothesis stands for the unique best choice. */
  lemma BestIsUnique(d: Decoder, hypotheses: seq<Hypothesis>, paths: seq<seq<nat>>, current: seq<nat>, best: nat)
    requires d.Valid() && Ended(d, hypotheses, paths, current, |current|) && LayerBest(d, d.TokenCount(), paths, current)
    requires best < |current|
    requires forall o :: 0 <= o < |current| && o != best ==> hypotheses[current[o]].score < hypotheses[current[best]].score
    ensures d.Path(paths[current[best]]) && UniqueBest(d, Choices(d, paths[current[best]]))
  {
    var g := paths[current[best]];
    assert |g| == d.TokenCount() && CarriesScore(d, hypotheses[current[best]], g, true);
    hide Ended, LayerBest, Decoder.FullScore;
    ChoicesOfPath(d, g);
    var p := Choices(d, g);
    hide Decoder.Path, ChoicesOf, Choices, PathOf;
    forall q | ChoicesOf(d, q) && q != p
      ensures ChoiceScore(d, q) < ChoiceScore(d, p)
    {
      PathOfChoices(d, q);
      BestBeatsPath(d, hypotheses, paths, current, best, PathOf(d, q));
    }
  }

  /** The end factor for the terminal hypothesis at offset `k`. */
  method EndOne(d: Decoder, k: nat, scorer: TransitionScorer, ws: CompactDecodeWorkspace)
    requires scorer.Valid() && scorer.d == d && ws !in scorer.repr && d.Valid()
    requires Ended(d, ws.hypotheses, ws.paths, ws.denseCurrent, k) && k < |ws.denseCurrent|
    requires RowsFit(scorer.Rows(), d, ws.hypotheses)
    modifies ws`hypotheses, scorer.repr
    ensures scorer.Valid() && RowsFit(scorer.Rows(), d, ws.hypotheses)
    ensures Ended(d, ws.hypotheses, ws.paths, ws.denseCurrent, k + 1)
    ensures |ws.hypotheses| == |old(ws.hypotheses)| && ws.denseCurrent[k] < |ws.hypotheses|
    ensures forall i :: 0 <= i < |ws.hypotheses| && i != ws.denseCurrent[k] ==> ws.hypotheses[i] == old(ws.hypotheses)[i]
  {
    hide Decoder.Valid, TransitionScorer.Valid, TransitionScorer.Rows, RowsFit, RowFits, Ended, CarriesScore,
      Decoder.InLayer, Decoder.Score;
    EndStep(d, ws.hypotheses, ws.paths, ws.denseCurrent, k);
    var i := ws.denseCurrent[k];
    var h := ws.hypotheses[i];
    ghost var rowPair := scorer.Rows();
    RowOf(rowPair, d, ws.hypotheses, i);
    var score, _ := scorer.Transition(d.TokenCount(), h.previous, h.current, 1, h.row, true);
    EndNext(d, ws.hypotheses, ws.paths, ws.denseCurrent, k, h.score + score);
    RowsFitRescored(rowPair, scorer.Rows(), d, ws.hypotheses, i, h.score + score);
    ws.hypotheses := ws.hypotheses[i := h.(score := h.score + score)];
  }

  lemma EndedShape(d: Decoder, hypotheses: seq<Hypothesis>, paths: seq<seq<nat>>, current: seq<nat>, k: nat)
    requires d.Valid() && Ended(d, hypotheses, paths, current, k)
    ensures forall o :: 0 <= o < |current| ==> current[o] < |hypotheses|
    ensures forall o, u :: 0 <= o < u < |current| ==> current[o] != current[u]
  {
    TracesLengths(d, hypotheses, paths);
    hide Traces, CarriesScore;
  }

  /** Among the first `k` terminal hypotheses, the one at offset `b` is strictly best. */
  ghost predicate StrictlyBest(hypotheses: seq<Hypothesis>, current: seq<nat>, k: nat, b: nat) {
    && b < k <= |current|
    && (forall o :: 0 <= o < |current| ==> current[o] < |hypotheses|)
    && forall o :: 0 <= o < k && o != b ==> hypotheses[current[o]].score < hypotheses[current[b]].score
  }

  lemma StrictlyBestFirst(hypotheses: seq<Hypothesis>, current: seq<nat>)
    requires current != [] && forall o :: 0 <= o < |current| ==> current[o] < |hypotheses|
    ensures StrictlyBest(hypotheses, current, 1, 0)
  {
  }

  lemma StrictlyBestNext(before: seq<Hypothesis>, after: seq<Hypothesis>, current: seq<nat>, k: nat, b: nat)
    requires StrictlyBest(before, current, k, b) && k < |current| && |after| == |before|
    requires forall o, u :: 0 <= o < u < |current| ==> current[o] != current[u]
    requires forall i :: 0 <= i < |after| && i != current[k] ==> after[i] == before[i]
    ensures b < k && current[k] < |after| && current[b] < |after|
    ensures after[current[k]].score < after[current[b]].score ==> StrictlyBest(after, current, k + 1, b)
    ensures after[current[b]].score < after[current[k]].score ==> StrictlyBest(after, current, k + 1, k)
  {
  }

  /** Adds the end factors and finds the strictly best terminal hypothesis; `None` reports a tie. */
  method EndDense(d: Decoder, scorer: TransitionScorer, ws: CompactDecodeWorkspace)
    returns (best: Option<nat>, ghost b: nat)
    requires scorer.Valid() && scorer.d == d && ws !in scorer.repr && d.Valid()
    requires Layer(d, d.TokenCount(), ws.hypotheses, ws.paths, ws.denseCurrent) && ws.denseCurrent != []
    requires RowsFit(scorer.Rows(), d, ws.hypotheses)
    modifies ws`hypotheses, scorer.repr
    ensures scorer.Valid()
    ensures best.Some? ==> Ended(d, ws.hypotheses, ws.paths, ws.denseCurrent, |ws.denseCurrent|)
    ensures best.Some? ==>
      StrictlyBest(ws.hypotheses, ws.denseCurrent, |ws.denseCurrent|, b) && best.value == ws.denseCurrent[b]
    ensures best.None? ==> HasTie(d)
  {
    hide Different, HasTie, Decoder.Valid, TransitionScorer.Valid, TransitionScorer.Rows, RowsFit, Ended, Layer, LayerBest, StrictlyBest;
    EndStart(d, ws.hypotheses, ws.paths, ws.denseCurrent);
    best := None;
    b := 0;
    var current := ws.denseCurrent;
    for k := 0 to |current|
      invariant scorer.Valid() && RowsFit(scorer.Rows(), d, ws.hypotheses)
      invariant Ended(d, ws.hypotheses, ws.paths, current, k)
      invariant |ws.hypotheses| == |old(ws.hypotheses)|
      invariant if k == 0 then best == None
        else StrictlyBest(ws.hypotheses, current, k, b) && b < k && best == Some(current[b])
    {
      best, b := EndNextBest(d, k, best, b, scorer, ws);
      if best == None {
        return;
      }
    }
  }

  /** One step of the final loop: `None` reports a tie with the best so far. */
  method EndNextBest(d: Decoder, k: nat, best: Option<nat>, ghost b: nat, scorer: TransitionScorer, ws: CompactDecodeWorkspace)
    returns (best': Option<nat>, ghost b': nat)
    requires scorer.Valid() && scorer.d == d && ws !in scorer.repr && d.Valid()
    requires Ended(d, ws.hypotheses, ws.paths, ws.denseCurrent, k) && k < |ws.denseCurrent|
    requires RowsFit(scorer.Rows(), d, ws.hypotheses)
    requires if k == 0 then best == None
             else StrictlyBest(ws.hypotheses, ws.denseCurrent, k, b) && b < k && best == Some(ws.denseCurrent[b])
    requires Different(ws.paths, ws.denseCurrent)
    modifies ws`hypotheses, scorer.repr
    ensures scorer.Valid() && RowsFit(scorer.Rows(), d, ws.hypotheses)
    ensures Ended(d, ws.hypotheses, ws.paths, ws.denseCurrent, k + 1)
    ensures |ws.hypotheses| == |old(ws.hypotheses)|
    ensures best'.Some? ==>
      StrictlyBest(ws.hypotheses, ws.denseCurrent, k + 1, b') && b' < k + 1 && best' == Some(ws.denseCurrent[b'])
    ensures best'.None? ==> HasTie(d)
  {
    hide Different, HasTie, Decoder.Valid, TransitionScorer.Valid, TransitionScorer.Rows, RowsFit, Ended, StrictlyBest;
    EndedShape(d, ws.hypotheses, ws.paths, ws.denseCurrent, k);
    ghost var before := ws.hypotheses;
    EndOne(d, k, scorer, ws);
    var index := ws.denseCurrent[k];
    if best == None {
      StrictlyBestFirst(ws.hypotheses, ws.denseCurrent);
      return Some(index), k;
    }
    StrictlyBestNext(before, ws.hypotheses, ws.denseCurrent, k, b);
    var bestScore, candidateScore := ws.hypotheses[best.value].score, ws.hypotheses[index].score;
    if bestScore == candidateScore {
      EqualEnds(d, ws.hypotheses, ws.paths, ws.denseCurrent, k, b);
      return None, 0;
    }
    if bestScore < candidateScore {
      return Some(index), k;
    }
    return best, b;
  }

  lemma EqualEnds(d: Decoder, hypotheses: seq<Hypothesis>, paths: seq<seq<nat>>, current: seq<nat>, k: nat, b: nat)
    requires d.Valid() && Ended(d, hypotheses, paths, current, k + 1) && Different(paths, current)
    requires b < k < |current| && current[b] < |hypotheses| && current[k] < |hypotheses|
    requires hypotheses[current[b]].score == hypotheses[current[k]].score
    ensures HasTie(d)
  {
    hide Traces, Decoder.FullScore, Decoder.PathScore, Decoder.Path;
    assert CarriesScore(d, hypotheses[current[b]], paths[current[b]], true);
    assert CarriesScore(d, hypotheses[current[k]], paths[current[k]], true);
    assert EndTied(d, paths[current[b]], paths[current[k]]);
  }

  lemma SomeActive(d: Decoder, paths: seq<seq<nat>>, current: seq<nat>)
    requires d.Valid() && LayerBest(d, d.TokenCount(), paths, current)
    ensures current != []
  {
    var g := SomePath(d);
    assert Beaten(d, paths, current, g);
  }

  lemma RootLayer(d: Decoder, row: nat)
    requires d.Valid()
    ensures Layer(d, 0, [Root(row)], [[]], [0])
  {
    hide LayerBest;
    assert d.Path([]);
    RootIsBest(d);
  }

  lemma RootIsBest(d: Decoder)
    requires d.Valid()
    ensures LayerBest(d, 0, [[]], [0])
  {
    hide Decoder.PathScore, Beats;
    forall g | d.Path(g) && |g| == 0
      ensures Beaten(d, [[]], [0], g)
    {
      RootBeats(d, g);
      var k := 0;
      assert 0 <= k < |[0]| && Beats(d, [[]][[0][k]], g);
    }
  }

  lemma RootBeats(d: Decoder, g: seq<nat>)
    requires d.Valid() && d.Path(g) && |g| == 0
    ensures Beats(d, [], g)
  {
    assert g == [];
  }

  method StartDense(d: Decoder, scorer: TransitionScorer, ws: CompactDecodeWorkspace)
    requires scorer.Valid() && scorer.d == d && ws !in scorer.repr && d.Valid()
    modifies ws`hypotheses, ws`paths, ws`denseSlots, ws`denseNext, ws`denseCurrent, scorer.repr
    ensures scorer.Valid() && RowsFit(scorer.Rows(), d, ws.hypotheses)
    ensures StateBound(d, d.TokenCount()) <= |ws.denseSlots|
    ensures Layer(d, 0, ws.hypotheses, ws.paths, ws.denseCurrent)
  {
    hide Decoder.Valid, TransitionScorer.Valid, TransitionScorer.Rows, Layer, StateBound, RowFits;
    ws.denseSlots := Resized(ws.denseSlots, StateBound(d, d.TokenCount()), NO_INDEX);
    ws.denseNext := [];
    var row := scorer.InitialScoreRow();
    RootLayer(d, row);
    ws.hypotheses := [Root(row)];
    ws.paths := [[]];
    ws.denseCurrent := [0];
  }

  lemma LayerEnd(d: Decoder, hypotheses: seq<Hypothesis>, paths: seq<seq<nat>>, current: seq<nat>)
    requires d.Valid() && Layer(d, d.TokenCount(), hypotheses, paths, current)
    ensures current != [] && LayerBest(d, d.TokenCount(), paths, current)
  {
    hide Traces, Scored, ActiveAt, LayerBest, Different;
    SomeActive(d, paths, current);
  }

  lemma EndedTraces(d: Decoder, hypotheses: seq<Hypothesis>, paths: seq<seq<nat>>, current: seq<nat>, b: nat)
    requires d.Valid() && Ended(d, hypotheses, paths, current, |current|) && LayerBest(d, d.TokenCount(), paths, current)
    requires StrictlyBest(hypotheses, current, |current|, b)
    ensures Traces(d, hypotheses, paths) && current[b] < |hypotheses| == |paths| && |paths[current[b]]| == d.TokenCount()
    ensures d.Path(paths[current[b]]) && UniqueBest(d, Choices(d, paths[current[b]]))
  {
    TracesLengths(d, hypotheses, paths);
    hide Traces, CarriesScore, LayerBest;
    BestIsUnique(d, hypotheses, paths, current, b);
  }

  method FinishDense(d: Decoder, scorer: TransitionScorer, ws: CompactDecodeWorkspace)
    returns (r: Result<DenseOutcome, DecodeError>)
    requires scorer.Valid() && scorer.d == d && ws !in scorer.repr && d.Valid()
    requires Layer(d, d.TokenCount(), ws.hypotheses, ws.paths, ws.denseCurrent)
    requires RowsFit(scorer.Rows(), d, ws.hypotheses)
    modifies ws`hypotheses, scorer.repr
    ensures scorer.Valid()
    ensures r.Success? && (r.value == Fallback(Tie) || (r.value.Selected? && UniqueBest(d, r.value.choices)))
    ensures r.value == Fallback(Tie) ==> HasTie(d)
  {
    hide HasTie, Decoder.Valid, TransitionScorer.Valid, TransitionScorer.Rows, RowsFit, Layer, LayerBest, Ended, StrictlyBest,
      Traces, UniqueBest, Choices, Decoder.Path;
    LayerEnd(d, ws.hypotheses, ws.paths, ws.denseCurrent);
    var best, b := EndDense(d, scorer, ws);
    if best == None {
      return Success(Fallback(Tie));
    }
    EndedTraces(d, ws.hypotheses, ws.paths, ws.denseCurrent, b);
    var choices := ReconstructSelected(d, ws.hypotheses, best.value, ws.paths);
    r := Success(Selected(choices.value));
  }

  /** Decodes a lattice with scoring codes, or leaves it to the hash decoder. Whatever the score cache
      retained before, a selected choice is the unique best one. */
  method DecodeDense(d: Decoder, scorer: TransitionScorer, ws: CompactDecodeWorkspace)
    returns (r: Result<DenseOutcome, DecodeError>)
    requires scorer.Valid() && scorer.d == d && ws !in scorer.repr && d.Valid() && d.codes.Some?
    modifies ws`hypotheses, ws`paths, ws`denseSlots, ws`denseNext, ws`denseCurrent, scorer.repr
    ensures scorer.Valid()
    ensures r.Success? && r.value.Selected? ==> UniqueBest(d, r.value.choices)
    ensures r.Success? && r.value == Fallback(StateSpace) ==> exists t: nat :: TooManyStates(d, t)
    ensures r.Success? && r.value == Fallback(DuplicateIdentity) ==> exists t: nat, i: nat, j: nat :: SameIdentity(d, t, i, j)
    ensures r.Success? && r.value == Fallback(Tie) ==> HasTie(d)
    ensures r.Failure? ==> r.error == IndexOverflow && NO_INDEX <= |ws.hypotheses|
  {
    hide HasTie, Decoder.Valid, TransitionScorer.Valid, TransitionScorer.Rows, RowsFit, Layer, Ended, StateBound, TooManyStates,
      SameIdentity, UniqueBest, Decoder.PreviousCount, Decoder.CurrentCount;
    var refusal := DenseRefusal(d);
    if refusal.Some? {
      return Success(Fallback(refusal.value));
    }
    StartDense(d, scorer, ws);
    for t := 0 to d.TokenCount()
      invariant scorer.Valid() && RowsFit(scorer.Rows(), d, ws.hypotheses)
      invariant StateBound(d, d.TokenCount()) <= |ws.denseSlots|
      invariant Layer(d, t, ws.hypotheses, ws.paths, ws.denseCurrent)
    {
      LayerStates(d, t);
      var tie := DenseLayer(d, t, scorer, ws);
      if tie.Failure? {
        return Failure(tie.error);
      }
      if tie.value {
        return Success(Fallback(Tie));
      }
    }
    r := FinishDense(d, scorer, ws);
  }
}
