/** Scoring one transition of the lattice through prepared features and the shared caches. */
module Scoring {
  import opened Wrappers
  import opened FeatureTable
  import opened Trigram
  import opened ScoreCache
  import opened Lattice

  /** A signature names one word; the two boundary signatures name the sentence boundaries. */
  ghost predicate CodeFits(lex: nat -> WordData, code: ScoringCode, word: WordData) {
    && (code.cacheSignature < SIGNATURES ==> lex(code.cacheSignature) == word)
    && (code.signature <= PREPARED_LIMIT ==> lex(code.signature) == word)
  }

  /** The words of a lattice are those the signatures name. */
  ghost predicate Fits(lex: nat -> WordData, d: Decoder)
    requires d.Valid()
  {
    forall i: nat :: i < |d.analyses| + 2 && d.Code(i).Some? ==> CodeFits(lex, d.Code(i).value, d.Word(i).word)
  }

  /** The score a packed key stands for. */
  ghost function KeyScore(m: Model, lex: nat -> WordData, key: nat): int {
    TrigramScore(m, lex(key % SIGNATURES), lex(key / SIGNATURES % SIGNATURES), lex(ThirdPart(key)))
  }

  lemma KeyScoreOfPacked(m: Model, lex: nat -> WordData, first: nat, second: nat, third: nat)
    requires first < SIGNATURES && second < SIGNATURES && third < SIGNATURES
    ensures KeyScore(m, lex, FullKey(PairKey(first, second), third)) == TrigramScore(m, lex(first), lex(second), lex(third))
  {
    hide TrigramScore;
    var key := FullKey(PairKey(first, second), third);
    assert key % SIGNATURES == first && key / SIGNATURES % SIGNATURES == second && key / PAIRS == third;
  }

  // ----- prepared words -----

  const PREPARED_LIMIT: nat := 2_000_000

  ghost predicate Prepared(m: Model, lex: nat -> WordData, entries: seq<Option<PreparedWord>>, offset: nat) {
    forall i :: 0 <= i < |entries| && entries[i].Some? ==> entries[i].value == PrepareWord(m, lex(i + offset))
  }

  /** The bank of prepared words shared by workers; a slot is set once. */
  class SharedPreparedWordCache {
    ghost const model: Model
    ghost const lex: nat -> WordData
    var entries: seq<Option<PreparedWord>>

    ghost predicate Valid()
      reads this
    {
      Prepared(model, lex, entries, 0)
    }

    constructor (slots: nat, ghost model: Model, ghost lex: nat -> WordData)
      ensures Valid() && |entries| == slots && this.model == model && this.lex == lex
    {
      this.model := model;
      this.lex := lex;
      entries := seq(slots, _ => None);
    }

    method Ensure(index: nat, m: Model, word: WordData)
      requires Valid() && index < |entries| && m == model && word == lex(index)
      modifies this
      ensures Valid() && |entries| == |old(entries)| && entries[index].Some?
      ensures forall i :: 0 <= i < |entries| && old(entries)[i].Some? ==> entries[i] == old(entries)[i]
    {
      if entries[index] == None {
        entries := entries[index := Some(PrepareWord(m, word))];
      }
    }
  }

  datatype PreparedWordLocation = Shared(index: nat) | Local(index: nat)

  /** The score cache of one worker, kept over many sentences. */
  class DisambiguationScoreCache {
    ghost const model: Model
    ghost const lex: nat -> WordData
    const trigrams: TrigramScoreCache
    var shared: SharedPreparedWordCache?
    var preparedWords: seq<Option<PreparedWord>>

    ghost function Footprint(): set<object>
      reads this
    {
      {this, trigrams, trigrams.overflow} + (if shared == null then {} else {shared})
    }

    ghost function SharedSlots(): nat
      reads this, Footprint()
    {
      if shared == null then 0 else |shared.entries|
    }

    ghost predicate Valid()
      reads this, Footprint()
    {
      && trigrams.Valid()
      && (forall key: nat :: trigrams.truth(key) == KeyScore(model, lex, key))
      && (shared != null ==> shared.Valid() && shared.model == model && shared.lex == lex)
      && Prepared(model, lex, preparedWords, SharedSlots())
    }

    constructor (pairSlots: nat, rowCapacity: nat, overflowSlots: nat, pairHash: nat -> nat, overflowHash: nat -> nat,
                 ghost model: Model, ghost lex: nat -> WordData)
      requires rowCapacity < pairSlots && rowCapacity < INVALID_ROW && 0 < overflowSlots
      ensures Valid() && fresh(Footprint()) && shared == null && this.model == model && this.lex == lex
    {
      this.model := model;
      this.lex := lex;
      trigrams := new TrigramScoreCache(pairSlots, rowCapacity, overflowSlots, pairHash, overflowHash,
                                        (key: nat) => KeyScore(model, lex, key));
      shared := null;
      preparedWords := [];
    }

    /** Installing a bank renumbers the local words, so they are forgotten. */
    method SetSharedPreparedWords(bank: SharedPreparedWordCache)
      requires Valid() && bank.Valid() && bank.model == model && bank.lex == lex
      modifies this
      ensures Valid() && shared == bank && trigrams.rowPair == old(trigrams.rowPair)
    {
      hide TrigramScoreCache.Valid, KeyScore;
      shared := bank;
      preparedWords := [];
    }

    method Clear()
      requires Valid()
      modifies Footprint()
      ensures Valid() && shared == old(shared) && trigrams.rowPair == []
    {
      trigrams.Clear();
      preparedWords := seq(|preparedWords|, _ => None);
    }

    /** The prepared word at a location. */
    function At(location: PreparedWordLocation): Option<PreparedWord>
      reads this, Footprint()
    {
      match location
      case Shared(i) => if shared != null && i < |shared.entries| then shared.entries[i] else None
      case Local(i) => if i < |preparedWords| then preparedWords[i] else None
    }

    /** Prepares the word of a stable signature in the shared bank or locally. */
    method EnsurePreparedWord(signature: nat, m: Model, word: WordData) returns (r: Option<PreparedWordLocation>)
      requires Valid() && m == model && (signature <= PREPARED_LIMIT ==> word == lex(signature))
      modifies Footprint()
      ensures Valid() && shared == old(shared) && trigrams.rowPair == old(trigrams.rowPair)
      ensures r.Some? <==> signature <= 2_000_000
      ensures r.Some? ==> At(r.value) == Some(PrepareWord(m, word))
      ensures forall l :: old(At(l)).Some? ==> At(l) == old(At(l))
    {
      if signature > PREPARED_LIMIT {
        return None;
      }
      hide PrepareWord, TrigramScore, KeyScore, TrigramScoreCache.Valid;
      var localIndex := signature;
      if shared != null {
        if signature < |shared.entries| {
          shared.Ensure(signature, m, word);
          return Some(Shared(signature));
        }
        localIndex := signature - |shared.entries|;
      }
      EnsureLocal(localIndex, m, word);
      return Some(Local(localIndex));
    }

    method EnsureLocal(index: nat, m: Model, word: WordData)
      requires Valid() && m == model && word == lex(index + SharedSlots())
      modifies this`preparedWords
      ensures Valid() && At(Local(index)) == Some(PrepareWord(m, word))
      ensures forall l :: old(At(l)).Some? ==> At(l) == old(At(l))
    {
      hide PrepareWord, TrigramScore, KeyScore, TrigramScoreCache.Valid;
      if |preparedWords| <= index {
        preparedWords := preparedWords + seq(index + 1 - |preparedWords|, _ => None);
      }
      if preparedWords[index] == None {
        preparedWords := preparedWords[index := Some(PrepareWord(m, word))];
      }
    }

    method PreparedTriple(m: Model, s1: nat, w1: WordData, s2: nat, w2: WordData, s3: nat, w3: WordData)
      returns (r: Option<(PreparedWord, PreparedWord, PreparedWord)>)
      requires Valid() && m == model
      requires (s1 <= PREPARED_LIMIT ==> w1 == lex(s1)) && (s2 <= PREPARED_LIMIT ==> w2 == lex(s2))
      requires s3 <= PREPARED_LIMIT ==> w3 == lex(s3)
      modifies Footprint()
      ensures Valid() && shared == old(shared) && trigrams.rowPair == old(trigrams.rowPair)
      ensures r.Some? ==> r.value == (PrepareWord(m, w1), PrepareWord(m, w2), PrepareWord(m, w3))
    {
      hide PrepareWord, Valid;
      var first := EnsurePreparedWord(s1, m, w1);
      var second := EnsurePreparedWord(s2, m, w2);
      var third := EnsurePreparedWord(s3, m, w3);
      if first == None || second == None || third == None {
        return None;
      }
      return Some((At(first.value).value, At(second.value).value, At(third.value).value));
    }
  }

  // ----- the per-sentence memo of prepared features -----

  function PairSlot(previous: nat, current: nat, count: nat): nat {
    previous * count + current
  }

  lemma PairSlotBelow(p: nat, c: nat, previousCount: nat, count: nat)
    requires p < previousCount && c < count
    ensures PairSlot(p, c, count) < previousCount * count
  {
    MulMonotone(p + 1, previousCount, count);
  }

  lemma {:induction false} MulMonotone(a: nat, b: nat, c: nat)
    requires a <= b
    ensures a * c <= b * c
  {
    if a < b {
      MulMonotone(a, b - 1, c);
    }
  }

  lemma PairSlotInjective(p: nat, c: nat, q: nat, e: nat, count: nat)
    requires c < count && e < count && PairSlot(p, c, count) == PairSlot(q, e, count)
    ensures p == q && c == e
  {
    assert (p - q) * count == e - c;
    assert p - q >= 1 ==> (p - q) * count >= count;
    assert q - p >= 1 ==> (q - p) * count >= count;
  }

  datatype PreparedPairLayer = PreparedPairLayer(
    previousBase: nat, currentBase: nat, currentCount: nat, pairs: seq<Option<PreparedPair>>)

  /** The slot of a pair of analyses is empty or holds the features of that very pair. */
  ghost predicate PairHolds(d: Decoder, layer: PreparedPairLayer, p: nat, c: nat)
    requires p + layer.previousBase < |d.analyses| + 2 && c + layer.currentBase < |d.analyses| + 2
  {
    var slot := PairSlot(p, c, layer.currentCount);
    && slot < |layer.pairs|
    && (layer.pairs[slot].Some? ==>
          layer.pairs[slot].value
          == PreparePair(d.model, d.Word(p + layer.previousBase).word, d.Word(c + layer.currentBase).word))
  }

  ghost predicate LayerHolds(d: Decoder, t: nat, layer: PreparedPairLayer)
    requires d.Valid() && t <= d.TokenCount()
  {
    && layer.previousBase == d.PreviousFirst(t)
    && layer.currentBase == d.CurrentFirst(t)
    && layer.currentCount == d.CurrentCount(t)
    && layer.previousBase + d.PreviousCount(t) <= |d.analyses| + 2
    && layer.currentBase + layer.currentCount <= |d.analyses| + 2
    && forall p: nat, c: nat :: p < d.PreviousCount(t) && c < layer.currentCount ==> PairHolds(d, layer, p, c)
  }

  lemma SetPairHolds(d: Decoder, t: nat, layer: PreparedPairLayer, p: nat, c: nat)
    requires d.Valid() && t <= d.TokenCount() && LayerHolds(d, t, layer)
    requires p < d.PreviousCount(t) && c < layer.currentCount
    ensures PairSlot(p, c, layer.currentCount) < |layer.pairs|
    ensures LayerHolds(d, t, layer.(pairs := layer.pairs[PairSlot(p, c, layer.currentCount) :=
      Some(PreparePair(d.model, d.Word(p + layer.previousBase).word, d.Word(c + layer.currentBase).word))]))
  {
    hide PreparePair;
    assert PairHolds(d, layer, p, c);
    var slot := PairSlot(p, c, layer.currentCount);
    var after := layer.(pairs := layer.pairs[slot :=
      Some(PreparePair(d.model, d.Word(p + layer.previousBase).word, d.Word(c + layer.currentBase).word))]);
    forall q: nat, e: nat | q < d.PreviousCount(t) && e < layer.currentCount
      ensures PairHolds(d, after, q, e)
    {
      assert PairHolds(d, layer, q, e);
      if PairSlot(q, e, layer.currentCount) == slot {
        PairSlotInjective(p, c, q, e, layer.currentCount);
      }
    }
  }

  lemma EmptyLayerHolds(d: Decoder, t: nat, layer: PreparedPairLayer)
    requires d.Valid() && t <= d.TokenCount()
    requires layer.previousBase == d.PreviousFirst(t) && layer.currentBase == d.CurrentFirst(t)
    requires layer.currentCount == d.CurrentCount(t)
    requires |layer.pairs| == d.PreviousCount(t) * layer.currentCount
    requires forall i :: 0 <= i < |layer.pairs| ==> layer.pairs[i] == None
    ensures LayerHolds(d, t, layer)
  {
    d.InLayerInRange(t, layer.previousBase + d.PreviousCount(t) - 1, layer.currentBase + layer.currentCount - 1);
    forall p: nat, c: nat | p < d.PreviousCount(t) && c < layer.currentCount
      ensures PairHolds(d, layer, p, c)
    {
      PairSlotBelow(p, c, d.PreviousCount(t), layer.currentCount);
    }
  }

  class CompactPreparedFeatures {
    ghost const d: Decoder
    var words: seq<Option<PreparedWord>>
    var layers: seq<PreparedPairLayer>

    ghost predicate Valid()
      reads this
    {
      && d.Valid()
      && |words| == |d.analyses| + 2
      && (forall i :: 0 <= i < |words| && words[i].Some? ==> words[i].value == PrepareWord(d.model, d.Word(i).word))
      && |layers| == d.TokenCount() + 1
      && forall t :: 0 <= t < |layers| ==> LayerHolds(d, t, layers[t])
    }

    constructor (d: Decoder)
      requires d.Valid()
      ensures Valid() && this.d == d
    {
      this.d := d;
      words := seq(|d.analyses| + 2, _ => None);
      var made: seq<PreparedPairLayer> := [];
      for position := 0 to d.TokenCount() + 1
        invariant |made| == position
        invariant forall t :: 0 <= t < position ==> LayerHolds(d, t, made[t])
      {
        var layer := PreparedPairLayer(d.PreviousFirst(position), d.CurrentFirst(position), d.CurrentCount(position),
                                       seq(d.PreviousCount(position) * d.CurrentCount(position), _ => None));
        EmptyLayerHolds(d, position, layer);
        made := made + [layer];
      }
      layers := made;
    }

    method EnsureWord(d: Decoder, index: nat) returns (prepared: PreparedWord)
      requires Valid() && d == this.d && index < |d.analyses| + 2
      modifies this`words
      ensures Valid() && prepared == PrepareWord(d.model, d.Word(index).word)
    {
      hide LayerHolds, PrepareWord;
      if words[index] == None {
        words := words[index := Some(PrepareWord(d.model, d.Word(index).word))];
      }
      prepared := words[index].value;
    }

    method EnsurePair(d: Decoder, layer: nat, previous: nat, current: nat) returns (prepared: PreparedPair)
      requires Valid() && d == this.d && d.InLayer(layer, previous, current)
      requires previous < |d.analyses| + 2 && current < |d.analyses| + 2
      modifies this`layers
      ensures Valid() && prepared == PreparePair(d.model, d.Word(previous).word, d.Word(current).word)
    {
      hide PreparePair, PrepareWord;
      var l := layers[layer];
      assert LayerHolds(d, layer, l);
      var p, c := previous - l.previousBase, current - l.currentBase;
      assert PairHolds(d, l, p, c);
      SetPairHolds(d, layer, l, p, c);
      var slot := PairSlot(p, c, l.currentCount);
      hide LayerHolds;
      if l.pairs[slot] == None {
        l := l.(pairs := l.pairs[slot := Some(PreparePair(d.model, d.Word(previous).word, d.Word(current).word))]);
        layers := layers[layer := l];
      }
      prepared := l.pairs[slot].value;
    }
  }

  // ----- one transition -----

  /** The key under which a transition is cached, when all three signatures can be packed. */
  function ScoreKey(d: Decoder, w1: nat, w2: nat, w3: nat): Option<nat>
    requires d.Valid() && w1 < |d.analyses| + 2 && w2 < |d.analyses| + 2 && w3 < |d.analyses| + 2
  {
    if d.Code(w1).Some? && d.Code(w2).Some? && d.Code(w3).Some? then
      PackScoreKey(d.Code(w1).value.cacheSignature, d.Code(w2).value.cacheSignature, d.Code(w3).value.cacheSignature)
    else None
  }

  /** A carried row is invalid or belongs to the signatures of the state that carries it. */
  ghost predicate RowFits(rowPair: seq<nat>, d: Decoder, row: nat, previous: nat, current: nat)
    requires d.Valid() && previous < |d.analyses| + 2 && current < |d.analyses| + 2
  {
    row == INVALID_ROW ||
    (&& d.Code(previous).Some? && d.Code(current).Some?
     && d.Code(previous).value.cacheSignature < SIGNATURES && d.Code(current).value.cacheSignature < SIGNATURES
     && row < |rowPair|
     && rowPair[row] == PairKey(d.Code(previous).value.cacheSignature, d.Code(current).value.cacheSignature))
  }

  lemma ScoreKeyParts(d: Decoder, w1: nat, w2: nat, w3: nat)
    requires d.Valid() && w1 < |d.analyses| + 2 && w2 < |d.analyses| + 2 && w3 < |d.analyses| + 2
    requires ScoreKey(d, w1, w2, w3).Some?
    ensures var key := ScoreKey(d, w1, w2, w3).value;
      && d.Code(w1).Some? && d.Code(w2).Some? && d.Code(w3).Some?
      && RowPart(key) == PairKey(d.Code(w1).value.cacheSignature, d.Code(w2).value.cacheSignature)
      && NextRowPart(key) == PairKey(d.Code(w2).value.cacheSignature, d.Code(w3).value.cacheSignature)
      && ThirdPart(key) < SIGNATURES && key < EMPTY_KEY && RowPart(key) < EMPTY_KEY && NextRowPart(key) < EMPTY_KEY
      && d.Code(w1).value.cacheSignature < SIGNATURES && d.Code(w2).value.cacheSignature < SIGNATURES
      && d.Code(w3).value.cacheSignature < SIGNATURES
  {
    PackedParts(d.Code(w1).value.cacheSignature, d.Code(w2).value.cacheSignature, d.Code(w3).value.cacheSignature);
  }

  /** The cached score of a transition is its score. */
  lemma KeyScoreOfTransition(lex: nat -> WordData, d: Decoder, w1: nat, w2: nat, w3: nat)
    requires d.Valid() && w1 < |d.analyses| + 2 && w2 < |d.analyses| + 2 && w3 < |d.analyses| + 2
    requires Fits(lex, d) && ScoreKey(d, w1, w2, w3).Some?
    ensures KeyScore(d.model, lex, ScoreKey(d, w1, w2, w3).value) == d.Score(w1, w2, w3)
  {
    hide TrigramScore;
    assert CodeFits(lex, d.Code(w1).value, d.Word(w1).word);
    assert CodeFits(lex, d.Code(w2).value, d.Word(w2).word);
    assert CodeFits(lex, d.Code(w3).value, d.Word(w3).word);
    KeyScoreOfPacked(d.model, lex, d.Code(w1).value.cacheSignature, d.Code(w2).value.cacheSignature,
                     d.Code(w3).value.cacheSignature);
  }

  ghost function FootprintOf(cache: DisambiguationScoreCache?): set<object>
    reads cache, if cache == null then {} else cache.Footprint()
  {
    if cache == null then {} else cache.Footprint()
  }

  /** A cache a decoder may use: sound, and filled for the same model and signatures. */
  ghost predicate Usable(cache: DisambiguationScoreCache?, d: Decoder)
    requires d.Valid()
    reads FootprintOf(cache), cache
  {
    cache != null ==> cache.Valid() && cache.model == d.model && Fits(cache.lex, d)
  }

  ghost function RowPairs(cache: DisambiguationScoreCache?): seq<nat>
    reads FootprintOf(cache), cache
  {
    if cache == null then [] else cache.trigrams.rowPair
  }

  /** The three prepared words from the shared caches, when all three have stable signatures. */
  method CachedWords(d: Decoder, w1: nat, w2: nat, w3: nat, cache: DisambiguationScoreCache)
    returns (r: Option<(PreparedWord, PreparedWord, PreparedWord)>)
    requires d.Valid() && w1 < |d.analyses| + 2 && w2 < |d.analyses| + 2 && w3 < |d.analyses| + 2
    requires Usable(cache, d)
    modifies cache.Footprint()
    ensures Usable(cache, d) && cache.Footprint() == old(cache.Footprint())
    ensures cache.trigrams.rowPair == old(cache.trigrams.rowPair)
    ensures r.Some? ==> r.value == (PrepareWord(d.model, d.Word(w1).word), PrepareWord(d.model, d.Word(w2).word),
                                    PrepareWord(d.model, d.Word(w3).word))
  {
    if d.Code(w1) == None || d.Code(w2) == None || d.Code(w3) == None {
      return None;
    }
    assert CodeFits(cache.lex, d.Code(w1).value, d.Word(w1).word);
    assert CodeFits(cache.lex, d.Code(w2).value, d.Word(w2).word);
    assert CodeFits(cache.lex, d.Code(w3).value, d.Word(w3).word);
    hide PrepareWord, DisambiguationScoreCache.Valid, Fits;
    r := cache.PreparedTriple(d.model, d.Code(w1).value.signature, d.Word(w1).word,
                              d.Code(w2).value.signature, d.Word(w2).word,
                              d.Code(w3).value.signature, d.Word(w3).word);
  }

  /** Scores a transition from prepared features, without reading retained scores. */
  method ScoreUncached(d: Decoder, memo: CompactPreparedFeatures, layer: nat, w1: nat, w2: nat, w3: nat,
                       cache: DisambiguationScoreCache?, scratch: FeatureScratch) returns (score: int)
    requires d.Valid() && d.Scorable() && w1 < |d.analyses| + 2 && w2 < |d.analyses| + 2 && w3 < |d.analyses| + 2
    requires d.InLayer(layer, w2, w3) && memo.Valid() && memo.d == d && scratch.Valid() && Usable(cache, d)
    modifies memo, scratch, FootprintOf(cache)
    ensures memo.Valid() && scratch.Valid() && Usable(cache, d)
    ensures FootprintOf(cache) == old(FootprintOf(cache)) && RowPairs(cache) == old(RowPairs(cache))
    ensures score == d.Score(w1, w2, w3)
  {
    hide TrigramScore, PreparePair, PrepareWord, Holds, LayerHolds, Fits, DisambiguationScoreCache.Valid;
    var pair := memo.EnsurePair(d, layer, w2, w3);
    if cache != null {
      var cached := CachedWords(d, w1, w2, w3, cache);
      if cached.Some? {
        score := ScorePrepared(d.model, d.Word(w1).word, d.Word(w2).word, d.Word(w3).word,
                               cached.value.0, cached.value.1, cached.value.2, pair, scratch);
        return;
      }
    }
    var prepared1 := memo.EnsureWord(d, w1);
    var prepared2 := memo.EnsureWord(d, w2);
    var prepared3 := memo.EnsureWord(d, w3);
    score := ScorePrepared(d.model, d.Word(w1).word, d.Word(w2).word, d.Word(w3).word,
                           prepared1, prepared2, prepared3, pair, scratch);
  }

  lemma RowFitsIsBound(rowPair: seq<nat>, d: Decoder, row: nat, w1: nat, w2: nat, w3: nat)
    requires d.Valid() && w1 < |d.analyses| + 2 && w2 < |d.analyses| + 2 && w3 < |d.analyses| + 2
    requires RowFits(rowPair, d, row, w1, w2) && ScoreKey(d, w1, w2, w3).Some?
    ensures Bound(rowPair, row, RowPart(ScoreKey(d, w1, w2, w3).value))
  {
    ScoreKeyParts(d, w1, w2, w3);
  }

  lemma InvalidRowFits(rowPair: seq<nat>, d: Decoder, previous: nat, current: nat)
    requires d.Valid() && previous < |d.analyses| + 2 && current < |d.analyses| + 2
    ensures RowFits(rowPair, d, INVALID_ROW, previous, current)
  {
  }

  /** Rows keep their pairs when more rows are made. */
  lemma RowFitsGrows(rowPair: seq<nat>, more: seq<nat>, d: Decoder, row: nat, previous: nat, current: nat)
    requires d.Valid() && previous < |d.analyses| + 2 && current < |d.analyses| + 2
    requires RowFits(rowPair, d, row, previous, current) && rowPair <= more
    ensures RowFits(more, d, row, previous, current)
  {
  }

  /** The row a key's transition starts from: the carried one, or the one of its pair. */
  method ResolveRow(d: Decoder, w1: nat, w2: nat, w3: nat, currentRow: nat, cache: DisambiguationScoreCache)
    returns (row: nat)
    requires d.Valid() && w1 < |d.analyses| + 2 && w2 < |d.analyses| + 2 && w3 < |d.analyses| + 2
    requires ScoreKey(d, w1, w2, w3).Some? && Usable(cache, d)
    requires Bound(RowPairs(cache), currentRow, RowPart(ScoreKey(d, w1, w2, w3).value))
    modifies cache.trigrams
    ensures Usable(cache, d) && old(RowPairs(cache)) <= RowPairs(cache)
    ensures Bound(RowPairs(cache), row, RowPart(ScoreKey(d, w1, w2, w3).value))
  {
    hide KeyScore, TrigramScoreCache.Valid, Prepared, Fits;
    ScoreKeyParts(d, w1, w2, w3);
    if currentRow != INVALID_ROW {
      return currentRow;
    }
    hide ScoreKey;
    var made := cache.trigrams.EnsureRow(RowPart(ScoreKey(d, w1, w2, w3).value));
    row := if made.Some? then made.value else INVALID_ROW;
  }

  /** Retains a freshly computed score and finds the row it leads to. */
  method Retain(d: Decoder, w1: nat, w2: nat, w3: nat, row: nat, score: int, needNextRow: bool,
                cache: DisambiguationScoreCache) returns (nextRow: nat)
    requires d.Valid() && w1 < |d.analyses| + 2 && w2 < |d.analyses| + 2 && w3 < |d.analyses| + 2
    requires ScoreKey(d, w1, w2, w3).Some? && Usable(cache, d) && score == d.Score(w1, w2, w3)
    requires Bound(RowPairs(cache), row, RowPart(ScoreKey(d, w1, w2, w3).value))
    modifies cache.trigrams, cache.trigrams.overflow
    ensures Usable(cache, d) && old(RowPairs(cache)) <= RowPairs(cache)
    ensures RowFits(RowPairs(cache), d, nextRow, w2, w3)
  {
    hide KeyScore, Prepared, TrigramScore;
    ScoreKeyParts(d, w1, w2, w3);
    KeyScoreOfTransition(cache.lex, d, w1, w2, w3);
    hide ScoreKey, Fits, CodeFits;
    ghost var trigrams := cache.trigrams;
    var key := ScoreKey(d, w1, w2, w3).value;
    assert trigrams.truth(key) == score;
    nextRow := INVALID_ROW;
    if needNextRow {
      var made := cache.trigrams.EnsureRow(NextRowPart(key));
      if made.Some? {
        nextRow := made.value;
      }
    }
    if row != INVALID_ROW {
      assert Bound(trigrams.rowPair, row, RowPart(key)) && |trigrams.rows| == |trigrams.rowPair|;
      hide TrigramScoreCache.Valid;
      cache.trigrams.Insert(row, key, score, nextRow);
    }
  }

  /** Scores one transition, reusing retained scores and carried rows. */
  method ScoreCompactTransition(d: Decoder, memo: CompactPreparedFeatures, layer: nat, w1: nat, w2: nat, w3: nat,
                                currentRow: nat, cache: DisambiguationScoreCache?, needNextRow: bool,
                                scratch: FeatureScratch) returns (score: int, nextRow: nat)
    requires d.Valid() && d.Scorable() && w1 < |d.analyses| + 2 && w2 < |d.analyses| + 2 && w3 < |d.analyses| + 2
    requires d.InLayer(layer, w2, w3) && memo.Valid() && memo.d == d && scratch.Valid() && Usable(cache, d)
    requires RowFits(RowPairs(cache), d, currentRow, w1, w2)
    modifies memo, scratch, FootprintOf(cache)
    ensures memo.Valid() && scratch.Valid() && Usable(cache, d)
    ensures FootprintOf(cache) == old(FootprintOf(cache)) && old(RowPairs(cache)) <= RowPairs(cache)
    ensures score == d.Score(w1, w2, w3)
    ensures RowFits(RowPairs(cache), d, nextRow, w2, w3)
  {
    hide TrigramScore, Holds, LayerHolds, DisambiguationScoreCache.Valid, Fits, KeyScore, RowFits;
    var key := ScoreKey(d, w1, w2, w3);
    hide ScoreKey;
    var row := currentRow;
    if cache != null && key.Some? {
      RowFitsIsBound(RowPairs(cache), d, currentRow, w1, w2, w3);
      row := ResolveRow(d, w1, w2, w3, currentRow, cache);
      var retained := Retained(d, w1, w2, w3, row, cache);
      if retained.Some? && (!needNextRow || retained.value.1 != INVALID_ROW) {
        return retained.value.0, retained.value.1;
      }
    }
    score := ScoreUncached(d, memo, layer, w1, w2, w3, cache, scratch);
    nextRow := INVALID_ROW;
    InvalidRowFits(RowPairs(cache), d, w2, w3);
    if cache != null && key.Some? {
      row := ResolveRow(d, w1, w2, w3, row, cache);
      nextRow := Retain(d, w1, w2, w3, row, score, needNextRow, cache);
    }
  }

  /** Reads a retained score, which is then the true one. */
  method Retained(d: Decoder, w1: nat, w2: nat, w3: nat, row: nat, cache: DisambiguationScoreCache)
    returns (r: Option<(int, nat)>)
    requires d.Valid() && w1 < |d.analyses| + 2 && w2 < |d.analyses| + 2 && w3 < |d.analyses| + 2
    requires ScoreKey(d, w1, w2, w3).Some? && Usable(cache, d)
    requires Bound(RowPairs(cache), row, RowPart(ScoreKey(d, w1, w2, w3).value))
    ensures r.Some? ==> r.value.0 == d.Score(w1, w2, w3) && RowFits(RowPairs(cache), d, r.value.1, w2, w3)
  {
    hide KeyScore, Prepared, TrigramScore, TrigramScoreCache.Valid;
    ScoreKeyParts(d, w1, w2, w3);
    KeyScoreOfTransition(cache.lex, d, w1, w2, w3);
    hide ScoreKey, Fits, CodeFits;
    r := cache.trigrams.Get(row, ScoreKey(d, w1, w2, w3).value);
  }

  /** The scoring equipment of one decoding run: the lattice, the memo of prepared features,
      the feature table and, if there is one, the worker's score cache. */
  class TransitionScorer {
    const d: Decoder
    const cache: DisambiguationScoreCache?
    const memo: CompactPreparedFeatures
    const scratch: FeatureScratch
    ghost const repr: set<object>

    ghost predicate Valid()
      reads this, repr
    {
      && memo in repr && scratch in repr
      && (cache != null ==> cache in repr && cache.Footprint() <= repr)
      && d.Valid() && d.Scorable() && memo.Valid() && memo.d == d && scratch.Valid() && Usable(cache, d)
    }

    /** The pair of signatures each retained row belongs to. */
    ghost function Rows(): seq<nat>
      requires Valid()
      reads this, repr
    {
      RowPairs(cache)
    }

    constructor (d: Decoder, cache: DisambiguationScoreCache?)
      requires d.Valid() && d.Scorable() && Usable(cache, d)
      ensures Valid() && this.d == d && this.cache == cache
      ensures fresh(repr - FootprintOf(cache)) && FootprintOf(cache) <= repr
    {
      hide DisambiguationScoreCache.Valid, Fits, Decoder.Valid, Decoder.Scorable;
      this.d := d;
      this.cache := cache;
      var m := new CompactPreparedFeatures(d);
      var f := new FeatureScratch(d.model.rehash);
      memo := m;
      scratch := f;
      repr := {m, f} + FootprintOf(cache);
    }

    method Transition(layer: nat, w1: nat, w2: nat, w3: nat, currentRow: nat, needNextRow: bool)
      returns (score: int, nextRow: nat)
      requires Valid() && w1 < |d.analyses| + 2 && w2 < |d.analyses| + 2 && w3 < |d.analyses| + 2
      requires d.InLayer(layer, w2, w3) && RowFits(Rows(), d, currentRow, w1, w2)
      modifies repr
      ensures Valid() && old(Rows()) <= Rows()
      ensures score == d.Score(w1, w2, w3) && RowFits(Rows(), d, nextRow, w2, w3)
    {
      hide DisambiguationScoreCache.Valid, Fits, Decoder.Valid, Decoder.Scorable, FeatureScratch.Valid,
        CompactPreparedFeatures.Valid, RowFits, Decoder.InLayer, Decoder.Score;
      score, nextRow := ScoreCompactTransition(d, memo, layer, w1, w2, w3, currentRow, cache, needNextRow, scratch);
    }

    /** The row of the sentence start. */
    method InitialScoreRow() returns (row: nat)
      requires Valid()
      modifies repr
      ensures Valid() && old(Rows()) <= Rows() && RowFits(Rows(), d, row, 0, 0)
    {
      hide DisambiguationScoreCache.Valid, Fits, Decoder.Valid, Decoder.Scorable, FeatureScratch.Valid,
        CompactPreparedFeatures.Valid;
      row := INVALID_ROW;
      if cache != null {
        row := BeginRow(d, cache);
      }
    }
  }

  method BeginRow(d: Decoder, cache: DisambiguationScoreCache) returns (row: nat)
    requires d.Valid() && Usable(cache, d)
    modifies cache.trigrams
    ensures Usable(cache, d) && cache.Footprint() == old(cache.Footprint())
    ensures old(RowPairs(cache)) <= RowPairs(cache) && RowFits(RowPairs(cache), d, row, 0, 0)
  {
    hide KeyScore, TrigramScoreCache.Valid, Prepared, Fits;
    var made := cache.trigrams.EnsureRow(PairKey(BEGIN_SIGNATURE, BEGIN_SIGNATURE));
    row := if made.Some? then made.value else INVALID_ROW;
  }
}
