/** The candidate lattice of a sentence and the score of the paths through it. */
module Lattice {
  import opened Wrappers
  import opened Trigram
  import ScoreCache

  datatype Analysis = Analysis(canonical: string, word: WordData, javaHash: int)

  type u32 = x: nat | x < 0x1_0000_0000

  /** Worker-local identities of an analysis. */
  datatype ScoringCode = ScoringCode(signature: nat, canonical: u32, javaHash: int, cacheSignature: nat)

  const BEGIN_SIGNATURE: nat := ScoreCache.SIGNATURES - 1
  const END_SIGNATURE: nat := ScoreCache.SIGNATURES - 2
  const INVALID_SIGNATURE: nat := ScoreCache.SIGNATURES

  function NewCode(signature: nat, canonical: u32, javaHash: int): (code: ScoringCode)
    ensures code.cacheSignature < ScoreCache.SIGNATURES ==> code.cacheSignature == signature < END_SIGNATURE
  {
    ScoringCode(signature, canonical, javaHash, if signature < END_SIGNATURE then signature else INVALID_SIGNATURE)
  }

  function BoundaryCode(signature: nat, canonical: u32, javaHash: int): ScoringCode {
    ScoringCode(signature, canonical, javaHash, signature)
  }

  // ----- the score of a sentence -----

  /** The word before the next one, or the sentence start. */
  function Last(begin: WordData, ws: seq<WordData>): WordData {
    if |ws| == 0 then begin else ws[|ws| - 1]
  }

  function SecondLast(begin: WordData, ws: seq<WordData>): WordData {
    if |ws| < 2 then begin else ws[|ws| - 2]
  }

  /** The sum of the trigram factors of a word sequence. */
  ghost function PrefixScore(m: Model, begin: WordData, ws: seq<WordData>): int {
    if |ws| == 0 then 0
    else
      var init := ws[..|ws| - 1];
      PrefixScore(m, begin, init) + TrigramScore(m, SecondLast(begin, init), Last(begin, init), ws[|ws| - 1])
  }

  /** The trigram sum plus the factor of the sentence end. */
  ghost function SentenceScore(m: Model, begin: WordData, end: WordData, ws: seq<WordData>): int {
    PrefixScore(m, begin, ws) + TrigramScore(m, SecondLast(begin, ws), Last(begin, ws), end)
  }

  lemma {:induction false} PrefixScoreSnoc(m: Model, begin: WordData, ws: seq<WordData>, w: WordData)
    ensures PrefixScore(m, begin, ws + [w])
         == PrefixScore(m, begin, ws) + TrigramScore(m, SecondLast(begin, ws), Last(begin, ws), w)
  {
    assert (ws + [w])[..|ws|] == ws;
  }

  // ----- the flattened lattice -----

  /** Analyses are numbered 0 for the sentence start, 1 for its end, then token by token. */
  datatype Decoder = Decoder(
    model: Model, begin: Analysis, end: Analysis, analyses: seq<Analysis>,
    codes: Option<seq<ScoringCode>>, starts: seq<nat>)
  {
    ghost predicate Valid() {
      && 2 <= |starts|
      && starts[0] == 2 && starts[|starts| - 1] == |analyses| + 2
      && (forall t, u :: 0 <= t < u < |starts| ==> starts[t] < starts[u])
      && (codes.Some? ==> |codes.value| == |analyses|)
    }

    /** Group positions stay distinguishable in feature identities. */
    ghost predicate Scorable() {
      && |begin.word.igs| <= GROUP_LIMIT && |end.word.igs| <= GROUP_LIMIT
      && forall i :: 0 <= i < |analyses| ==> |analyses[i].word.igs| <= GROUP_LIMIT
    }

    function TokenCount(): nat
      requires Valid()
    {
      |starts| - 1
    }

    function Word(index: nat): Analysis
      requires index < |analyses| + 2
    {
      if index == 0 then begin else if index == 1 then end else analyses[index - 2]
    }

    function Code(index: nat): Option<ScoringCode>
      requires Valid() && index < |analyses| + 2
    {
      if index == 0 then Some(BoundaryCode(BEGIN_SIGNATURE, 0xFFFF_FFFF, begin.javaHash))
      else if index == 1 then Some(BoundaryCode(END_SIGNATURE, 0xFFFF_FFFE, end.javaHash))
      else if codes.Some? then Some(codes.value[index - 2])
      else None
    }

    /** The numbers of the analyses at position `t`; position -1 is the sentence start. */
    ghost predicate AtToken(t: int, index: nat)
      requires Valid() && t < TokenCount()
    {
      if t < 0 then index == 0 else starts[t] <= index < starts[t + 1]
    }

    lemma AtTokenInRange(t: int, index: nat)
      requires Valid() && t < TokenCount() && AtToken(t, index)
      ensures index < |analyses| + 2
      ensures 0 <= t ==> 2 <= index
    {
      if 0 <= t {
        assert starts[t + 1] <= starts[|starts| - 1];
        assert starts[0] <= starts[t];
      }
    }

    // ----- transition layers -----

    /** Layer `t` leads from the analyses before token `t` to those of token `t`;
        the last layer leads to the sentence end. */
    function PreviousFirst(layer: nat): nat
      requires Valid() && layer <= TokenCount()
    {
      if layer == 0 then 0 else starts[layer - 1]
    }

    function PreviousCount(layer: nat): nat
      requires Valid() && layer <= TokenCount()
    {
      if layer == 0 then 1 else starts[layer] - starts[layer - 1]
    }

    function CurrentFirst(layer: nat): nat
      requires Valid() && layer <= TokenCount()
    {
      if layer == TokenCount() then 1 else starts[layer]
    }

    function CurrentCount(layer: nat): nat
      requires Valid() && layer <= TokenCount()
    {
      if layer == TokenCount() then 1 else starts[layer + 1] - starts[layer]
    }

    ghost predicate InLayer(layer: nat, previous: nat, current: nat)
      requires Valid()
    {
      && layer <= TokenCount()
      && PreviousFirst(layer) <= previous < PreviousFirst(layer) + PreviousCount(layer)
      && CurrentFirst(layer) <= current < CurrentFirst(layer) + CurrentCount(layer)
    }

    lemma InLayerInRange(layer: nat, previous: nat, current: nat)
      requires Valid() && InLayer(layer, previous, current)
      ensures previous < |analyses| + 2 && current < |analyses| + 2
    {
      assert starts[layer] <= starts[|starts| - 1];
      assert layer < TokenCount() ==> starts[layer + 1] <= starts[|starts| - 1];
    }

    ghost function Score(first: nat, second: nat, third: nat): int
      requires first < |analyses| + 2 && second < |analyses| + 2 && third < |analyses| + 2
    {
      TrigramScore(model, Word(first).word, Word(second).word, Word(third).word)
    }

    // ----- paths -----

    /** A path names one analysis for each of the first tokens. */
    ghost predicate Path(g: seq<nat>)
      requires Valid()
    {
      |g| <= TokenCount() && forall t :: 0 <= t < |g| ==> AtToken(t, g[t])
    }

    lemma PathInRange(g: seq<nat>, t: nat)
      requires Valid() && Path(g) && t < |g|
      ensures 2 <= g[t] < |analyses| + 2
    {
      AtTokenInRange(t, g[t]);
    }

    ghost function Words(g: seq<nat>): (ws: seq<WordData>)
      requires forall t :: 0 <= t < |g| ==> g[t] < |analyses| + 2
      ensures |ws| == |g|
    {
      seq(|g|, t requires 0 <= t < |g| => Word(g[t]).word)
    }

    lemma PathWords(g: seq<nat>)
      requires Valid() && Path(g)
      ensures forall t :: 0 <= t < |g| ==> 2 <= g[t] < |analyses| + 2
    {
      forall t | 0 <= t < |g|
        ensures 2 <= g[t] < |analyses| + 2
      {
        PathInRange(g, t);
      }
    }

    /** The score of a path prefix. */
    ghost function PathScore(g: seq<nat>): int
      requires Valid() && Path(g)
    {
      PathWords(g);
      PrefixScore(model, begin.word, Words(g))
    }

    /** The score of a whole path with the sentence end. */
    ghost function FullScore(g: seq<nat>): int
      requires Valid() && Path(g)
    {
      PathWords(g);
      SentenceScore(model, begin.word, end.word, Words(g))
    }

    lemma PathSnoc(g: seq<nat>, a: nat)
      requires Valid() && Path(g) && |g| < TokenCount() && AtToken(|g|, a)
      ensures Path(g + [a]) && (g + [a])[..|g|] == g
      ensures Current(g) < |analyses| + 2 && Previous(g) < |analyses| + 2 && a < |analyses| + 2
      ensures PathScore(g + [a]) == PathScore(g) + Score(Previous(g), Current(g), a)
    {
      hide TrigramScore, PrefixScore, Valid, AtToken, Words, Path, Word, Current, Previous, Last, SecondLast;
      PathGrows(g, a);
      PathWords(g);
      PathWords(g + [a]);
      AtTokenInRange(|g|, a);
      WordsSnoc(g, a);
      LastWords(g);
      PrefixScoreSnoc(model, begin.word, Words(g), Word(a).word);
    }

    lemma WordsSnoc(g: seq<nat>, a: nat)
      requires a < |analyses| + 2 && forall t :: 0 <= t < |g| ==> g[t] < |analyses| + 2
      ensures Words(g + [a]) == Words(g) + [Word(a).word]
    {
      hide Word;
    }

    lemma LastWords(g: seq<nat>)
      requires forall t :: 0 <= t < |g| ==> g[t] < |analyses| + 2
      ensures Current(g) < |analyses| + 2 && Word(Current(g)).word == Last(begin.word, Words(g))
      ensures Previous(g) < |analyses| + 2 && Word(Previous(g)).word == SecondLast(begin.word, Words(g))
    {
    }

    lemma PathGrows(g: seq<nat>, a: nat)
      requires Valid() && Path(g) && |g| < TokenCount() && AtToken(|g|, a)
      ensures Path(g + [a]) && (g + [a])[..|g|] == g
    {
      hide Valid, AtToken;
    }

    lemma PathEnd(g: seq<nat>)
      requires Valid() && Path(g)
      ensures Current(g) < |analyses| + 2 && Previous(g) < |analyses| + 2
      ensures FullScore(g) == PathScore(g) + Score(Previous(g), Current(g), 1)
    {
      hide TrigramScore, PrefixScore;
      PathWords(g);
    }

    lemma PathInit(g: seq<nat>)
      requires Valid() && Path(g) && 0 < |g|
      ensures Path(g[..|g| - 1]) && g == g[..|g| - 1] + [g[|g| - 1]]
      ensures AtToken(|g| - 1, g[|g| - 1])
      ensures Current(g) == g[|g| - 1] && Previous(g) == Current(g[..|g| - 1])
    {
    }
  }

  /** The last two analyses of a path: the state of the trigram automaton. */
  function Current(g: seq<nat>): nat {
    if |g| == 0 then 0 else g[|g| - 1]
  }

  function Previous(g: seq<nat>): nat {
    if |g| < 2 then 0 else g[|g| - 2]
  }
}
