/** The sentences of a document: which units they hold and where they part. */
module Sentences {
  import opened Bytes
  import opened LexicalClasses
  import opened Splitting
  import opened Alignment
  import opened Document
  import opened Pipeline
  import opened PR = PipelineRun

  /** The unit is a token of a sentence. */
  predicate Token(unit: TokenizedUnit) {
    && unit.mode == Turkish && unit.kind != Whitespace && unit.kind != LineBreak && unit.kind != Control
    && unit.kind != Opaque
  }

  /** The unit ends a sentence without belonging to it. */
  predicate Parts(unit: TokenizedUnit) {
    unit.mode != Turkish || unit.kind == LineBreak || unit.kind == Control || unit.kind == Opaque
  }

  /** A full stop, an exclamation mark or a question mark. */
  predicate Stops(raw: seq<byte>, unit: TokenizedUnit) {
    && unit.kind == Punctuation && unit.start < |raw| && unit.end == unit.start + 1
    && (raw[unit.start] == 0x2E || raw[unit.start] == 0x21 || raw[unit.start] == 0x3F)
  }

  /** Unit `b` is the next token behind unit `a`. */
  predicate NextToken(units: seq<TokenizedUnit>, a: nat, b: nat) {
    a < b < |units| && Token(units[b]) && forall k: nat | a < k < b :: !Token(units[k])
  }

  /** Nothing parts the two: no unit between them, and the first one is no stop. */
  predicate Together(raw: seq<byte>, units: seq<TokenizedUnit>, a: nat, b: nat)
    requires a < b < |units|
  {
    !Stops(raw, units[a]) && forall k: nat | a < k < b :: !Parts(units[k])
  }

  /** Behind its token at `p` the sentence goes on exactly with the next token, if nothing parts the two
      and the sentence is not full. */
  ghost predicate GoesOn(raw: seq<byte>, units: seq<TokenizedUnit>, maximum: nat, sentence: seq<nat>, p: nat)
    requires p < |sentence|
  {
    forall b: nat | NextToken(units, sentence[p], b) ::
      (p + 1 < |sentence| && sentence[p + 1] == b) <==> Together(raw, units, sentence[p], b) && p + 1 < maximum
  }

  ghost function Flat(sentences: seq<seq<nat>>): seq<nat> {
    if sentences == [] then [] else Flat(sentences[..|sentences| - 1]) + sentences[|sentences| - 1]
  }

  ghost predicate Rising(xs: seq<nat>) {
    forall i: nat, j: nat | i < j < |xs| :: xs[i] < xs[j]
  }

  /** The sentences hold exactly the tokens, in order, and part where they must. */
  ghost predicate AreSentences(raw: seq<byte>, units: seq<TokenizedUnit>, maximum: nat, sentences: seq<seq<nat>>) {
    && Rising(Flat(sentences))
    && (forall x: nat :: x in Flat(sentences) <==> x < |units| && Token(units[x]))
    && forall j: nat, p: nat | j < |sentences| && p < |sentences[j]| :: GoesOn(raw, units, maximum, sentences[j], p)
  }

  // ------------------------------------------------------------ the loop keeps it

  /** Neighbours in a sentence belong together. */
  ghost predicate Chained(raw: seq<byte>, units: seq<TokenizedUnit>, maximum: nat, s: seq<nat>) {
    forall p: nat | p < |s| - 1 :: Linked(raw, units, maximum, s, p)
  }

  ghost predicate Linked(raw: seq<byte>, units: seq<TokenizedUnit>, maximum: nat, s: seq<nat>, p: nat)
    requires p < |s| - 1
  {
    NextToken(units, s[p], s[p + 1]) && Together(raw, units, s[p], s[p + 1]) && p + 1 < maximum
  }

  /** The sentence had to end. */
  ghost predicate Closed(raw: seq<byte>, units: seq<TokenizedUnit>, maximum: nat, s: seq<nat>) {
    s == [] || s[|s| - 1] >= |units| || Stops(raw, units[s[|s| - 1]]) || |s| >= maximum
    || PartedBehind(units, s[|s| - 1])
  }

  ghost predicate PartedBehind(units: seq<TokenizedUnit>, a: nat) {
    exists k: nat :: ParsesBehind(units, a, k)
  }

  ghost predicate LastToken(units: seq<TokenizedUnit>, a: nat) {
    forall b: nat :: !NextToken(units, a, b)
  }

  ghost predicate ParsesBehind(units: seq<TokenizedUnit>, a: nat, k: nat) {
    a < k < |units| && Parts(units[k]) && forall m: nat | a < m < k :: !Token(units[m])
  }

  /** The sentence may go on at unit `n`. */
  ghost predicate Open(raw: seq<byte>, units: seq<TokenizedUnit>, maximum: nat, s: seq<nat>, n: nat) {
    s != [] ==>
      var a := s[|s| - 1];
      && a < n <= |units| && !Stops(raw, units[a]) && |s| < maximum
      && forall k: nat | a < k < n :: !Token(units[k]) && !Parts(units[k])
  }

  ghost predicate Held(units: seq<TokenizedUnit>, n: nat, xs: seq<nat>) {
    && Rising(xs) && (forall i: nat | i < |xs| :: xs[i] < n)
    && forall x: nat :: x in xs <==> x < n && x < |units| && Token(units[x])
  }

  ghost predicate Sound(raw: seq<byte>, units: seq<TokenizedUnit>, maximum: nat, n: nat, s: Segments) {
    && n <= |units| && Held(units, n, Flat(s.ended) + s.open)
    && (forall j: nat | j < |s.ended| :: Chained(raw, units, maximum, s.ended[j]) && Closed(raw, units, maximum, s.ended[j]))
    && Chained(raw, units, maximum, s.open) && Open(raw, units, maximum, s.open, n)
  }

  lemma FlatPush(ended: seq<seq<nat>>, s: seq<nat>)
    ensures Flat(ended + [s]) == Flat(ended) + s
  {
    assert (ended + [s])[..|ended|] == ended;
  }

  lemma EndSentence(raw: seq<byte>, units: seq<TokenizedUnit>, maximum: nat, n: nat, s: Segments)
    requires n <= |units| && Held(units, n, Flat(s.ended) + s.open)
    requires forall j: nat | j < |s.ended| :: Chained(raw, units, maximum, s.ended[j]) && Closed(raw, units, maximum, s.ended[j])
    requires Chained(raw, units, maximum, s.open) && Closed(raw, units, maximum, s.open)
    ensures Sound(raw, units, maximum, n, Segments(s.ended + [s.open], []))
  {
    hide Chained, Closed, Held;
    FlatPush(s.ended, s.open);
    assert Flat(s.ended) + s.open == Flat(s.ended) + s.open + [];
    NothingChained(raw, units, maximum);
  }

  lemma NothingChained(raw: seq<byte>, units: seq<TokenizedUnit>, maximum: nat)
    ensures Chained(raw, units, maximum, [])
  {
  }

  lemma HeldSkip(units: seq<TokenizedUnit>, n: nat, xs: seq<nat>)
    requires n < |units| && Held(units, n, xs) && !Token(units[n])
    ensures Held(units, n + 1, xs)
  {
  }

  lemma HeldPush(units: seq<TokenizedUnit>, n: nat, xs: seq<nat>)
    requires n < |units| && Held(units, n, xs) && Token(units[n])
    ensures Held(units, n + 1, xs + [n])
  {
  }

  lemma ChainPush(raw: seq<byte>, units: seq<TokenizedUnit>, maximum: nat, n: nat, s: seq<nat>)
    requires n < |units| && Token(units[n]) && Chained(raw, units, maximum, s) && Open(raw, units, maximum, s, n)
    ensures Chained(raw, units, maximum, s + [n])
  {
    hide Token, Parts, Stops;
    var more := s + [n];
    forall p: nat | p < |more| - 1
      ensures Linked(raw, units, maximum, more, p)
    {
      if p < |s| - 1 {
        assert Linked(raw, units, maximum, s, p);
      }
    }
  }

  lemma StopIs(raw: seq<byte>, unit: TokenizedUnit)
    requires unit.start <= unit.end <= |raw|
    ensures IsSentenceBoundary(raw, unit) <==> Stops(raw, unit)
  {
    var bytes := raw[unit.start..unit.end];
    if |bytes| == 1 {
      assert bytes == [raw[unit.start]];
    }
  }

  lemma PartsClose(raw: seq<byte>, units: seq<TokenizedUnit>, maximum: nat, n: nat, s: seq<nat>)
    requires n < |units| && Parts(units[n]) && Open(raw, units, maximum, s, n)
    ensures Closed(raw, units, maximum, s)
  {
    hide Token, Parts, Stops;
    if s != [] {
      assert ParsesBehind(units, s[|s| - 1], n);
    }
  }

  lemma {:induction false} SegmentsAreSound(raw: seq<byte>, units: seq<TokenizedUnit>, maximum: nat, n: nat)
    requires n <= |units| && PR.Inside(raw, units)
    ensures Sound(raw, units, maximum, n, SegmentsUpTo(raw, units, maximum, n))
  {
    hide IsSentenceBoundary, Chained, Closed, Held, Stops, Flat;
    if n == 0 {
      NothingSound(raw, units, maximum);
    } else {
      SegmentsAreSound(raw, units, maximum, n - 1);
      var before, unit := SegmentsUpTo(raw, units, maximum, n - 1), units[n - 1];
      StopIs(raw, unit);
      if !Token(unit) {
        HeldSkip(units, n - 1, Flat(before.ended) + before.open);
        if Parts(unit) {
          PartsClose(raw, units, maximum, n - 1, before.open);
          EndSentence(raw, units, maximum, n, before);
        }
      } else {
        var more := before.open + [n - 1];
        HeldPush(units, n - 1, Flat(before.ended) + before.open);
        assert Flat(before.ended) + before.open + [n - 1] == Flat(before.ended) + more;
        ChainPush(raw, units, maximum, n - 1, before.open);
        if Stops(raw, unit) || |more| >= maximum {
          FullCloses(raw, units, maximum, more);
          EndSentence(raw, units, maximum, n, Segments(before.ended, more));
        }
      }
    }
  }

  lemma FullCloses(raw: seq<byte>, units: seq<TokenizedUnit>, maximum: nat, s: seq<nat>)
    requires s != [] && s[|s| - 1] < |units| && (Stops(raw, units[s[|s| - 1]]) || |s| >= maximum)
    ensures Closed(raw, units, maximum, s)
  {
  }

  lemma NothingSound(raw: seq<byte>, units: seq<TokenizedUnit>, maximum: nat)
    ensures Sound(raw, units, maximum, 0, Segments([], []))
  {
    assert Flat([]) == [];
  }

  // ------------------------------------------------------------ what the sentences are

  lemma ChainGoesOn(raw: seq<byte>, units: seq<TokenizedUnit>, maximum: nat, s: seq<nat>, p: nat)
    requires p < |s| && Chained(raw, units, maximum, s) && s[p] < |units|
    requires Closed(raw, units, maximum, s) || LastToken(units, s[|s| - 1])
    ensures GoesOn(raw, units, maximum, s, p)
  {
    hide Token, Parts, Stops;
    forall b: nat | NextToken(units, s[p], b)
      ensures (p + 1 < |s| && s[p + 1] == b) <==> Together(raw, units, s[p], b) && p + 1 < maximum
    {
      if p + 1 < |s| {
        assert Linked(raw, units, maximum, s, p);
      } else if !LastToken(units, s[p]) && PartedBehind(units, s[p]) {
        var k: nat :| ParsesBehind(units, s[p], k);
        PartsNoToken(units[k]);
        assert k < b;
      }
    }
  }

  lemma PartsNoToken(unit: TokenizedUnit)
    requires Parts(unit)
    ensures !Token(unit)
  {
  }

  /** The sentences that the pipeline analyses, and no unit is left over. */
  lemma SentencesAre(raw: seq<byte>, units: seq<TokenizedUnit>, maximum: nat)
    requires PR.Inside(raw, units)
    ensures var s := SegmentsUpTo(raw, units, maximum, |units|);
      AreSentences(raw, units, maximum, s.ended + [s.open])
  {
    hide SegmentsUpTo, Chained, Closed, Rising, GoesOn;
    SegmentsAreSound(raw, units, maximum, |units|);
    var s := SegmentsUpTo(raw, units, maximum, |units|);
    var all := s.ended + [s.open];
    FlatPush(s.ended, s.open);
    forall j: nat, p: nat | j < |all| && p < |all[j]|
      ensures GoesOn(raw, units, maximum, all[j], p)
    {
      InFlat(all, j, p);
      ChainGoesOn(raw, units, maximum, all[j], p);
    }
  }

  lemma {:induction false} InFlat(sentences: seq<seq<nat>>, j: nat, p: nat)
    requires j < |sentences| && p < |sentences[j]|
    ensures sentences[j][p] in Flat(sentences)
  {
    if j < |sentences| - 1 {
      InFlat(sentences[..|sentences| - 1], j, p);
    }
  }

  /** So every analysed document is analysed in these sentences. */
  lemma AnalysedInSentences(m: Morphology, isNumeric: int -> bool, contextual: bool, maximum: nat, raw: seq<byte>,
                            before: seq<TokenizedUnit>, after: seq<TokenizedUnit>) returns (sentences: seq<seq<nat>>)
    requires Analysed(m, isNumeric, contextual, maximum, raw, before, after)
    ensures AreSentences(raw, before, maximum, sentences)
    ensures SentencesDone(m, isNumeric, contextual, raw, before, after, sentences)
  {
    hide AreSentences, SentencesDone, SegmentsUpTo;
    SentencesAre(raw, before, maximum);
    var s := SegmentsUpTo(raw, before, maximum, |before|);
    sentences := s.ended + [s.open];
  }
}
