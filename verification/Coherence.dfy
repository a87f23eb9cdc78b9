/** Codes of one interner meet what the disambiguator demands of whole candidate lists. */
module Coherence {
  import opened Wrappers
  import opened Trigram
  import opened Lattice
  import opened Disambiguator
  import opened ContextScores
  import opened Interner
  import opened Entry

  /** The word behind a canonical number, given what canonical identities stand for. */
  ghost function NameOf(t: Tables, wordOf: string -> WordData, id: nat): WordData {
    if exists s: string :: Numbers(t, s, id) then var s: string :| Numbers(t, s, id); wordOf(s) else wordOf("")
  }

  ghost function Names(t: Tables, wordOf: string -> WordData): nat -> WordData {
    (id: nat) => NameOf(t, wordOf, id)
  }

  predicate Numbers(t: Tables, s: string, id: nat) {
    s in t.canonicals && t.canonicals[s] == id
  }

  /** Canonical identities stand for words. */
  ghost predicate CanonicalsMean(wordOf: string -> WordData, candidates: Candidates) {
    forall t: nat, c: nat | t < |candidates| && c < |candidates[t]| :: wordOf(candidates[t][c].canonical) == candidates[t][c].word
  }

  lemma NamesKnown(t: Tables, wordOf: string -> WordData, a: Analysis)
    requires CompactTables(t) && CodeOf(t, a).Some? && wordOf(a.canonical) == a.word
    ensures NameOf(t, wordOf, CodeOf(t, a).value.canonical) == a.word
  {
    hide SignatureOf;
    var id: nat := CodeOf(t, a).value.canonical;
    assert Numbers(t, a.canonical, id);
    forall s: string | Numbers(t, s, id)
      ensures s == a.canonical
    {
    }
  }

  /** The candidates of a sentence may have been coded at different times by one interner, with or
      without a base: by its latest tables all of them are coherent. */
  lemma CodesAreCoherent(earlier: seq<Tables>, latest: Tables, begin: WordData, end: WordData, wordOf: string -> WordData,
                         candidates: Candidates, codes: seq<seq<ScoringCode>>)
    requires CompactTables(latest) && |earlier| == |codes| == |candidates|
    requires forall t: nat | t < |candidates| :: ExtendsTables(earlier[t], latest) && Coded(earlier[t], candidates[t], codes[t])
    requires CanonicalsMean(wordOf, candidates) && GroupsInRange(candidates)
    ensures SameShape(candidates, codes)
    ensures Coherent(Lexicon(latest, begin, end), Names(latest, wordOf), candidates, codes)
  {
    hide CompactTables, ExtendsTables, CodeOf, Lexicon, NameOf;
    forall t, c | 0 <= t < |candidates| && t < |codes| && 0 <= c < |candidates[t]| && c < |codes[t]|
      ensures Entry.Named(Lexicon(latest, begin, end), Names(latest, wordOf), candidates[t][c], codes[t][c])
    {
      var a := candidates[t][c];
      assert CodeOf(earlier[t], a) == Some(codes[t][c]);
      CodeKept(earlier[t], latest, a);
      CodesFitCache(earlier[t], latest, begin, end, a);
      NamesKnown(latest, wordOf, a);
    }
  }

  lemma LexiconBoundaries(t: Tables, begin: WordData, end: WordData)
    ensures Lexicon(t, begin, end)(BEGIN_SIGNATURE) == begin && Lexicon(t, begin, end)(END_SIGNATURE) == end
  {
  }

  /** So the lexicon of an interner serves the entry calls: the boundaries fit as well. */
  lemma BoundariesAreCoherent(t: Tables, begin: Analysis, end: Analysis)
    requires |begin.word.igs| <= GROUP_LIMIT && |end.word.igs| <= GROUP_LIMIT
    ensures BoundariesFit(Lexicon(t, begin.word, end.word), begin, end)
  {
    hide Lexicon;
    LexiconBoundaries(t, begin.word, end.word);
  }
}
