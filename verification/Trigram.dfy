/** The feature list of a trigram of analyses, scored directly or from prepared parts. */
module Trigram {
  import opened FeatureTable

  /** The part of an analysis the perceptron sees. */
  datatype WordData = WordData(lexeme: string, igs: seq<string>)

  datatype FeatureView =
    | F2(lexeme1: string, igs2: seq<string>, lexeme3: string, igs3: seq<string>)
    | F3(lexeme2: string, igs2: seq<string>, lexeme3: string, igs3: seq<string>)
    | F4(lexeme3: string, igs3: seq<string>)
    | F9(lexeme2: string, lexeme3: string)
    | F10(lexeme3: string)
    | F10b(lexeme2: string)
    | F10c(lexeme1: string)
    | F15(last1: string, last2: string, ig: string)
    | F17(last2: string, ig: string)
    | F20(index: nat, ig: string)
    | F22(count: nat)

  /** A perceptron: any weights, any Java string hash and any slot mixing function. */
  datatype Model = Model(weight: FeatureView -> int, javaHash: FeatureView -> int, rehash: int -> nat)

  /** Identities keep the position of a group in their low 24 bits. */
  const GROUP_LIMIT: nat := 0x100_0000

  function Identity(kind: nat, position: nat): nat {
    kind * GROUP_LIMIT + position % GROUP_LIMIT
  }

  function Prepare(model: Model, view: FeatureView, identity: nat): PreparedFeature {
    PreparedFeature(identity, model.javaHash(view), model.weight(view))
  }

  function LastOrEmpty(igs: seq<string>): string {
    if igs == [] then "" else igs[|igs| - 1]
  }

  /** The first position of a group equal to the one at `index`. */
  function Representative(igs: seq<string>, index: nat): (r: nat)
    requires index < |igs|
    ensures r <= index && igs[r] == igs[index]
    ensures forall i :: 0 <= i < r ==> igs[i] != igs[index]
  {
    FirstEqual(igs, index, 0)
  }

  function FirstEqual(igs: seq<string>, index: nat, from: nat): (r: nat)
    requires from <= index < |igs|
    requires forall i :: 0 <= i < from ==> igs[i] != igs[index]
    ensures r <= index && igs[r] == igs[index]
    ensures forall i :: 0 <= i < r ==> igs[i] != igs[index]
    decreases index - from
  {
    if from == index || igs[from] == igs[index] then from else FirstEqual(igs, index, from + 1)
  }

  // ----- the single features of a trigram -----

  function Feature2(m: Model, w1: WordData, w2: WordData, w3: WordData): PreparedFeature {
    Prepare(m, F2(w1.lexeme, w2.igs, w3.lexeme, w3.igs), Identity(0x02, 0))
  }

  function Feature15(m: Model, w1: WordData, w2: WordData, w3: WordData, i: nat): PreparedFeature
    requires i < |w3.igs|
  {
    Prepare(m, F15(LastOrEmpty(w1.igs), LastOrEmpty(w2.igs), w3.igs[i]), Identity(0x15, Representative(w3.igs, i)))
  }

  function Feature17(m: Model, w2: WordData, w3: WordData, i: nat): PreparedFeature
    requires i < |w3.igs|
  {
    Prepare(m, F17(LastOrEmpty(w2.igs), w3.igs[i]), Identity(0x17, Representative(w3.igs, i)))
  }

  function Feature20(m: Model, w3: WordData, i: nat): PreparedFeature
    requires i < |w3.igs|
  {
    Prepare(m, F20(i, w3.igs[i]), Identity(0x20, i))
  }

  /** Features of one word, in whichever of the three positions it stands. */
  datatype PreparedWord = PreparedWord(
    f4: PreparedFeature, f10: PreparedFeature, f10b: PreparedFeature, f10c: PreparedFeature,
    f20: seq<PreparedFeature>, f22: PreparedFeature)

  function PrepareWord(m: Model, w: WordData): PreparedWord {
    PreparedWord(
      Prepare(m, F4(w.lexeme, w.igs), Identity(0x04, 0)),
      Prepare(m, F10(w.lexeme), Identity(0x0a, 0)),
      Prepare(m, F10b(w.lexeme), Identity(0x0b, 0)),
      Prepare(m, F10c(w.lexeme), Identity(0x0c, 0)),
      seq(|w.igs|, i requires 0 <= i < |w.igs| => Feature20(m, w, i)),
      Prepare(m, F22(|w.igs|), Identity(0x22, 0)))
  }

  /** Features of a second word followed by a third. */
  datatype PreparedPair = PreparedPair(f3: PreparedFeature, f9: PreparedFeature, f17: seq<PreparedFeature>)

  function PreparePair(m: Model, w2: WordData, w3: WordData): PreparedPair {
    PreparedPair(
      Prepare(m, F3(w2.lexeme, w2.igs, w3.lexeme, w3.igs), Identity(0x03, 0)),
      Prepare(m, F9(w2.lexeme, w3.lexeme), Identity(0x09, 0)),
      seq(|w3.igs|, i requires 0 <= i < |w3.igs| => Feature17(m, w2, w3, i)))
  }

  // ----- the whole trigram -----

  function Head(m: Model, w1: WordData, w2: WordData, w3: WordData): seq<PreparedFeature> {
    [ Feature2(m, w1, w2, w3),
      Prepare(m, F3(w2.lexeme, w2.igs, w3.lexeme, w3.igs), Identity(0x03, 0)),
      Prepare(m, F4(w3.lexeme, w3.igs), Identity(0x04, 0)),
      Prepare(m, F9(w2.lexeme, w3.lexeme), Identity(0x09, 0)),
      Prepare(m, F10(w3.lexeme), Identity(0x0a, 0)),
      Prepare(m, F10b(w2.lexeme), Identity(0x0b, 0)),
      Prepare(m, F10c(w1.lexeme), Identity(0x0c, 0)) ]
  }

  /** The group features in the order of the direct scorer: F15 and F17 alternate. */
  function Alternating(m: Model, w1: WordData, w2: WordData, w3: WordData, k: nat): seq<PreparedFeature>
    requires k <= |w3.igs|
  {
    if k == 0 then []
    else Alternating(m, w1, w2, w3, k - 1) + [Feature15(m, w1, w2, w3, k - 1), Feature17(m, w2, w3, k - 1)]
  }

  function All15(m: Model, w1: WordData, w2: WordData, w3: WordData, k: nat): seq<PreparedFeature>
    requires k <= |w3.igs|
  {
    if k == 0 then [] else All15(m, w1, w2, w3, k - 1) + [Feature15(m, w1, w2, w3, k - 1)]
  }

  function All17(m: Model, w2: WordData, w3: WordData, k: nat): seq<PreparedFeature>
    requires k <= |w3.igs|
  {
    if k == 0 then [] else All17(m, w2, w3, k - 1) + [Feature17(m, w2, w3, k - 1)]
  }

  function All20(m: Model, w3: WordData, k: nat): seq<PreparedFeature>
    requires k <= |w3.igs|
  {
    if k == 0 then [] else All20(m, w3, k - 1) + [Feature20(m, w3, k - 1)]
  }

  /** Every feature occurrence of the trigram. */
  function TrigramFeatures(m: Model, w1: WordData, w2: WordData, w3: WordData): seq<PreparedFeature> {
    Head(m, w1, w2, w3) + Alternating(m, w1, w2, w3, |w3.igs|) + All20(m, w3, |w3.igs|)
    + [Prepare(m, F22(|w3.igs|), Identity(0x22, 0))]
  }

  /** The perceptron score of a trigram. */
  ghost function TrigramScore(m: Model, w1: WordData, w2: WordData, w3: WordData): int {
    Total(TrigramFeatures(m, w1, w2, w3))
  }

  // ----- identities name one feature within a trigram -----

  /** The feature an identity stands for in this trigram. */
  function FeatureFor(m: Model, w1: WordData, w2: WordData, w3: WordData, identity: nat): PreparedFeature {
    var kind, position := identity / GROUP_LIMIT, identity % GROUP_LIMIT;
    var view :=
      if kind == 0x02 then F2(w1.lexeme, w2.igs, w3.lexeme, w3.igs)
      else if kind == 0x03 then F3(w2.lexeme, w2.igs, w3.lexeme, w3.igs)
      else if kind == 0x04 then F4(w3.lexeme, w3.igs)
      else if kind == 0x09 then F9(w2.lexeme, w3.lexeme)
      else if kind == 0x0a then F10(w3.lexeme)
      else if kind == 0x0b then F10b(w2.lexeme)
      else if kind == 0x0c then F10c(w1.lexeme)
      else if kind == 0x15 && position < |w3.igs| then F15(LastOrEmpty(w1.igs), LastOrEmpty(w2.igs), w3.igs[position])
      else if kind == 0x17 && position < |w3.igs| then F17(LastOrEmpty(w2.igs), w3.igs[position])
      else if kind == 0x20 && position < |w3.igs| then F20(position, w3.igs[position])
      else F22(|w3.igs|);
    Prepare(m, view, identity)
  }

  ghost predicate Named(m: Model, w1: WordData, w2: WordData, w3: WordData, fs: seq<PreparedFeature>) {
    forall i :: 0 <= i < |fs| ==> fs[i] == FeatureFor(m, w1, w2, w3, fs[i].identity)
  }

  lemma IdentityParts(kind: nat, position: nat)
    requires position < GROUP_LIMIT
    ensures Identity(kind, position) / GROUP_LIMIT == kind && Identity(kind, position) % GROUP_LIMIT == position
  {
  }

  lemma NamedConsistent(m: Model, w1: WordData, w2: WordData, w3: WordData, fs: seq<PreparedFeature>)
    requires Named(m, w1, w2, w3, fs)
    ensures Consistent(fs)
  {
  }

  lemma NamedHead(m: Model, w1: WordData, w2: WordData, w3: WordData)
    ensures Named(m, w1, w2, w3, Head(m, w1, w2, w3))
    ensures Named(m, w1, w2, w3, [Prepare(m, F22(|w3.igs|), Identity(0x22, 0))])
  {
  }

  lemma NamedGroup(m: Model, w1: WordData, w2: WordData, w3: WordData, i: nat)
    requires i < |w3.igs| <= GROUP_LIMIT
    ensures Named(m, w1, w2, w3, [Feature15(m, w1, w2, w3, i)])
    ensures Named(m, w1, w2, w3, [Feature17(m, w2, w3, i)])
    ensures Named(m, w1, w2, w3, [Feature20(m, w3, i)])
  {
    IdentityParts(0x15, Representative(w3.igs, i));
    IdentityParts(0x17, Representative(w3.igs, i));
    IdentityParts(0x20, i);
  }

  lemma NamedConcat(m: Model, w1: WordData, w2: WordData, w3: WordData, a: seq<PreparedFeature>, b: seq<PreparedFeature>)
    requires Named(m, w1, w2, w3, a) && Named(m, w1, w2, w3, b)
    ensures Named(m, w1, w2, w3, a + b)
  {
    hide FeatureFor;
  }

  /** The order of the prepared scorer is a permutation of the direct order. */
  lemma {:induction false} AlternatingIsSplit(m: Model, w1: WordData, w2: WordData, w3: WordData, k: nat)
    requires k <= |w3.igs|
    ensures multiset(Alternating(m, w1, w2, w3, k)) == multiset(All15(m, w1, w2, w3, k) + All17(m, w2, w3, k))
  {
    if k > 0 {
      AlternatingIsSplit(m, w1, w2, w3, k - 1);
      hide Alternating, All15, All17;
      SplitPair(Alternating(m, w1, w2, w3, k - 1), All15(m, w1, w2, w3, k - 1), All17(m, w2, w3, k - 1),
                Feature15(m, w1, w2, w3, k - 1), Feature17(m, w2, w3, k - 1));
    }
  }

  lemma SplitPair(both: seq<PreparedFeature>, left: seq<PreparedFeature>, right: seq<PreparedFeature>,
                  one: PreparedFeature, other: PreparedFeature)
    requires multiset(both) == multiset(left + right)
    ensures multiset(both + [one, other]) == multiset((left + [one]) + (right + [other]))
  {
    assert both + [one, other] == both + [one] + [other];
  }

  lemma {:induction false} PreparedOrderPermutes(m: Model, w1: WordData, w2: WordData, w3: WordData)
    ensures Total(Head(m, w1, w2, w3) + All15(m, w1, w2, w3, |w3.igs|) + All17(m, w2, w3, |w3.igs|)
                  + All20(m, w3, |w3.igs|) + [Prepare(m, F22(|w3.igs|), Identity(0x22, 0))])
         == TrigramScore(m, w1, w2, w3)
  {
    hide Total, Head, Alternating, All15, All17, All20;
    var h, n := Head(m, w1, w2, w3), |w3.igs|;
    var f15, f17, f20 := All15(m, w1, w2, w3, n), All17(m, w2, w3, n), All20(m, w3, n);
    var last := [Prepare(m, F22(n), Identity(0x22, 0))];
    AlternatingIsSplit(m, w1, w2, w3, n);
    assert multiset(h + f15 + f17 + f20 + last) == multiset(h) + multiset(f15 + f17) + multiset(f20) + multiset(last);
    assert multiset(TrigramFeatures(m, w1, w2, w3))
        == multiset(h) + multiset(Alternating(m, w1, w2, w3, n)) + multiset(f20) + multiset(last);
    TotalOfPermutation(h + f15 + f17 + f20 + last, TrigramFeatures(m, w1, w2, w3));
  }

  // ----- the two scorers -----

  method AddNamed(ghost m: Model, ghost w1: WordData, ghost w2: WordData, ghost w3: WordData, f: PreparedFeature, scratch: FeatureScratch)
    requires scratch.Valid() && Named(m, w1, w2, w3, scratch.added) && Named(m, w1, w2, w3, [f])
    modifies scratch
    ensures scratch.Valid() && scratch.added == old(scratch.added) + [f]
    ensures Named(m, w1, w2, w3, scratch.added)
  {
    NamedConcat(m, w1, w2, w3, scratch.added, [f]);
    NamedConsistent(m, w1, w2, w3, scratch.added + [f]);
    scratch.Add(f);
  }

  lemma NamedElement(m: Model, w1: WordData, w2: WordData, w3: WordData, fs: seq<PreparedFeature>, i: nat)
    requires Named(m, w1, w2, w3, fs) && i < |fs|
    ensures Named(m, w1, w2, w3, [fs[i]])
  {
  }

  /** Starts a trigram with the seven features that do not depend on single groups. */
  method AddHead(ghost m: Model, ghost w1: WordData, ghost w2: WordData, ghost w3: WordData,
                 head: seq<PreparedFeature>, scratch: FeatureScratch)
    requires scratch.Valid() && head == Head(m, w1, w2, w3)
    modifies scratch
    ensures scratch.Valid() && scratch.added == head
    ensures Named(m, w1, w2, w3, scratch.added)
  {
    NamedHead(m, w1, w2, w3);
    hide FeatureFor, Consistent, Holds, Prepare, Feature2;
    scratch.Reset();
    for i := 0 to 7
      invariant scratch.Valid() && scratch.added == head[..i]
      invariant Named(m, w1, w2, w3, scratch.added)
    {
      NamedElement(m, w1, w2, w3, head, i);
      AddNamed(m, w1, w2, w3, head[i], scratch);
    }
  }

  /** Scores a trigram from its three words. */
  method ScoreParts(m: Model, w1: WordData, w2: WordData, w3: WordData, scratch: FeatureScratch) returns (score: int)
    requires scratch.Valid() && |w3.igs| <= GROUP_LIMIT
    modifies scratch
    ensures scratch.Valid() && score == TrigramScore(m, w1, w2, w3)
  {
    hide Consistent, FeatureFor, Feature2, Feature15, Feature17, Feature20, Total, Named, Holds, Prepare;
    AddHead(m, w1, w2, w3, Head(m, w1, w2, w3), scratch);
    NamedHead(m, w1, w2, w3);
    hide Head;
    ghost var head := Head(m, w1, w2, w3);
    for i := 0 to |w3.igs|
      invariant scratch.Valid() && Named(m, w1, w2, w3, scratch.added)
      invariant scratch.added == head + Alternating(m, w1, w2, w3, i)
    {
      NamedGroup(m, w1, w2, w3, i);
      AddNamed(m, w1, w2, w3, Feature15(m, w1, w2, w3, i), scratch);
      AddNamed(m, w1, w2, w3, Feature17(m, w2, w3, i), scratch);
    }
    ghost var groups := head + Alternating(m, w1, w2, w3, |w3.igs|);
    for i := 0 to |w3.igs|
      invariant scratch.Valid() && Named(m, w1, w2, w3, scratch.added)
      invariant scratch.added == groups + All20(m, w3, i)
    {
      NamedGroup(m, w1, w2, w3, i);
      AddNamed(m, w1, w2, w3, Feature20(m, w3, i), scratch);
    }
    AddNamed(m, w1, w2, w3, Prepare(m, F22(|w3.igs|), Identity(0x22, 0)), scratch);
    score := scratch.Score();
  }

  /** Scores a trigram from the prepared features of its words and of its last pair. */
  method ScorePrepared(m: Model, w1: WordData, w2: WordData, w3: WordData,
                       prepared1: PreparedWord, prepared2: PreparedWord, prepared3: PreparedWord,
                       pair: PreparedPair, scratch: FeatureScratch) returns (score: int)
    requires scratch.Valid() && |w3.igs| <= GROUP_LIMIT
    requires prepared1 == PrepareWord(m, w1) && prepared2 == PrepareWord(m, w2)
    requires prepared3 == PrepareWord(m, w3) && pair == PreparePair(m, w2, w3)
    modifies scratch
    ensures scratch.Valid() && score == TrigramScore(m, w1, w2, w3)
  {
    hide Consistent, FeatureFor, Feature2, Feature15, Feature17, Feature20, Total, Named, TrigramScore, Holds, Prepare;
    AddHead(m, w1, w2, w3, [Feature2(m, w1, w2, w3), pair.f3, prepared3.f4, pair.f9,
                            prepared3.f10, prepared2.f10b, prepared1.f10c], scratch);
    NamedHead(m, w1, w2, w3);
    hide Head;
    ghost var head := Head(m, w1, w2, w3);
    ghost var n := |w3.igs|;
    for i := 0 to |w3.igs|
      invariant scratch.Valid() && Named(m, w1, w2, w3, scratch.added)
      invariant scratch.added == head + All15(m, w1, w2, w3, i)
    {
      NamedGroup(m, w1, w2, w3, i);
      AddNamed(m, w1, w2, w3, Feature15(m, w1, w2, w3, i), scratch);
    }
    ghost var after15 := head + All15(m, w1, w2, w3, n);
    for i := 0 to |pair.f17|
      invariant scratch.Valid() && Named(m, w1, w2, w3, scratch.added)
      invariant scratch.added == after15 + All17(m, w2, w3, i)
    {
      NamedGroup(m, w1, w2, w3, i);
      AddNamed(m, w1, w2, w3, pair.f17[i], scratch);
    }
    ghost var after17 := after15 + All17(m, w2, w3, n);
    for i := 0 to |prepared3.f20|
      invariant scratch.Valid() && Named(m, w1, w2, w3, scratch.added)
      invariant scratch.added == after17 + All20(m, w3, i)
    {
      NamedGroup(m, w1, w2, w3, i);
      AddNamed(m, w1, w2, w3, prepared3.f20[i], scratch);
    }
    AddNamed(m, w1, w2, w3, prepared3.f22, scratch);
    PreparedOrderPermutes(m, w1, w2, w3);
    score := scratch.Score();
  }
}
