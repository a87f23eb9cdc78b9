/** What the score of a trigram is, written out over its three words. */
module TrigramMeaning {
  import opened FeatureTable
  import opened Trigram

  /** The weights of the first `k` groups of the third word. Behind its 32767th occurrence a group counts
      for its position only. */
  ghost function GroupWeights(m: Model, last1: string, last2: string, igs: seq<string>, k: nat): int
    requires k <= |igs|
  {
    if k == 0 then 0
    else
      var ig := igs[k - 1];
      GroupWeights(m, last1, last2, igs, k - 1) + m.weight(F20(k - 1, ig))
      + if multiset(igs[..k - 1])[ig] < 32767 then m.weight(F15(last1, last2, ig)) + m.weight(F17(last2, ig)) else 0
  }

  /** The part of it that does not depend on positions. */
  ghost function PairWeights(m: Model, last1: string, last2: string, igs: seq<string>, k: nat): int
    requires k <= |igs|
  {
    if k == 0 then 0
    else
      var ig := igs[k - 1];
      PairWeights(m, last1, last2, igs, k - 1)
      + if multiset(igs[..k - 1])[ig] < 32767 then m.weight(F15(last1, last2, ig)) + m.weight(F17(last2, ig)) else 0
  }

  ghost function PositionWeights(m: Model, igs: seq<string>, k: nat): int
    requires k <= |igs|
  {
    if k == 0 then 0 else PositionWeights(m, igs, k - 1) + m.weight(F20(k - 1, igs[k - 1]))
  }

  lemma {:induction false} GroupsSplit(m: Model, last1: string, last2: string, igs: seq<string>, k: nat)
    requires k <= |igs|
    ensures GroupWeights(m, last1, last2, igs, k) == PairWeights(m, last1, last2, igs, k) + PositionWeights(m, igs, k)
  {
    if k > 0 {
      GroupsSplit(m, last1, last2, igs, k - 1);
    }
  }

  // ------------------------------------------------------------ how often a feature occurs

  function KindOf(f: PreparedFeature): nat {
    f.identity / GROUP_LIMIT
  }

  predicate KindsIn(fs: seq<PreparedFeature>, low: nat, high: nat) {
    forall i: nat | i < |fs| :: low <= KindOf(fs[i]) < high
  }

  lemma OtherKind(fs: seq<PreparedFeature>, low: nat, high: nat, x: PreparedFeature)
    requires KindsIn(fs, low, high) && !(low <= KindOf(x) < high)
    ensures multiset(fs)[x] == 0
  {
    hide KindOf;
    forall i: nat | i < |fs|
      ensures fs[i] != x
    {
    }
    assert x !in fs;
  }

  lemma KindsConcat(first: seq<PreparedFeature>, second: seq<PreparedFeature>, low: nat, high: nat)
    requires KindsIn(first, low, high) && KindsIn(second, low, high)
    ensures KindsIn(first + second, low, high)
  {
    hide KindOf;
  }

  lemma HeadKinds(m: Model, w1: WordData, w2: WordData, w3: WordData)
    ensures KindsIn(Head(m, w1, w2, w3), 0, 0x15)
  {
  }

  lemma GroupKinds(m: Model, w1: WordData, w2: WordData, w3: WordData, i: nat)
    requires i < |w3.igs| <= GROUP_LIMIT
    ensures KindOf(Feature15(m, w1, w2, w3, i)) == 0x15 && KindOf(Feature17(m, w2, w3, i)) == 0x17
    ensures KindOf(Feature20(m, w3, i)) == 0x20
  {
    IdentityParts(0x15, Representative(w3.igs, i));
    IdentityParts(0x17, Representative(w3.igs, i));
    IdentityParts(0x20, i);
  }

  lemma {:induction false} AlternatingKinds(m: Model, w1: WordData, w2: WordData, w3: WordData, k: nat)
    requires k <= |w3.igs| <= GROUP_LIMIT
    ensures KindsIn(Alternating(m, w1, w2, w3, k), 0x15, 0x18)
  {
    hide KindOf, Feature15, Feature17;
    if k > 0 {
      AlternatingKinds(m, w1, w2, w3, k - 1);
      GroupKinds(m, w1, w2, w3, k - 1);
    }
  }

  lemma {:induction false} Kinds20(m: Model, w1: WordData, w2: WordData, w3: WordData, k: nat)
    requires k <= |w3.igs| <= GROUP_LIMIT
    ensures KindsIn(All20(m, w3, k), 0x20, 0x21)
  {
    hide KindOf, Feature20;
    if k > 0 {
      Kinds20(m, w1, w2, w3, k - 1);
      GroupKinds(m, w1, w2, w3, k - 1);
    }
  }

  /** Features of groups are equal exactly if the groups are. */
  lemma SameGroup(m: Model, w1: WordData, w2: WordData, w3: WordData, i: nat, j: nat)
    requires i < |w3.igs| <= GROUP_LIMIT && j < |w3.igs|
    ensures Feature15(m, w1, w2, w3, i) == Feature15(m, w1, w2, w3, j) <==> w3.igs[i] == w3.igs[j]
    ensures Feature17(m, w2, w3, i) == Feature17(m, w2, w3, j) <==> w3.igs[i] == w3.igs[j]
  {
    var r, s := Representative(w3.igs, i), Representative(w3.igs, j);
    IdentityParts(0x15, r);
    IdentityParts(0x15, s);
    IdentityParts(0x17, r);
    IdentityParts(0x17, s);
    assert w3.igs[i] == w3.igs[j] ==> r == s;
  }

  lemma CountTwo(fs: seq<PreparedFeature>, one: PreparedFeature, other: PreparedFeature, x: PreparedFeature)
    requires one != other
    ensures multiset(fs + [one, other])[x] == multiset(fs)[x] + if x == one || x == other then 1 else 0
  {
    CountConcat(fs, [one, other], x);
  }

  lemma CountGroup(igs: seq<string>, k: nat, ig: string)
    requires 0 < k <= |igs|
    ensures multiset(igs[..k])[ig] == multiset(igs[..k - 1])[ig] + if igs[k - 1] == ig then 1 else 0
  {
    assert igs[..k] == igs[..k - 1] + [igs[k - 1]];
  }

  lemma CountConcat(first: seq<PreparedFeature>, second: seq<PreparedFeature>, x: PreparedFeature)
    ensures multiset(first + second)[x] == multiset(first)[x] + multiset(second)[x]
  {
  }

  lemma NoneAlternating(m: Model, w1: WordData, w2: WordData, w3: WordData)
    ensures Alternating(m, w1, w2, w3, 0) == [] && All20(m, w3, 0) == []
  {
  }

  lemma AlternatingPush(m: Model, w1: WordData, w2: WordData, w3: WordData, k: nat)
    requires 0 < k <= |w3.igs|
    ensures Alternating(m, w1, w2, w3, k)
         == Alternating(m, w1, w2, w3, k - 1) + [Feature15(m, w1, w2, w3, k - 1), Feature17(m, w2, w3, k - 1)]
    ensures All20(m, w3, k) == All20(m, w3, k - 1) + [Feature20(m, w3, k - 1)]
  {
  }

  lemma {:induction false} OccurrencesOfGroup(m: Model, w1: WordData, w2: WordData, w3: WordData, k: nat, i: nat)
    requires k <= i < |w3.igs| <= GROUP_LIMIT
    ensures multiset(Alternating(m, w1, w2, w3, k))[Feature15(m, w1, w2, w3, i)] == multiset(w3.igs[..k])[w3.igs[i]]
    ensures multiset(Alternating(m, w1, w2, w3, k))[Feature17(m, w2, w3, i)] == multiset(w3.igs[..k])[w3.igs[i]]
  {
    hide Feature15, Feature17, Alternating, KindOf;
    if k == 0 {
      NoneAlternating(m, w1, w2, w3);
      assert w3.igs[..0] == [];
    } else {
      var one, other := Feature15(m, w1, w2, w3, k - 1), Feature17(m, w2, w3, k - 1);
      OccurrencesOfGroup(m, w1, w2, w3, k - 1, i);
      SameGroup(m, w1, w2, w3, k - 1, i);
      GroupKinds(m, w1, w2, w3, i);
      GroupKinds(m, w1, w2, w3, k - 1);
      AlternatingPush(m, w1, w2, w3, k);
      CountTwo(Alternating(m, w1, w2, w3, k - 1), one, other, Feature15(m, w1, w2, w3, i));
      CountTwo(Alternating(m, w1, w2, w3, k - 1), one, other, Feature17(m, w2, w3, i));
      CountGroup(w3.igs, k, w3.igs[i]);
    }
  }

  // ------------------------------------------------------------ the parts of the score

  lemma {:induction false} OccurrencesBounded(fs: seq<PreparedFeature>, f: PreparedFeature)
    ensures multiset(fs)[f] <= |fs|
  {
    if fs != [] {
      OccurrencesBounded(fs[..|fs| - 1], f);
      assert fs == fs[..|fs| - 1] + [fs[|fs| - 1]];
    }
  }

  lemma {:induction false} SumOfSeven(fs: seq<PreparedFeature>)
    requires |fs| == 7
    ensures Total(fs) == fs[0].weight + fs[1].weight + fs[2].weight + fs[3].weight + fs[4].weight + fs[5].weight + fs[6].weight
  {
    hide Total;
    forall f | f in fs
      ensures multiset(fs)[f] <= COUNT_CAP
    {
      OccurrencesBounded(fs, f);
    }
    TotalIsWeightSum(fs);
    SumsOfFirst(fs);
  }

  lemma {:induction false} WeightPush(fs: seq<PreparedFeature>, k: nat)
    requires k < |fs|
    ensures WeightSum(fs[..k + 1]) == WeightSum(fs[..k]) + fs[k].weight
  {
    assert fs[..k + 1][..k] == fs[..k];
  }

  lemma {:induction false} SumsOfFirst(fs: seq<PreparedFeature>)
    requires |fs| == 7
    ensures WeightSum(fs) == fs[0].weight + fs[1].weight + fs[2].weight + fs[3].weight + fs[4].weight + fs[5].weight + fs[6].weight
  {
    assert WeightSum(fs[..0]) == 0;
    hide WeightSum;
    WeightPush(fs, 0);
    WeightPush(fs, 1);
    WeightPush(fs, 2);
    WeightPush(fs, 3);
    WeightPush(fs, 4);
    WeightPush(fs, 5);
    WeightPush(fs, 6);
    assert fs[..7] == fs;
  }

  lemma HeadTotal(m: Model, w1: WordData, w2: WordData, w3: WordData)
    ensures Total(Head(m, w1, w2, w3)) ==
      m.weight(F2(w1.lexeme, w2.igs, w3.lexeme, w3.igs)) + m.weight(F3(w2.lexeme, w2.igs, w3.lexeme, w3.igs))
      + m.weight(F4(w3.lexeme, w3.igs)) + m.weight(F9(w2.lexeme, w3.lexeme)) + m.weight(F10(w3.lexeme))
      + m.weight(F10b(w2.lexeme)) + m.weight(F10c(w1.lexeme))
  {
    hide Total;
    SumOfSeven(Head(m, w1, w2, w3));
  }

  lemma GroupWeightsAre(m: Model, w1: WordData, w2: WordData, w3: WordData, i: nat)
    requires i < |w3.igs|
    ensures Feature15(m, w1, w2, w3, i).weight
         == m.weight(F15(if w1.igs == [] then "" else w1.igs[|w1.igs| - 1],
                         if w2.igs == [] then "" else w2.igs[|w2.igs| - 1], w3.igs[i]))
    ensures Feature17(m, w2, w3, i).weight
         == m.weight(F17(if w2.igs == [] then "" else w2.igs[|w2.igs| - 1], w3.igs[i]))
    ensures Feature20(m, w3, i).weight == m.weight(F20(i, w3.igs[i]))
  {
  }

  lemma AddTwo(fs: seq<PreparedFeature>, one: PreparedFeature, other: PreparedFeature, count: nat)
    requires multiset(fs)[one] == count && multiset(fs)[other] == count && one != other
    ensures Total(fs + [one] + [other]) == Total(fs) + Gain(count, one) + Gain(count, other)
  {
    hide Total, Gain;
    TotalSnoc(fs, one);
    TotalSnoc(fs + [one], other);
    CountConcat(fs, [one], other);
  }

  lemma AddOne(fs: seq<PreparedFeature>, one: PreparedFeature)
    requires multiset(fs)[one] == 0
    ensures Total(fs + [one]) == Total(fs) + one.weight
  {
    hide Total;
    TotalSnoc(fs, one);
  }

  lemma {:induction false} AlternatingTotal(m: Model, w1: WordData, w2: WordData, w3: WordData, head: seq<PreparedFeature>,
                                            last1: string, last2: string, k: nat)
    requires k <= |w3.igs| <= GROUP_LIMIT && KindsIn(head, 0, 0x15)
    requires last1 == if w1.igs == [] then "" else w1.igs[|w1.igs| - 1]
    requires last2 == if w2.igs == [] then "" else w2.igs[|w2.igs| - 1]
    ensures Total(head + Alternating(m, w1, w2, w3, k)) == Total(head) + PairWeights(m, last1, last2, w3.igs, k)
  {
    hide Total, Feature15, Feature17, KindOf, KindsIn, Alternating;
    if k == 0 {
      NoneAlternating(m, w1, w2, w3);
      assert head + Alternating(m, w1, w2, w3, 0) == head;
    } else {
      var before := Alternating(m, w1, w2, w3, k - 1);
      var one, other := Feature15(m, w1, w2, w3, k - 1), Feature17(m, w2, w3, k - 1);
      AlternatingTotal(m, w1, w2, w3, head, last1, last2, k - 1);
      OccurrencesOfGroup(m, w1, w2, w3, k - 1, k - 1);
      GroupKinds(m, w1, w2, w3, k - 1);
      OtherKind(head, 0, 0x15, one);
      OtherKind(head, 0, 0x15, other);
      GroupWeightsAre(m, w1, w2, w3, k - 1);
      CountConcat(head, before, one);
      CountConcat(head, before, other);
      AddTwo(head + before, one, other, multiset(w3.igs[..k - 1])[w3.igs[k - 1]]);
      AlternatingPush(m, w1, w2, w3, k);
      assert head + (before + [one, other]) == head + before + [one] + [other];
    }
  }

  lemma {:induction false} PositionsTotal(m: Model, w1: WordData, w2: WordData, w3: WordData, before: seq<PreparedFeature>, k: nat)
    requires k <= |w3.igs| <= GROUP_LIMIT && KindsIn(before, 0, 0x18)
    ensures Total(before + All20(m, w3, k)) == Total(before) + PositionWeights(m, w3.igs, k)
  {
    hide Total, KindOf, KindsIn, Feature20, All20;
    if k == 0 {
      NoneAlternating(m, w1, w2, w3);
      assert before + All20(m, w3, 0) == before;
    } else {
      PositionsTotal(m, w1, w2, w3, before, k - 1);
      var next := Feature20(m, w3, k - 1);
      GroupKinds(m, w1, w2, w3, k - 1);
      OtherKind(before, 0, 0x18, next);
      NewPosition(m, w1, w2, w3, k - 1);
      GroupWeightsAre(m, w1, w2, w3, k - 1);
      CountConcat(before, All20(m, w3, k - 1), next);
      AddOne(before + All20(m, w3, k - 1), next);
      AlternatingPush(m, w1, w2, w3, k);
      assert before + (All20(m, w3, k - 1) + [next]) == before + All20(m, w3, k - 1) + [next];
    }
  }

  lemma NewPosition(m: Model, w1: WordData, w2: WordData, w3: WordData, k: nat)
    requires k < |w3.igs| <= GROUP_LIMIT
    ensures multiset(All20(m, w3, k))[Feature20(m, w3, k)] == 0
  {
    hide Feature20;
    EarlierPositions(m, w3, k, k);
    forall i: nat | i < |All20(m, w3, k)|
      ensures All20(m, w3, k)[i] != Feature20(m, w3, k)
    {
      DistinctPositions(m, w3, i, k);
    }
    assert Feature20(m, w3, k) !in All20(m, w3, k);
  }

  lemma {:induction false} EarlierPositions(m: Model, w3: WordData, n: nat, k: nat)
    requires n <= k <= |w3.igs|
    ensures |All20(m, w3, n)| == n && forall i: nat | i < n :: All20(m, w3, n)[i] == Feature20(m, w3, i)
  {
    hide Feature20;
    if n > 0 {
      EarlierPositions(m, w3, n - 1, k);
    }
  }

  lemma DistinctPositions(m: Model, w3: WordData, i: nat, j: nat)
    requires i < j < |w3.igs| <= GROUP_LIMIT
    ensures Feature20(m, w3, i) != Feature20(m, w3, j)
  {
    IdentityParts(0x20, i);
    IdentityParts(0x20, j);
  }

  /** The score of three words: the weights of eight features of the trigram, and of three features for
      every group of the third word, seen with the last groups of the words before it. */
  lemma TrigramScoreIs(m: Model, w1: WordData, w2: WordData, w3: WordData)
    requires |w3.igs| <= 0x100_0000
    ensures TrigramScore(m, w1, w2, w3) ==
      m.weight(F2(w1.lexeme, w2.igs, w3.lexeme, w3.igs)) + m.weight(F3(w2.lexeme, w2.igs, w3.lexeme, w3.igs))
      + m.weight(F4(w3.lexeme, w3.igs)) + m.weight(F9(w2.lexeme, w3.lexeme)) + m.weight(F10(w3.lexeme))
      + m.weight(F10b(w2.lexeme)) + m.weight(F10c(w1.lexeme)) + m.weight(F22(|w3.igs|))
      + GroupWeights(m, if w1.igs == [] then "" else w1.igs[|w1.igs| - 1],
                     if w2.igs == [] then "" else w2.igs[|w2.igs| - 1], w3.igs, |w3.igs|)
  {
    hide Total, Alternating, All20, KindOf, KindsIn, Head;
    var n := |w3.igs|;
    var last1, last2 := if w1.igs == [] then "" else w1.igs[|w1.igs| - 1], if w2.igs == [] then "" else w2.igs[|w2.igs| - 1];
    var head, groups, positions := Head(m, w1, w2, w3), Alternating(m, w1, w2, w3, n), All20(m, w3, n);
    var count := Prepare(m, F22(n), Identity(0x22, 0));
    HeadTotal(m, w1, w2, w3);
    HeadKinds(m, w1, w2, w3);
    AlternatingTotal(m, w1, w2, w3, head, last1, last2, n);
    AlternatingKinds(m, w1, w2, w3, n);
    Kinds20(m, w1, w2, w3, n);
    AllKinds(head, groups, positions, count);
    PositionsTotal(m, w1, w2, w3, head + groups, n);
    TotalSnoc(head + groups + positions, count);
    GroupsSplit(m, last1, last2, w3.igs, n);
    assert TrigramFeatures(m, w1, w2, w3) == head + groups + positions + [count];
  }

  lemma AllKinds(head: seq<PreparedFeature>, groups: seq<PreparedFeature>, positions: seq<PreparedFeature>, count: PreparedFeature)
    requires KindsIn(head, 0, 0x15) && KindsIn(groups, 0x15, 0x18) && KindsIn(positions, 0x20, 0x21)
    requires count.identity == Identity(0x22, 0)
    ensures KindsIn(head + groups, 0, 0x18) && multiset(head + groups + positions)[count] == 0
  {
    KindsConcat(head, groups, 0, 0x18);
    KindsConcat(head + groups, positions, 0, 0x21);
    OtherKind(head + groups + positions, 0, 0x21, count);
  }
}
