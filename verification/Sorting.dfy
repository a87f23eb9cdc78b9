/** Sorting numbers without repetition, and what holds of permutations. */
module Sorting {

  predicate Increasing(xs: seq<nat>) {
    forall i: nat | 0 < i < |xs| :: xs[i - 1] < xs[i]
  }

  function Insert(xs: seq<nat>, x: nat): seq<nat> {
    if xs == [] || xs[|xs| - 1] < x then xs + [x]
    else if xs[|xs| - 1] == x then xs
    else Insert(xs[..|xs| - 1], x) + [xs[|xs| - 1]]
  }

  /** Sorting and dropping repetitions. */
  function SortDedup(xs: seq<nat>): seq<nat> {
    if xs == [] then [] else Insert(SortDedup(xs[..|xs| - 1]), xs[|xs| - 1])
  }

  lemma {:induction false} InsertIncreases(xs: seq<nat>, x: nat)
    requires Increasing(xs)
    ensures Increasing(Insert(xs, x)) && Insert(xs, x) != []
    ensures forall y: nat :: y in Insert(xs, x) <==> y in xs || y == x
    ensures Insert(xs, x)[|Insert(xs, x)| - 1] == if xs == [] || xs[|xs| - 1] < x then x else xs[|xs| - 1]
  {
    hide Increasing;
    if xs == [] || xs[|xs| - 1] < x {
      IncreasingPush(xs, x);
    } else if x < xs[|xs| - 1] {
      var body, last := xs[..|xs| - 1], xs[|xs| - 1];
      IncreasingBody(xs);
      InsertIncreases(body, x);
      IncreasingPush(Insert(body, x), last);
      assert xs == body + [last];
    }
  }

  lemma IncreasingPush(xs: seq<nat>, x: nat)
    requires Increasing(xs) && (xs != [] ==> xs[|xs| - 1] < x)
    ensures Increasing(xs + [x])
  {
  }

  lemma IncreasingBody(xs: seq<nat>)
    requires Increasing(xs) && xs != []
    ensures Increasing(xs[..|xs| - 1])
    ensures |xs| > 1 ==> xs[|xs| - 2] < xs[|xs| - 1]
  {
    assert |xs| > 1 ==> xs[|xs| - 1 - 1] < xs[|xs| - 1];
  }

  lemma {:induction false} SortDedupSorts(xs: seq<nat>)
    ensures Increasing(SortDedup(xs)) && forall y: nat :: y in SortDedup(xs) <==> y in xs
  {
    hide Insert;
    if xs != [] {
      var body, last := xs[..|xs| - 1], xs[|xs| - 1];
      SortDedupSorts(body);
      InsertIncreases(SortDedup(body), last);
      hide Increasing;
      assert SortDedup(xs) == Insert(SortDedup(body), last);
      LastOrBefore(xs);
    }
  }

  lemma LastOrBefore(xs: seq<nat>)
    requires xs != []
    ensures forall y: nat :: y in xs <==> y in xs[..|xs| - 1] || y == xs[|xs| - 1]
  {
    assert xs == xs[..|xs| - 1] + [xs[|xs| - 1]];
  }

  lemma {:induction false} IncreasingPairs(xs: seq<nat>, i: nat, j: nat)
    requires Increasing(xs) && i < j < |xs|
    ensures xs[i] < xs[j]
    decreases j
  {
    assert xs[j - 1] < xs[j];
    if i < j - 1 {
      IncreasingPairs(xs, i, j - 1);
    }
  }

  lemma CancelOne<T(!new)>(first: multiset<T>, second: multiset<T>, one: T)
    requires first + multiset{one} == second + multiset{one}
    ensures first == second
  {
    forall c: T
      ensures first[c] == second[c]
    {
      assert (first + multiset{one})[c] == (second + multiset{one})[c];
    }
  }
}
