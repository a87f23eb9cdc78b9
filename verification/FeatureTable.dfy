/** The reusable open-addressed feature table that sums perceptron weights. */
module FeatureTable {
  import opened Wrappers
  import opened Probing

  /** The largest multiplicity an entry can record (`i16::MAX`). */
  const COUNT_CAP: nat := 32767

  /** A feature with its trigram-local identity, its Java string hash and its weight. */
  datatype PreparedFeature = PreparedFeature(identity: nat, javaHash: int, weight: int)

  datatype FeatureEntry = FeatureEntry(feature: PreparedFeature, count: nat)

  type Slots = seq<Option<FeatureEntry>>

  function LoadLimit(capacity: nat): nat {
    capacity * 55 / 100
  }

  function HashSlot(rehash: int -> nat, javaHash: int, active: nat): (slot: nat)
    requires 0 < active
    ensures slot < active
  {
    rehash(javaHash) % active
  }

  // ----- what a list of features is worth -----

  /** What one more occurrence adds once `count` occurrences were added before it. */
  function Gain(count: nat, x: PreparedFeature): int {
    if count < COUNT_CAP then x.weight else 0
  }

  /** The value of adding the features one by one: an occurrence counts until its
      multiplicity has reached the cap. */
  ghost function Total(fs: seq<PreparedFeature>): int {
    if fs == [] then 0
    else
      var init := fs[..|fs| - 1];
      Total(init) + Gain(multiset(init)[fs[|fs| - 1]], fs[|fs| - 1])
  }

  /** The plain sum of the weights. */
  ghost function WeightSum(fs: seq<PreparedFeature>): int {
    if fs == [] then 0 else WeightSum(fs[..|fs| - 1]) + fs[|fs| - 1].weight
  }

  lemma {:induction false} TotalSnoc(fs: seq<PreparedFeature>, x: PreparedFeature)
    ensures Total(fs + [x]) == Total(fs) + Gain(multiset(fs)[x], x)
  {
    assert (fs + [x])[..|fs|] == fs;
  }

  /** Below the cap the total is the multiset sum of the weights. */
  lemma {:induction false} TotalIsWeightSum(fs: seq<PreparedFeature>)
    requires forall f :: f in fs ==> multiset(fs)[f] <= COUNT_CAP
    ensures Total(fs) == WeightSum(fs)
  {
    if fs != [] {
      var init, last := fs[..|fs| - 1], fs[|fs| - 1];
      assert multiset(fs) == multiset(init) + multiset{last} by {
        assert fs == init + [last];
      }
      assert multiset(fs)[last] <= COUNT_CAP;
      forall f | f in init
        ensures multiset(init)[f] <= COUNT_CAP
      {
        assert multiset(fs)[f] <= COUNT_CAP;
      }
      TotalIsWeightSum(init);
    }
  }

  /** Two neighbours may be added in either order. */
  lemma {:induction false} TotalSwap(s: seq<PreparedFeature>, x: PreparedFeature, y: PreparedFeature)
    ensures Total(s + [x] + [y]) == Total(s + [y] + [x])
  {
    TotalSnoc(s + [x], y);
    TotalSnoc(s, x);
    TotalSnoc(s + [y], x);
    TotalSnoc(s, y);
  }

  lemma {:induction false} MoveLastStep(p: seq<PreparedFeature>, q: seq<PreparedFeature>, x: PreparedFeature, y: PreparedFeature)
    requires Total(p) == Total(q + [x]) && multiset(p) == multiset(q + [x])
    ensures Total(p + [y]) == Total(q + [y] + [x]) && multiset(p + [y]) == multiset(q + [y] + [x])
  {
    TotalSnoc(p, y);
    TotalSnoc(q + [x], y);
    TotalSwap(q, x, y);
  }

  lemma {:induction false} TotalMoveLast(a: seq<PreparedFeature>, x: PreparedFeature, b: seq<PreparedFeature>)
    ensures Total(a + [x] + b) == Total(a + b + [x])
    ensures multiset(a + [x] + b) == multiset(a + b + [x])
    decreases |b|
  {
    hide Total;
    if b == [] {
      assert a + [x] + b == a + [x] && a + b == a;
    } else {
      var c, y := b[..|b| - 1], b[|b| - 1];
      TotalMoveLast(a, x, c);
      MoveLastStep(a + [x] + c, a + c, x, y);
      assert b == c + [y];
      assert (a + [x] + c) + [y] == a + [x] + b && a + c + [y] == a + b;
    }
  }

  /** The total depends on the multiset of features only, not on the order of adding. */
  lemma {:induction false} TotalOfPermutation(fs: seq<PreparedFeature>, gs: seq<PreparedFeature>)
    requires multiset(fs) == multiset(gs)
    ensures Total(fs) == Total(gs)
    decreases |gs|
  {
    if gs == [] {
      assert |multiset(fs)| == 0;
    } else {
      var init, x := gs[..|gs| - 1], gs[|gs| - 1];
      assert gs == init + [x];
      assert x in multiset(fs);
      var i :| 0 <= i < |fs| && fs[i] == x;
      var rest := fs[..i] + fs[i + 1..];
      assert fs == fs[..i] + [x] + fs[i + 1..];
      TotalMoveLast(fs[..i], x, fs[i + 1..]);
      SameRest(rest, init, x);
      TotalOfPermutation(rest, init);
      TotalSnoc(rest, x);
      TotalSnoc(init, x);
    }
  }

  lemma {:induction false} SameRest(a: seq<PreparedFeature>, b: seq<PreparedFeature>, x: PreparedFeature)
    requires multiset(a + [x]) == multiset(b + [x])
    ensures multiset(a) == multiset(b)
  {
    assert multiset(a + [x]) == multiset(a) + multiset{x};
    assert multiset(b + [x]) == multiset(b) + multiset{x};
    assert multiset(a) == multiset(a + [x]) - multiset{x};
  }

  /** An identity names one feature throughout a list. */
  ghost predicate Consistent(fs: seq<PreparedFeature>) {
    forall i, j :: 0 <= i < |fs| && 0 <= j < |fs| && fs[i].identity == fs[j].identity ==> fs[i] == fs[j]
  }

  // ----- the table against the list of added features -----

  function Value(slot: Option<FeatureEntry>): int {
    match slot
    case None => 0
    case Some(e) => e.feature.weight * e.count
  }

  ghost function SumSlots(slots: Slots, n: nat): int
    requires n <= |slots|
  {
    if n == 0 then 0 else SumSlots(slots, n - 1) + Value(slots[n - 1])
  }

  lemma {:induction false} SumUpdate(slots: Slots, n: nat, i: nat, v: Option<FeatureEntry>)
    requires i < |slots| && n <= |slots|
    ensures SumSlots(slots[i := v], n)
         == SumSlots(slots, n) + if i < n then Value(v) - Value(slots[i]) else 0
  {
    if n > 0 {
      SumUpdate(slots, n - 1, i, v);
    }
  }

  lemma {:induction false} SumEmpty(slots: Slots, n: nat)
    requires n <= |slots|
    requires forall s :: 0 <= s < n ==> slots[s] == None
    ensures SumSlots(slots, n) == 0
  {
    if n > 0 {
      SumEmpty(slots, n - 1);
    }
  }

  ghost predicate ReachableFrom(slots: Slots, n: nat, home: nat, s: nat)
    requires home < n <= |slots| && s < n
  {
    forall j :: 0 <= j < Distance(home, s, n) ==> slots[At(home, j, n)] != None
  }

  /** Every entry is found by probing from its home slot. */
  ghost predicate Reachable(slots: Slots, n: nat, rehash: int -> nat)
    requires n <= |slots|
  {
    forall s :: 0 <= s < n && slots[s].Some? ==>
      ReachableFrom(slots, n, HashSlot(rehash, slots[s].value.feature.javaHash, n), s)
  }

  ghost predicate NoDuplicates(slots: Slots, n: nat)
    requires n <= |slots|
  {
    forall s, t :: 0 <= s < t < n && slots[s].Some? && slots[t].Some? ==>
      slots[s].value.feature.identity != slots[t].value.feature.identity
  }

  function Capped(count: nat): nat {
    if count < COUNT_CAP then count else COUNT_CAP
  }

  /** The entries stored in the first `n` slots. */
  ghost function Entries(slots: Slots, n: nat): set<FeatureEntry>
    requires n <= |slots|
  {
    set s | 0 <= s < n && slots[s].Some? :: slots[s].value
  }

  /** One entry per distinct feature of the list, with its (capped) multiplicity. */
  ghost function Expected(fs: seq<PreparedFeature>): set<FeatureEntry> {
    set f | f in fs :: FeatureEntry(f, Capped(multiset(fs)[f]))
  }

  lemma ExpectedHas(fs: seq<PreparedFeature>, e: FeatureEntry)
    ensures e in Expected(fs) <==> e.feature in fs && e.count == Capped(multiset(fs)[e.feature])
  {
  }

  lemma ExpectedSnoc(fs: seq<PreparedFeature>, f: PreparedFeature)
    ensures Expected(fs + [f])
         == Expected(fs) - {FeatureEntry(f, Capped(multiset(fs)[f]))} + {FeatureEntry(f, Capped(multiset(fs)[f] + 1))}
  {
    var m := multiset(fs)[f];
    assert multiset(fs + [f]) == multiset(fs) + multiset{f};
    forall e: FeatureEntry
      ensures e in Expected(fs + [f])
         <==> e in Expected(fs) - {FeatureEntry(f, Capped(m))} + {FeatureEntry(f, Capped(m + 1))}
    {
      ExpectedHas(fs, e);
      ExpectedHas(fs + [f], e);
      assert e.feature in fs + [f] <==> e.feature in fs || e.feature == f;
    }
  }

  lemma EntriesUpdate(slots: Slots, n: nat, slot: nat, e: FeatureEntry)
    requires slot < n <= |slots| && NoDuplicates(slots, n)
    ensures Entries(slots[slot := Some(e)], n)
         == Entries(slots, n) - (if slots[slot].Some? then {slots[slot].value} else {}) + {e}
  {
    var after := slots[slot := Some(e)];
    forall x | x in Entries(slots, n) && (slots[slot].Some? ==> x != slots[slot].value)
      ensures x in Entries(after, n)
    {
      var s :| 0 <= s < n && slots[s].Some? && slots[s].value == x;
      assert after[s] == slots[s];
    }
    assert after[slot].value == e;
  }

  /** Writing an entry at the first free slot of its probe sequence keeps every entry reachable. */
  lemma InsertKeepsReachable(slots: Slots, n: nat, rehash: int -> nat, k: nat, e: FeatureEntry)
    requires 0 < n <= |slots| && k < n
    requires Reachable(slots, n, rehash)
    requires forall j :: 0 <= j < k ==> slots[At(HashSlot(rehash, e.feature.javaHash, n), j, n)] != None
    ensures Reachable(slots[At(HashSlot(rehash, e.feature.javaHash, n), k, n) := Some(e)], n, rehash)
  {
    var home := HashSlot(rehash, e.feature.javaHash, n);
    var slot := At(home, k, n);
    var after := slots[slot := Some(e)];
    forall s | 0 <= s < n && after[s].Some?
      ensures ReachableFrom(after, n, HashSlot(rehash, after[s].value.feature.javaHash, n), s)
    {
      if s == slot {
        assert Distance(home, slot, n) == k;
      } else {
        assert ReachableFrom(slots, n, HashSlot(rehash, slots[s].value.feature.javaHash, n), s);
      }
    }
  }

  /** Replacing an entry by one with the same feature keeps every entry reachable. */
  lemma UpdateKeepsReachable(slots: Slots, n: nat, rehash: int -> nat, slot: nat, e: FeatureEntry)
    requires slot < n <= |slots|
    requires Reachable(slots, n, rehash)
    requires slots[slot].Some? && slots[slot].value.feature == e.feature
    ensures Reachable(slots[slot := Some(e)], n, rehash)
  {
    var after := slots[slot := Some(e)];
    forall s | 0 <= s < n && after[s].Some?
      ensures ReachableFrom(after, n, HashSlot(rehash, after[s].value.feature.javaHash, n), s)
    {
      assert ReachableFrom(slots, n, HashSlot(rehash, slots[s].value.feature.javaHash, n), s);
    }
  }

  /** An entry is met before the probe from its home reaches a free slot. */
  lemma MetBeforeFree(slots: Slots, n: nat, home: nat, s: nat, k: nat)
    requires home < n <= |slots| && s < n && k < n
    requires slots[s] != None && ReachableFrom(slots, n, home, s)
    requires slots[At(home, k, n)] == None
    ensures Distance(home, s, n) < k
  {
    assert At(home, Distance(home, s, n), n) == s;
    assert k != Distance(home, s, n);
  }

  /** A probe that meets a free slot without meeting the identity proves it absent. */
  lemma MissMeansAbsent(slots: Slots, n: nat, rehash: int -> nat, f: PreparedFeature, k: nat)
    requires 0 < n <= |slots| && k < n && Reachable(slots, n, rehash)
    requires slots[At(HashSlot(rehash, f.javaHash, n), k, n)] == None
    requires forall j :: 0 <= j < k ==>
      slots[At(HashSlot(rehash, f.javaHash, n), j, n)].Some?
      && slots[At(HashSlot(rehash, f.javaHash, n), j, n)].value.feature.identity != f.identity
    ensures forall e :: e in Entries(slots, n) ==> e.feature != f
  {
    forall e | e in Entries(slots, n)
      ensures e.feature != f
    {
      var s :| 0 <= s < n && slots[s].Some? && slots[s].value == e;
      if e.feature.javaHash == f.javaHash {
        MetBeforeFree(slots, n, HashSlot(rehash, f.javaHash, n), s, k);
      }
    }
  }

  /** The table records exactly the features of `fs` with their multiplicities. */
  ghost predicate Holds(slots: Slots, n: nat, rehash: int -> nat, fs: seq<PreparedFeature>) {
    && 0 < n <= |slots|
    && Reachable(slots, n, rehash)
    && NoDuplicates(slots, n)
    && Consistent(fs)
    && Entries(slots, n) == Expected(fs)
    && SumSlots(slots, n) == Total(fs)
  }

  lemma {:induction false} EmptyHolds(slots: Slots, n: nat, rehash: int -> nat)
    requires 0 < n <= |slots| && forall s :: 0 <= s < n ==> slots[s] == None
    ensures Holds(slots, n, rehash, []) && Used(slots, n, None) == 0
  {
    UsedNone(slots, n, None);
    SumEmpty(slots, n);
  }

  /** A feature met for the first time takes the free slot its probe ended at. */
  lemma StoreNewHolds(slots: Slots, n: nat, rehash: int -> nat, fs: seq<PreparedFeature>, f: PreparedFeature, k: nat)
    requires Holds(slots, n, rehash, fs) && Consistent(fs + [f]) && k < n
    requires slots[At(HashSlot(rehash, f.javaHash, n), k, n)] == None
    requires forall j :: 0 <= j < k ==>
      slots[At(HashSlot(rehash, f.javaHash, n), j, n)].Some?
      && slots[At(HashSlot(rehash, f.javaHash, n), j, n)].value.feature.identity != f.identity
    ensures Holds(slots[At(HashSlot(rehash, f.javaHash, n), k, n) := Some(FeatureEntry(f, 1))], n, rehash, fs + [f])
  {
    var e := FeatureEntry(f, 1);
    var slot := At(HashSlot(rehash, f.javaHash, n), k, n);
    MissMeansAbsent(slots, n, rehash, f, k);
    NewFeature(slots, n, fs, f);
    NoDuplicatesAfterNew(slots, n, fs, f, slot);
    InsertKeepsReachable(slots, n, rehash, k, e);
    hide Consistent, SumSlots, NoDuplicates, Total, Reachable, Entries, Expected;
    EntriesUpdate(slots, n, slot, e);
    ExpectedSnoc(fs, f);
    SumUpdate(slots, n, slot, Some(e));
    TotalSnoc(fs, f);
  }

  lemma NewFeature(slots: Slots, n: nat, fs: seq<PreparedFeature>, f: PreparedFeature)
    requires n <= |slots| && Entries(slots, n) == Expected(fs)
    requires forall e :: e in Entries(slots, n) ==> e.feature != f
    ensures f !in fs && multiset(fs)[f] == 0
    ensures FeatureEntry(f, Capped(multiset(fs)[f])) !in Expected(fs)
  {
    assert f in fs ==> FeatureEntry(f, Capped(multiset(fs)[f])) in Expected(fs);
  }

  lemma NoDuplicatesAfterNew(slots: Slots, n: nat, fs: seq<PreparedFeature>, f: PreparedFeature, slot: nat)
    requires slot < n <= |slots| && NoDuplicates(slots, n) && Entries(slots, n) == Expected(fs)
    requires slots[slot] == None && f !in fs && Consistent(fs + [f])
    ensures NoDuplicates(slots[slot := Some(FeatureEntry(f, 1))], n)
  {
    forall s | 0 <= s < n && slots[s].Some?
      ensures slots[s].value.feature.identity != f.identity
    {
      assert slots[s].value in Entries(slots, n);
      var i :| 0 <= i < |fs| && fs[i] == slots[s].value.feature;
      assert (fs + [f])[i] == fs[i] && (fs + [f])[|fs|] == f;
    }
  }

  /** An entry with the identity of a consistent next feature records that feature. */
  lemma SameFeature(slots: Slots, n: nat, fs: seq<PreparedFeature>, f: PreparedFeature, slot: nat)
    requires slot < n <= |slots| && Entries(slots, n) == Expected(fs) && Consistent(fs + [f])
    requires slots[slot].Some? && slots[slot].value.feature.identity == f.identity
    ensures slots[slot].value == FeatureEntry(f, Capped(multiset(fs)[f]))
  {
    assert slots[slot].value in Entries(slots, n);
    ExpectedHas(fs, slots[slot].value);
    var i :| 0 <= i < |fs| && fs[i] == slots[slot].value.feature;
    assert (fs + [f])[i] == fs[i] && (fs + [f])[|fs|] == f;
  }

  lemma SameIdentities(slots: Slots, n: nat, slot: nat, e: FeatureEntry)
    requires slot < n <= |slots| && NoDuplicates(slots, n)
    requires slots[slot].Some? && slots[slot].value.feature.identity == e.feature.identity
    ensures NoDuplicates(slots[slot := Some(e)], n)
  {
  }

  /** One more occurrence changes the value of an entry by its gain. */
  lemma GainOfEntry(f: PreparedFeature, m: nat)
    ensures Value(Some(FeatureEntry(f, Capped(m + 1)))) - Value(Some(FeatureEntry(f, Capped(m)))) == Gain(m, f)
    ensures Capped(Capped(m) + 1) == Capped(m + 1)
  {
  }

  /** A feature met again raises the count of its entry. */
  lemma CountAgainHolds(slots: Slots, n: nat, rehash: int -> nat, fs: seq<PreparedFeature>, f: PreparedFeature, slot: nat)
    requires Holds(slots, n, rehash, fs) && Consistent(fs + [f]) && slot < n
    requires slots[slot].Some? && slots[slot].value.feature.identity == f.identity
    ensures slots[slot].value.feature == f
    ensures Holds(slots[slot := Some(FeatureEntry(f, Capped(slots[slot].value.count + 1)))], n, rehash, fs + [f])
  {
    SameFeature(slots, n, fs, f, slot);
    GainOfEntry(f, multiset(fs)[f]);
    var e := FeatureEntry(f, Capped(slots[slot].value.count + 1));
    hide Consistent, SumSlots, NoDuplicates, Total, Reachable, Entries, Expected, Value, Gain, Capped;
    SameIdentities(slots, n, slot, e);
    UpdateKeepsReachable(slots, n, rehash, slot, e);
    EntriesUpdate(slots, n, slot, e);
    ExpectedSnoc(fs, f);
    SumUpdate(slots, n, slot, Some(e));
    TotalSnoc(fs, f);
  }

  /** The state of rehashing after the first `i` old slots were placed again. */
  ghost predicate Rehashed(before: Slots, i: nat, after: Slots, n: nat, rehash: int -> nat) {
    && i <= |before| && 0 < n <= |after|
    && Used(after, n, None) == Used(before, i, None)
    && SumSlots(after, n) == SumSlots(before, i)
    && Reachable(after, n, rehash)
    && NoDuplicates(after, n)
    && Entries(after, n) == Entries(before, i)
  }

  lemma RehashStart(before: Slots, after: Slots, n: nat, rehash: int -> nat)
    requires 0 < n <= |after| && forall s :: 0 <= s < n ==> after[s] == None
    ensures Rehashed(before, 0, after, n, rehash)
  {
    UsedNone(after, n, None);
    SumEmpty(after, n);
  }

  lemma NoDuplicatesStep(before: Slots, i: nat, after: Slots, n: nat, slot: nat)
    requires i < |before| && slot < n <= |after| && Entries(after, n) == Entries(before, i)
    requires before[i].Some? && after[slot] == None
    requires NoDuplicates(before, |before|) && NoDuplicates(after, n)
    ensures NoDuplicates(after[slot := before[i]], n)
  {
    forall s | 0 <= s < n && after[s].Some?
      ensures after[s].value.feature.identity != before[i].value.feature.identity
    {
      assert after[s].value in Entries(before, i);
    }
  }

  lemma EntriesNext(before: Slots, i: nat)
    requires i < |before|
    ensures Entries(before, i + 1) == Entries(before, i) + if before[i].Some? then {before[i].value} else {}
  {
  }

  lemma RehashStep(before: Slots, i: nat, after: Slots, n: nat, rehash: int -> nat, slot: nat, after': Slots)
    requires Rehashed(before, i, after, n, rehash) && i < |before| && NoDuplicates(before, |before|)
    requires if before[i].Some? then slot < n && after[slot] == None && after' == after[slot := before[i]]
             else after' == after
    requires Reachable(after', n, rehash)
    ensures Rehashed(before, i + 1, after', n, rehash)
  {
    hide NoDuplicates, Reachable, Entries;
    EntriesNext(before, i);
    if before[i].Some? {
      UsedUpdate(after, n, None, slot, before[i]);
      SumUpdate(after, n, slot, before[i]);
      EntriesUpdate(after, n, slot, before[i].value);
      NoDuplicatesStep(before, i, after, n, slot);
    }
  }

  /** Only the active slots matter. */
  lemma {:induction false} HoldsOfPrefix(slots: Slots, n: nat, rehash: int -> nat, fs: seq<PreparedFeature>)
    requires Holds(slots, n, rehash, fs)
    ensures Holds(slots[..n], n, rehash, fs)
    ensures Used(slots[..n], n, None) == Used(slots, n, None)
  {
    var p := slots[..n];
    UsedPrefix(slots, p, n, None);
    SumPrefix(slots, p, n);
    forall s | 0 <= s < n && p[s].Some?
      ensures ReachableFrom(p, n, HashSlot(rehash, p[s].value.feature.javaHash, n), s)
    {
      assert ReachableFrom(slots, n, HashSlot(rehash, slots[s].value.feature.javaHash, n), s);
    }
    assert Entries(p, n) == Entries(slots, n);
  }

  lemma {:induction false} SumPrefix(a: Slots, b: Slots, n: nat)
    requires n <= |a| && n <= |b|
    requires forall s :: 0 <= s < n ==> a[s] == b[s]
    ensures SumSlots(a, n) == SumSlots(b, n)
  {
    if n > 0 {
      SumPrefix(a, b, n - 1);
    }
  }

  class FeatureScratch {
    const rehash: int -> nat
    var slots: Slots
    var activeLen: nat
    var keyCount: nat
    var threshold: nat
    /** The features added since the last reset. */
    ghost var added: seq<PreparedFeature>

    ghost predicate Valid()
      reads this
    {
      && 32 <= activeLen
      && threshold == LoadLimit(activeLen)
      && Holds(slots, activeLen, rehash, added)
      && keyCount == Used(slots, activeLen, None) <= threshold
    }

    constructor (rehash: int -> nat)
      ensures Valid() && added == [] && this.rehash == rehash
    {
      this.rehash := rehash;
      slots := seq(32, _ => None);
      activeLen := 32;
      keyCount := 0;
      threshold := LoadLimit(32);
      added := [];
      new;
      EmptyHolds(slots, 32, rehash);
    }

    method Reset()
      requires Valid()
      modifies this
      ensures Valid() && added == []
    {
      slots := Cleared(slots, activeLen, None);
      keyCount := 0;
      threshold := LoadLimit(activeLen);
      added := [];
      EmptyHolds(slots, activeLen, rehash);
    }

    /** Adds one occurrence of a feature. */
    method Add(f: PreparedFeature)
      requires Valid() && Consistent(added + [f])
      modifies this
      ensures Valid() && added == old(added) + [f]
    {
      hide Consistent, Entries, Expected, SumSlots, NoDuplicates, Total, Reachable;
      if keyCount == threshold {
        Expand();
      }
      ghost var n := activeLen;
      ghost var home := HashSlot(rehash, f.javaHash, n);
      var slot := HashSlot(rehash, f.javaHash, activeLen);
      ghost var k := 0;
      ProbeMeetsFree(slots, n, home, None);
      ghost var free :| 0 <= free < n && slots[At(home, free, n)] == None;
      while slots[slot].Some? && slots[slot].value.feature.identity != f.identity
        invariant k <= free && slot == At(home, k, n)
        invariant forall j :: 0 <= j < k ==>
          slots[At(home, j, n)].Some? && slots[At(home, j, n)].value.feature.identity != f.identity
        decreases n - k
      {
        slot := if slot + 1 == activeLen then 0 else slot + 1;
        k := k + 1;
      }
      match slots[slot] {
        case None =>
          StoreNewHolds(slots, n, rehash, added, f, k);
          UsedUpdate(slots, n, None, slot, Some(FeatureEntry(f, 1)));
          slots := slots[slot := Some(FeatureEntry(f, 1))];
          keyCount := keyCount + 1;
        case Some(existing) =>
          CountAgainHolds(slots, n, rehash, added, f, slot);
          var updated := Some(FeatureEntry(existing.feature, Capped(existing.count + 1)));
          UsedUpdate(slots, n, None, slot, updated);
          slots := slots[slot := updated];
      }
      added := added + [f];
    }

    /** Doubles the active part and places every entry again. */
    method Expand()
      requires Valid()
      modifies this
      ensures Valid() && added == old(added) && keyCount == old(keyCount)
      ensures activeLen == 2 * old(activeLen)
    {
      hide Consistent, Entries, Expected, SumSlots, NoDuplicates, Total, Reachable, Used;
      var oldLen := activeLen;
      var newLen := oldLen * 2;
      var rehashOrder := slots[..oldLen];
      HoldsOfPrefix(slots, oldLen, rehash, added);
      slots := Cleared(Resized(slots, newLen, None), newLen, None);
      RehashStart(rehashOrder, slots, newLen, rehash);
      var i := 0;
      while i < oldLen
        invariant 0 <= i <= oldLen
        invariant Rehashed(rehashOrder, i, slots, newLen, rehash)
        invariant Used(rehashOrder, i, None) <= i
        invariant added == old(added) && keyCount == old(keyCount) && activeLen == oldLen
      {
        ghost var before := slots;
        ghost var slot := 0;
        if rehashOrder[i].Some? {
          slot := Place(rehashOrder[i].value, newLen);
        }
        RehashStep(rehashOrder, i, before, newLen, rehash, slot, slots);
        i := i + 1;
      }
      activeLen := newLen;
      threshold := LoadLimit(newLen);
    }

    /** Puts an entry at the first free slot of its probe sequence. */
    method Place(e: FeatureEntry, n: nat) returns (slot: nat)
      requires 0 < n <= |slots| && Used(slots, n, None) < n
      requires Reachable(slots, n, rehash)
      modifies this`slots
      ensures slot < n && old(slots)[slot] == None && slots == old(slots)[slot := Some(e)]
      ensures Reachable(slots, n, rehash)
    {
      hide Reachable, Used, HashSlot;
      ghost var home := HashSlot(rehash, e.feature.javaHash, n);
      slot := HashSlot(rehash, e.feature.javaHash, n);
      ghost var k := 0;
      ProbeMeetsFree(slots, n, home, None);
      ghost var free :| 0 <= free < n && slots[At(home, free, n)] == None;
      while slots[slot].Some?
        invariant k <= free && slot == At(home, k, n)
        invariant forall j :: 0 <= j < k ==> slots[At(home, j, n)] != None
        decreases n - k
      {
        slot := if slot + 1 == n then 0 else slot + 1;
        k := k + 1;
      }
      InsertKeepsReachable(slots, n, rehash, k, e);
      slots := slots[slot := Some(e)];
    }

    /** Sums weight times multiplicity over the active slots. */
    method Score() returns (score: int)
      requires Valid()
      ensures score == Total(added)
    {
      score := 0;
      for s := 0 to activeLen
        invariant score == SumSlots(slots, s)
      {
        match slots[s] {
          case None =>
          case Some(e) => score := score + e.feature.weight * e.count;
        }
      }
    }
  }
}
