/** The open-addressed active list of the hash decoder. */
module ActiveTable {
  import opened Wrappers
  import opened Probing
  import opened FeatureTable
  import opened Lattice
  import opened Hypotheses

  // ----- the identity of a state -----

  datatype StateKey = Packed(key: nat) | Texts(previous: string, current: string)

  /** Two hypotheses are merged when their canonical analyses agree. */
  function KeyOf(d: Decoder, previous: nat, current: nat): StateKey
    requires d.Valid() && previous < |d.analyses| + 2 && current < |d.analyses| + 2
  {
    if d.Code(previous).Some? && d.Code(current).Some? then
      Packed(d.Code(previous).value.canonical * 0x1_0000_0000 + d.Code(current).value.canonical)
    else Texts(d.Word(previous).canonical, d.Word(current).canonical)
  }

  /** The low 32 bits of a product or sum, as a signed number. */
  function WrapI32(x: int): int {
    (x + 0x8000_0000) % 0x1_0000_0000 - 0x8000_0000
  }

  function JavaHash(d: Decoder, index: nat): int
    requires d.Valid() && index < |d.analyses| + 2
  {
    if d.Code(index).Some? then d.Code(index).value.javaHash else d.Word(index).javaHash
  }

  function StateHash(d: Decoder, previous: nat, current: nat): int
    requires d.Valid() && previous < |d.analyses| + 2 && current < |d.analyses| + 2
  {
    WrapI32(JavaHash(d, previous) * 31 + JavaHash(d, current))
  }

  ghost predicate InRange(d: Decoder, hypotheses: seq<Hypothesis>) {
    forall i :: 0 <= i < |hypotheses| ==>
      hypotheses[i].previous < |d.analyses| + 2 && hypotheses[i].current < |d.analyses| + 2
  }

  // ----- the table -----

  /** What offering a candidate did: it was added, it took the place of a weaker hypothesis
      with its key, or an equally good one with its key was there already. */
  datatype Offer = Pushed | Replaced(replaced: nat) | Kept(kept: nat) | Overflowed

  /** The hypotheses the active slots name. */
  ghost function Members(slots: seq<nat>, n: nat): set<nat>
    requires n <= |slots|
  {
    set s | 0 <= s < n && slots[s] != NO_INDEX :: slots[s]
  }

  ghost predicate NamedOnce(slots: seq<nat>, n: nat)
    requires n <= |slots|
  {
    forall s, t :: 0 <= s < t < n && slots[s] != NO_INDEX ==> slots[s] != slots[t]
  }

  /** The named hypotheses in slot order. */
  function Listed(slots: seq<nat>, n: nat): (listed: seq<nat>)
    requires n <= |slots|
    ensures |listed| <= n
  {
    if n == 0 then [] else Listed(slots, n - 1) + if slots[n - 1] == NO_INDEX then [] else [slots[n - 1]]
  }

  /** The list has the members, and each of them once. */
  lemma {:induction false} ListedMembers(slots: seq<nat>, n: nat)
    requires n <= |slots|
    ensures (set x | x in Listed(slots, n)) == Members(slots, n)
    ensures NamedOnce(slots, n) ==> forall i, j :: 0 <= i < j < |Listed(slots, n)| ==> Listed(slots, n)[i] != Listed(slots, n)[j]
  {
    if n > 0 {
      ListedMembers(slots, n - 1);
      MembersNext(slots, n - 1, n);
      ListedPush(Listed(slots, n - 1), slots[n - 1], Members(slots, n - 1));
    }
  }

  lemma PrefixElements(xs: seq<nat>, n: nat)
    requires n <= |xs|
    ensures (set o | 0 <= o < n :: xs[o]) == (set x | x in xs[..n])
  {
    forall x | x in xs[..n]
      ensures x in (set o | 0 <= o < n :: xs[o])
    {
      var o :| 0 <= o < n && xs[..n][o] == x;
      assert xs[o] == x;
    }
    forall o | 0 <= o < n
      ensures xs[o] in xs[..n]
    {
      assert xs[..n][o] == xs[o];
    }
  }

  lemma ListedPush(listed: seq<nat>, next: nat, members: set<nat>)
    requires (set x | x in listed) == members
    ensures (set x | x in listed + [next]) == members + {next}
    ensures next !in members && (forall i, j :: 0 <= i < j < |listed| ==> listed[i] != listed[j]) ==>
      forall i, j :: 0 <= i < j < |listed + [next]| ==> (listed + [next])[i] != (listed + [next])[j]
  {
    var more := listed + [next];
    forall x
      ensures x in more <==> x in members || x == next
    {
      assert x in more <==> x in listed || x == next;
      assert x in listed <==> x in (set y | y in listed);
    }
    forall i | 0 <= i < |listed|
      ensures listed[i] in members
    {
      assert listed[i] in listed;
    }
  }

  /** No slot before step j of a probe is free or names a hypothesis with the key. */
  ghost predicate FirstOnProbe(d: Decoder, hypotheses: seq<Hypothesis>, slots: seq<nat>, n: nat, hash: int, key: StateKey, j: nat)
    requires d.Valid() && InRange(d, hypotheses) && 0 < n <= |slots|
  {
    forall i: nat | i < j && j < n ::
      var stored := slots[At(HashSlot(d.model.rehash, hash, n), i, n)];
      stored != NO_INDEX && stored < |hypotheses| && KeyOf(d, hypotheses[stored].previous, hypotheses[stored].current) != key
  }

  /** The slot is the first on its probe that is free or names a hypothesis with the key. */
  ghost predicate StopsFirst(d: Decoder, hypotheses: seq<Hypothesis>, slots: seq<nat>, n: nat, hash: int, key: StateKey, slot: nat)
    requires d.Valid() && InRange(d, hypotheses) && 0 < n <= |slots|
  {
    exists j: nat ::
      j < n && slot == At(HashSlot(d.model.rehash, hash, n), j, n) && FirstOnProbe(d, hypotheses, slots, n, hash, key, j)
  }

  lemma ProbeStart(d: Decoder, hypotheses: seq<Hypothesis>, slots: seq<nat>, n: nat, hash: int, key: StateKey)
    requires d.Valid() && InRange(d, hypotheses) && 0 < n <= |slots|
    ensures FirstOnProbe(d, hypotheses, slots, n, hash, key, 0)
  {
  }

  lemma ProbeOn(d: Decoder, hypotheses: seq<Hypothesis>, slots: seq<nat>, n: nat, hash: int, key: StateKey, j: nat)
    requires d.Valid() && InRange(d, hypotheses) && 0 < n <= |slots| && j < n
    requires FirstOnProbe(d, hypotheses, slots, n, hash, key, j)
    requires var stored := slots[At(HashSlot(d.model.rehash, hash, n), j, n)];
      stored != NO_INDEX && stored < |hypotheses| && KeyOf(d, hypotheses[stored].previous, hypotheses[stored].current) != key
    ensures FirstOnProbe(d, hypotheses, slots, n, hash, key, j + 1)
  {
    hide Decoder.Valid, InRange, KeyOf, At, HashSlot;
  }

  lemma NamedInside(slots: seq<nat>, n: nat, s: nat)
    requires s < n <= |slots|
    ensures slots[s] != NO_INDEX ==> slots[s] in Members(slots, n)
  {
  }

  /** The slot names a best hypothesis, and every slot before it a worse one or none. */
  ghost predicate FirstBest(slots: seq<nat>, n: nat, hypotheses: seq<Hypothesis>, s: nat)
    requires n <= |slots|
  {
    && s < n && slots[s] != NO_INDEX && slots[s] < |hypotheses|
    && (forall t | 0 <= t < n && slots[t] != NO_INDEX ::
      slots[t] < |hypotheses| && hypotheses[slots[t]].score <= hypotheses[slots[s]].score)
    && (forall t | 0 <= t < s && slots[t] != NO_INDEX :: hypotheses[slots[t]].score < hypotheses[slots[s]].score)
  }

  lemma MembersSet(slots: seq<nat>, n: nat, slot: nat, index: nat)
    requires slot < n <= |slots| && slots[slot] == NO_INDEX && index != NO_INDEX
    ensures Members(slots[slot := index], n) == Members(slots, n) + {index}
    ensures NamedOnce(slots, n) && index !in Members(slots, n) ==> NamedOnce(slots[slot := index], n)
    ensures Used<nat>(slots[slot := index], n, NO_INDEX) == Used<nat>(slots, n, NO_INDEX) + 1
  {
    UsedUpdate<nat>(slots, n, NO_INDEX, slot, index);
    var after := slots[slot := index];
    forall x | x in Members(slots, n)
      ensures x in Members(after, n)
    {
      var s :| 0 <= s < n && slots[s] != NO_INDEX && slots[s] == x;
      assert after[s] == x;
    }
    assert after[slot] == index;
    assert forall s :: 0 <= s < n && slots[s] != NO_INDEX ==> slots[s] in Members(slots, n);
  }

  lemma MembersNext(slots: seq<nat>, s: nat, n: nat)
    requires s < n <= |slots|
    ensures Members(slots, s + 1) == Members(slots, s) + if slots[s] == NO_INDEX then {} else {slots[s]}
    ensures NamedOnce(slots, n) && slots[s] != NO_INDEX ==> slots[s] !in Members(slots, s)
    ensures slots[s] != NO_INDEX ==> slots[s] in Members(slots, n)
  {
  }

  lemma {:induction false} NoMembers(slots: seq<nat>, n: nat)
    requires n <= |slots| && forall s :: 0 <= s < n ==> slots[s] == NO_INDEX
    ensures Members(slots, n) == {} && NamedOnce(slots, n) && Used<nat>(slots, n, NO_INDEX) == 0
  {
    UsedNone<nat>(slots, n, NO_INDEX);
  }

  lemma {:induction false} SamePrefix(a: seq<nat>, b: seq<nat>, n: nat)
    requires n <= |a| && n <= |b| && forall s :: 0 <= s < n ==> a[s] == b[s]
    ensures Members(a, n) == Members(b, n) && Used<nat>(a, n, NO_INDEX) == Used<nat>(b, n, NO_INDEX)
    ensures NamedOnce(a, n) ==> NamedOnce(b, n)
  {
    UsedPrefix<nat>(a, b, n, NO_INDEX);
    forall x | x in Members(a, n)
      ensures x in Members(b, n)
    {
      var s :| 0 <= s < n && a[s] != NO_INDEX && a[s] == x;
      assert b[s] == x;
    }
    forall x | x in Members(b, n)
      ensures x in Members(a, n)
    {
      var s :| 0 <= s < n && b[s] != NO_INDEX && b[s] == x;
      assert a[s] == x;
    }
  }

  /** Free slots at the end add nothing. */
  lemma {:induction false} FreeTail(slots: seq<nat>, m: nat, n: nat)
    requires m <= n <= |slots| && forall s :: m <= s < n ==> slots[s] == NO_INDEX
    ensures Members(slots, n) == Members(slots, m)
    ensures Used<nat>(slots, n, NO_INDEX) == Used<nat>(slots, m, NO_INDEX)
    ensures NamedOnce(slots, m) ==> NamedOnce(slots, n)
  {
    if m < n {
      FreeTail(slots, m, n - 1);
    }
  }

  lemma LoadLimitGrows(n: nat)
    requires 8 <= n
    ensures LoadLimit(n) < LoadLimit(2 * n)
  {
  }

  lemma {:induction false} UsedBound(slots: seq<nat>, n: nat)
    requires n <= |slots|
    ensures Used<nat>(slots, n, NO_INDEX) <= n
  {
  }

  /** The first doubling of `power` that reaches `wanted`. */
  function NextPowerOfTwo(wanted: nat, power: nat): (r: nat)
    requires 0 < power
    ensures wanted <= r
    decreases wanted - power
  {
    if wanted <= power then power else NextPowerOfTwo(wanted, 2 * power)
  }

  class CompactActiveHypotheses {
    var slots: seq<nat>
    var scratch: seq<nat>
    var activeLen: nat
    var modulo: nat
    var size: nat
    var expandLimit: nat

    /** Any state the table can be left in between sentences: slots past the active
        part and all of the scratch may hold stale indices. */
    ghost predicate Idle()
      reads this
    {
      && |slots| == |scratch| && activeLen <= |slots|
      && (activeLen == 0 ==> forall s :: 0 <= s < |slots| ==> slots[s] == NO_INDEX)
      && (activeLen != 0 ==> 8 <= activeLen)
    }

    /** A table in use that names hypotheses below `bound`. */
    ghost predicate Ready(bound: nat)
      reads this
    {
      && Idle() && 8 <= activeLen && modulo == activeLen - 1
      && expandLimit == LoadLimit(activeLen)
      && size == Used<nat>(slots, activeLen, NO_INDEX) < expandLimit
      && NamedOnce(slots, activeLen)
      && forall i :: i in Active() ==> i < bound
    }

    ghost function Active(): set<nat>
      reads this
    {
      if activeLen <= |slots| then Members(slots, activeLen) else {}
    }

    constructor ()
      ensures Idle() && slots == []
    {
      slots, scratch := [], [];
      activeLen, modulo, size, expandLimit := 0, 0, 0, 0;
    }

    method EnsureCapacity(reserve: nat)
      requires Idle()
      modifies this
      ensures Idle() && 8 <= |slots| && reserve <= |slots| && activeLen == old(activeLen)
    {
      var wanted := NextPowerOfTwo(if reserve < 8 then 8 else reserve, 1);
      if |slots| < wanted {
        slots := Resized(slots, wanted, NO_INDEX);
        scratch := Resized(scratch, wanted, NO_INDEX);
      }
    }

    method Reset()
      requires Idle() && 8 <= |slots|
      modifies this
      ensures Ready(0) && Active() == {} && |slots| == |old(slots)|
    {
      slots := Cleared(slots, activeLen, NO_INDEX);
      activeLen := 8;
      modulo := 7;
      size := 0;
      expandLimit := LoadLimit(8);
      NoMembers(slots, 8);
    }

    /** Lists the active hypotheses in slot order. */
    method Snapshot() returns (count: nat)
      requires Idle()
      modifies this`scratch
      ensures Idle() && count <= |scratch|
      ensures scratch[..count] == Listed(slots, activeLen)
      ensures (set o | 0 <= o < count :: scratch[o]) == Active()
    {
      count := 0;
      for s := 0 to activeLen
        invariant count <= s && |scratch| == |slots|
        invariant scratch[..count] == Listed(slots, s)
      {
        if slots[s] != NO_INDEX {
          scratch := scratch[count := slots[s]];
          assert scratch[..count + 1] == scratch[..count] + [slots[s]];
          count := count + 1;
        }
      }
      ListedMembers(slots, activeLen);
      PrefixElements(scratch, count);
    }

    /** Moves the active slots into a table twice as long, placing them under the old mask. */
    method Expand(d: Decoder, hypotheses: seq<Hypothesis>)
      requires d.Valid() && InRange(d, hypotheses)
      requires Idle() && 8 <= activeLen && modulo == activeLen - 1
      requires size == Used<nat>(slots, activeLen, NO_INDEX) == LoadLimit(activeLen)
      requires NamedOnce(slots, activeLen)
      requires forall i :: i in Active() ==> i < |hypotheses|
      modifies this
      ensures Ready(|hypotheses|) && Active() == old(Active()) && activeLen == 2 * old(activeLen)
    {
      hide InRange, Decoder.Valid, NamedOnce, LoadLimit, Ready;
      var oldLen := activeLen;
      var oldModulo := modulo;
      var expandedLen := oldLen * 2;
      ghost var before := slots;
      assert Active() == Members(before, oldLen);
      forall s | 0 <= s < oldLen && before[s] != NO_INDEX
        ensures before[s] < |hypotheses|
      {
        assert before[s] in Members(before, oldLen);
        assert before[s] in Active();
      }
      slots := Resized(slots, expandedLen, NO_INDEX);
      scratch := Cleared(Resized(scratch, expandedLen, NO_INDEX), expandedLen, NO_INDEX);
      NoMembers(scratch, oldLen);
      SamePrefix(before, slots, oldLen);
      var expandedSize := 0;
      for i := 0 to oldLen
        invariant |scratch| == |slots| && expandedLen <= |slots| && slots == Resized(before, expandedLen, NO_INDEX)
        invariant expandedSize == Used<nat>(scratch, oldLen, NO_INDEX) == Used<nat>(slots, i, NO_INDEX)
        invariant Members(scratch, oldLen) == Members(slots, i) && NamedOnce(scratch, oldLen)
        invariant forall s :: oldLen <= s < expandedLen ==> scratch[s] == NO_INDEX
        invariant forall s :: 0 <= s < oldLen && slots[s] != NO_INDEX ==> slots[s] < |hypotheses|
      {
        if slots[i] != NO_INDEX {
          expandedSize := PlaceUnderOldMask(d, hypotheses, i, oldLen, oldModulo, expandedSize);
        }
      }
      slots, scratch := scratch, slots;
      activeLen := expandedLen;
      modulo := expandedLen - 1;
      size := expandedSize;
      expandLimit := LoadLimit(expandedLen);
      ReadyWhenMoved(|hypotheses|, oldLen);
    }

    /** A table whose indices all lie in its first half is ready once its fields fit its length. */
    lemma {:induction false} ReadyWhenMoved(bound: nat, half: nat)
      requires 8 <= half && |slots| == |scratch| && activeLen == 2 * half <= |slots|
      requires modulo == activeLen - 1 && expandLimit == LoadLimit(activeLen)
      requires size == LoadLimit(half) == Used<nat>(slots, half, NO_INDEX)
      requires NamedOnce(slots, half) && forall s :: half <= s < activeLen ==> slots[s] == NO_INDEX
      requires forall i :: i in Members(slots, half) ==> i < bound
      ensures Ready(bound) && Active() == Members(slots, half)
    {
      hide NamedOnce, LoadLimit, Members;
      LoadLimitGrows(half);
      FreeTail(slots, half, activeLen);
    }

    /** Places one stored index at the first free slot of its probe under the old mask. */
    method PlaceUnderOldMask(d: Decoder, hypotheses: seq<Hypothesis>, i: nat, oldLen: nat, oldModulo: nat, placed: nat)
      returns (count: nat)
      requires d.Valid() && InRange(d, hypotheses)
      requires i < oldLen <= |slots| == |scratch| && oldModulo == oldLen - 1
      requires slots[i] != NO_INDEX && slots[i] < |hypotheses| && NamedOnce(slots, oldLen)
      requires placed == Used<nat>(scratch, oldLen, NO_INDEX) == Used<nat>(slots, i, NO_INDEX)
      requires Members(scratch, oldLen) == Members(slots, i) && NamedOnce(scratch, oldLen)
      modifies this`scratch
      ensures |scratch| == |old(scratch)|
      ensures count == Used<nat>(scratch, oldLen, NO_INDEX) == Used<nat>(slots, i + 1, NO_INDEX)
      ensures Members(scratch, oldLen) == Members(slots, i + 1) && NamedOnce(scratch, oldLen)
      ensures forall s :: oldLen <= s < |scratch| ==> scratch[s] == old(scratch)[s]
    {
      hide NamedOnce, Members, Decoder.Valid, StateHash, HashSlot;
      var h := hypotheses[slots[i]];
      var home := HashSlot(d.model.rehash, StateHash(d, h.previous, h.current), oldModulo + 1);
      UsedBound(slots, i);
      ProbeMeetsFree<nat>(scratch, oldLen, home, NO_INDEX);
      ghost var free :| 0 <= free < oldLen && scratch[At(home, free, oldLen)] == NO_INDEX;
      var slot := home;
      ghost var k := 0;
      while scratch[slot] != NO_INDEX
        invariant 0 <= k <= free && slot == At(home, k, oldLen)
        decreases free - k
      {
        slot := if slot == oldModulo then 0 else slot + 1;
        k := k + 1;
      }
      MembersNext(slots, i, oldLen);
      MembersSet(scratch, oldLen, slot, slots[i]);
      scratch := scratch[slot := slots[i]];
      count := placed + 1;
    }

    /** The probe for a key: stops at the first slot that is free or names a hypothesis with the key. */
    method Locate(d: Decoder, hypotheses: seq<Hypothesis>, previous: nat, current: nat) returns (slot: nat)
      requires d.Valid() && InRange(d, hypotheses) && Ready(|hypotheses|)
      requires previous < |d.analyses| + 2 && current < |d.analyses| + 2
      ensures slot < activeLen
      ensures slots[slot] != NO_INDEX ==>
        slots[slot] < |hypotheses| && slots[slot] in Active()
        && KeyOf(d, hypotheses[slots[slot]].previous, hypotheses[slots[slot]].current) == KeyOf(d, previous, current)
      ensures StopsFirst(d, hypotheses, slots, activeLen, StateHash(d, previous, current), KeyOf(d, previous, current), slot)
    {
      hide KeyOf, StateHash, Members, NamedOnce, FirstOnProbe, Decoder.Valid, Used, HashSlot;
      var key := KeyOf(d, previous, current);
      var hash := StateHash(d, previous, current);
      var home := HashSlot(d.model.rehash, hash, modulo + 1);
      ProbeMeetsFree<nat>(slots, activeLen, home, NO_INDEX);
      ghost var free: nat :| free < activeLen && slots[At(home, free, activeLen)] == NO_INDEX;
      assert Active() == Members(slots, activeLen);
      NamedBelow(slots, activeLen, |hypotheses|);
      slot := home;
      ghost var k: nat := 0;
      ProbeStart(d, hypotheses, slots, activeLen, hash, key);
      while slots[slot] != NO_INDEX
        && KeyOf(d, hypotheses[slots[slot]].previous, hypotheses[slots[slot]].current) != key
        invariant k <= free && slot == At(home, k, activeLen)
        invariant FirstOnProbe(d, hypotheses, slots, activeLen, hash, key, k)
        decreases free - k
      {
        ProbeOn(d, hypotheses, slots, activeLen, hash, key, k);
        slot := if slot == modulo then 0 else slot + 1;
        k := k + 1;
      }
      NamedInside(slots, activeLen, slot);
      assert k < activeLen && slot == At(home, k, activeLen);
    }

    /** Offers a new hypothesis to the table. */
    method AddCandidate(d: Decoder, c: Hypothesis, hypotheses: seq<Hypothesis>)
      returns (after: seq<Hypothesis>, offer: Offer)
      requires d.Valid() && InRange(d, hypotheses) && Ready(|hypotheses|) && |hypotheses| <= NO_INDEX
      requires c.previous < |d.analyses| + 2 && c.current < |d.analyses| + 2
      modifies this
      ensures InRange(d, after) && Ready(|after|)
      ensures match offer
        case Pushed => |hypotheses| < NO_INDEX && after == hypotheses + [c] && Active() == old(Active()) + {|hypotheses|}
        case Replaced(e) => e in old(Active()) && e < |hypotheses| && after == hypotheses[e := c] && Active() == old(Active())
          && hypotheses[e].score < c.score
          && KeyOf(d, hypotheses[e].previous, hypotheses[e].current) == KeyOf(d, c.previous, c.current)
        case Kept(e) => e in old(Active()) && e < |hypotheses| && after == hypotheses && Active() == old(Active())
          && c.score <= hypotheses[e].score
          && KeyOf(d, hypotheses[e].previous, hypotheses[e].current) == KeyOf(d, c.previous, c.current)
        case Overflowed => |hypotheses| == NO_INDEX && after == hypotheses && Active() == old(Active())
    {
      hide KeyOf, StateHash;
      var slot := Locate(d, hypotheses, c.previous, c.current);
      if slots[slot] == NO_INDEX {
        if |hypotheses| == NO_INDEX {
          return hypotheses, Overflowed;
        }
        after := hypotheses + [c];
        InsertIndex(d, after, slot, |hypotheses|);
        return after, Pushed;
      }
      var existing := slots[slot];
      if hypotheses[existing].score < c.score {
        return hypotheses[existing := c], Replaced(existing);
      }
      return hypotheses, Kept(existing);
    }

    /** Writes an index into a free slot and grows the table at its load limit. */
    method InsertIndex(d: Decoder, hypotheses: seq<Hypothesis>, slot: nat, index: nat)
      requires d.Valid() && InRange(d, hypotheses) && index < NO_INDEX && index < |hypotheses|
      requires Ready(index) && slot < activeLen && slots[slot] == NO_INDEX
      modifies this
      ensures Ready(|hypotheses|) && Active() == old(Active()) + {index}
    {
      hide Members, NamedOnce, InRange, Decoder.Valid, LoadLimit;
      ghost var known := Active();
      assert known == Members(slots, activeLen);
      assert index !in known;
      MembersSet(slots, activeLen, slot, index);
      slots := slots[slot := index];
      size := size + 1;
      assert Active() == known + {index};
      if size == expandLimit {
        Expand(d, hypotheses);
      }
    }

    /** The first active hypothesis with the greatest score. */
    method Best(hypotheses: seq<Hypothesis>) returns (best: Option<nat>)
      requires Ready(|hypotheses|)
      ensures best == None <==> Active() == {}
      ensures best.Some? ==> best.value in Active() && best.value < |hypotheses|
      ensures best.Some? ==> forall i :: i in Active() && i < |hypotheses| ==>
        hypotheses[i].score <= hypotheses[best.value].score
      ensures best.Some? ==> exists s: nat :: FirstBest(slots, activeLen, hypotheses, s) && slots[s] == best.value
    {
      hide FirstBest, Members;
      assert forall s :: 0 <= s < activeLen && slots[s] != NO_INDEX ==> slots[s] < |hypotheses| by {
        assert Active() == Members(slots, activeLen);
        NamedBelow(slots, activeLen, |hypotheses|);
      }
      best := None;
      ghost var at: nat := 0;
      for s := 0 to activeLen
        invariant best == None ==> forall t :: 0 <= t < s ==> slots[t] == NO_INDEX
        invariant best.Some? ==> at < s && slots[at] == best.value < |hypotheses| && FirstBest(slots, s, hypotheses, at)
      {
        var index := slots[s];
        if index != NO_INDEX {
          if best == None || hypotheses[best.value].score < hypotheses[index].score {
            FirstBestHere(slots, s, hypotheses, at, best);
            best := Some(index);
            at := s;
          } else {
            FirstBestStays(slots, s, hypotheses, at);
          }
        } else if best.Some? {
          FirstBestStays(slots, s, hypotheses, at);
        }
      }
      if best.Some? {
        FirstBestIsBest(slots, activeLen, hypotheses, at);
      } else {
        NoMembers(slots, activeLen);
      }
    }
  }

  lemma NamedBelow(slots: seq<nat>, n: nat, bound: nat)
    requires n <= |slots| && forall i :: i in Members(slots, n) ==> i < bound
    ensures forall s :: 0 <= s < n && slots[s] != NO_INDEX ==> slots[s] < bound
  {
    forall s | 0 <= s < n && slots[s] != NO_INDEX
      ensures slots[s] < bound
    {
      assert slots[s] in Members(slots, n);
    }
  }

  /** A hypothesis better than all before it is the first best one. */
  lemma FirstBestHere(slots: seq<nat>, s: nat, hypotheses: seq<Hypothesis>, at: nat, best: Option<nat>)
    requires s < |slots| && slots[s] != NO_INDEX && slots[s] < |hypotheses|
    requires best == None ==> forall t :: 0 <= t < s ==> slots[t] == NO_INDEX
    requires best.Some? ==> FirstBest(slots, s, hypotheses, at) && slots[at] == best.value
    requires best.Some? ==> best.value < |hypotheses| && hypotheses[best.value].score < hypotheses[slots[s]].score
    ensures FirstBest(slots, s + 1, hypotheses, s)
  {
  }

  lemma FirstBestStays(slots: seq<nat>, s: nat, hypotheses: seq<Hypothesis>, at: nat)
    requires s < |slots| && FirstBest(slots, s, hypotheses, at)
    requires slots[s] != NO_INDEX ==> slots[s] < |hypotheses| && hypotheses[slots[s]].score <= hypotheses[slots[at]].score
    ensures FirstBest(slots, s + 1, hypotheses, at)
  {
  }

  lemma FirstBestIsBest(slots: seq<nat>, n: nat, hypotheses: seq<Hypothesis>, at: nat)
    requires n <= |slots| && FirstBest(slots, n, hypotheses, at)
    ensures slots[at] in Members(slots, n)
    ensures forall i :: i in Members(slots, n) && i < |hypotheses| ==> hypotheses[i].score <= hypotheses[slots[at]].score
  {
    assert slots[at] in Members(slots, n);
  }
}
