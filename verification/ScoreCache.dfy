/** The transition-row score cache: pair table, inline rows and overflow table. */
module ScoreCache {
  import opened Wrappers
  import opened Probing

  const INLINE_TRANSITIONS: nat := 8
  const EMPTY_KEY: nat := 0xFFFF_FFFF_FFFF_FFFF
  const INVALID_ROW: nat := 0xFFFF_FFFF
  const EMPTY_SIGNATURE: nat := 0xFFFF_FFFF

  // ----- packed signatures -----

  /** Cache signatures have 21 bits. */
  const SIGNATURES: nat := 0x20_0000
  const PAIRS: nat := 0x400_0000_0000

  function PairKey(first: nat, second: nat): nat {
    first + second * SIGNATURES
  }

  /** The row a transition with this key starts from. */
  function RowPart(key: nat): nat {
    key % PAIRS
  }

  /** The row a transition with this key leads to. */
  function NextRowPart(key: nat): nat {
    key / SIGNATURES % PAIRS
  }

  function ThirdPart(key: nat): nat {
    key / PAIRS
  }

  function FullKey(pair: nat, third: nat): nat {
    pair + third * PAIRS
  }

  function PackScoreKey(first: nat, second: nat, third: nat): (key: Option<nat>)
    ensures key.Some? <==> first < SIGNATURES && second < SIGNATURES && third < SIGNATURES
  {
    if first >= SIGNATURES || second >= SIGNATURES || third >= SIGNATURES then None
    else Some(FullKey(PairKey(first, second), third))
  }

  /** Packing keeps all three signatures, in order. */
  lemma PackedParts(first: nat, second: nat, third: nat)
    requires first < SIGNATURES && second < SIGNATURES && third < SIGNATURES
    ensures var key := FullKey(PairKey(first, second), third);
      && RowPart(key) == PairKey(first, second)
      && NextRowPart(key) == PairKey(second, third)
      && ThirdPart(key) == third
      && key == FullKey(RowPart(key), third)
      && key == first + 0x20_0000 * second + 0x400_0000_0000 * third
      && key < EMPTY_KEY && PairKey(first, second) < EMPTY_KEY && PairKey(second, third) < EMPTY_KEY
  {
  }

  /** What a retained entry must say: the score of its key and the row of its last two signatures. */
  ghost predicate Sound(truth: nat -> int, rowPair: seq<nat>, key: nat, score: int, nextRow: nat) {
    score == truth(key) && Bound(rowPair, nextRow, NextRowPart(key))
  }

  /** A carried row is invalid or belongs to the given pair of signatures. */
  ghost predicate Bound(rowPair: seq<nat>, row: nat, pair: nat) {
    row == INVALID_ROW || (row < |rowPair| && rowPair[row] == pair)
  }

  // ----- inline rows -----

  datatype InlineTransition = InlineTransition(third: nat, nextRow: nat, score: int)

  const NO_TRANSITION := InlineTransition(EMPTY_SIGNATURE, INVALID_ROW, 0)

  datatype TransitionRow = TransitionRow(entries: seq<InlineTransition>, overflow: bool)

  const EMPTY_ROW := TransitionRow(seq(INLINE_TRANSITIONS, _ => NO_TRANSITION), false)

  /** Used entries form a prefix and hold distinct signatures; only a full row overflows. */
  ghost predicate RowValid(row: TransitionRow) {
    && |row.entries| == 8
    && (forall i, j :: 0 <= i < j < INLINE_TRANSITIONS && row.entries[j].third != EMPTY_SIGNATURE ==>
          row.entries[i].third != EMPTY_SIGNATURE && row.entries[i].third != row.entries[j].third)
    && (row.overflow ==> row.entries[INLINE_TRANSITIONS - 1].third != EMPTY_SIGNATURE)
  }

  ghost predicate RowSound(truth: nat -> int, rowPair: seq<nat>, row: TransitionRow, pair: nat) {
    && RowValid(row)
    && forall i :: 0 <= i < INLINE_TRANSITIONS && row.entries[i].third != EMPTY_SIGNATURE ==>
         Sound(truth, rowPair, FullKey(pair, row.entries[i].third), row.entries[i].score, row.entries[i].nextRow)
  }

  /** The inline entry of a signature, if the row has one. */
  ghost predicate InlineAt(row: TransitionRow, third: nat, i: nat) {
    i < |row.entries| && row.entries[i].third == third
  }

  method RowGet(row: TransitionRow, third: nat) returns (r: Option<(int, nat)>)
    requires RowValid(row) && third != EMPTY_SIGNATURE
    ensures r.None? <==> forall i: nat :: !InlineAt(row, third, i)
    ensures forall i: nat :: InlineAt(row, third, i) ==> r == Some((row.entries[i].score, row.entries[i].nextRow))
  {
    for i := 0 to INLINE_TRANSITIONS
      invariant forall j :: 0 <= j < i ==> row.entries[j].third != third && row.entries[j].third != EMPTY_SIGNATURE
    {
      if row.entries[i].third == third {
        assert InlineAt(row, third, i);
        return Some((row.entries[i].score, row.entries[i].nextRow));
      }
      if row.entries[i].third == EMPTY_SIGNATURE {
        return None;
      }
    }
    return None;
  }

  method RowInsert(row: TransitionRow, third: nat, score: int, nextRow: nat)
    returns (after: TransitionRow, added: bool)
    requires RowValid(row) && third != EMPTY_SIGNATURE
    ensures RowValid(after)
    ensures |row.entries| == |after.entries|
    ensures forall i :: 0 <= i < |row.entries| ==>
      after.entries[i] == row.entries[i] || after.entries[i] == InlineTransition(third, nextRow, score)
    ensures (exists i: nat :: InlineAt(row, third, i)) ==> !added && after.overflow == row.overflow
    ensures added || (exists i: nat :: InlineAt(row, third, i)) ==> exists i: nat :: InlineAt(after, third, i)
    ensures forall i: nat :: InlineAt(after, third, i) ==> after.entries[i] == InlineTransition(third, nextRow, score)
    ensures !added && (forall i: nat :: !InlineAt(row, third, i)) ==> after == row.(overflow := true)
  {
    for i := 0 to INLINE_TRANSITIONS
      invariant forall j :: 0 <= j < i ==> row.entries[j].third != third && row.entries[j].third != EMPTY_SIGNATURE
    {
      if row.entries[i].third == third || row.entries[i].third == EMPTY_SIGNATURE {
        added := row.entries[i].third == EMPTY_SIGNATURE;
        after := row.(entries := row.entries[i := InlineTransition(third, nextRow, score)]);
        assert InlineAt(after, third, i);
        assert !added ==> InlineAt(row, third, i);
        return;
      }
    }
    return row.(overflow := true), false;
  }

  // ----- the overflow table -----

  datatype OverflowEntry = OverflowEntry(key: nat, score: int, nextRow: nat)

  const NO_OVERFLOW := OverflowEntry(EMPTY_KEY, 0, INVALID_ROW)

  function Keys(entries: seq<OverflowEntry>): (keys: seq<nat>)
    ensures |keys| == |entries|
  {
    seq(|entries|, i requires 0 <= i < |entries| => entries[i].key)
  }

  /** The entries under used keys are exactly the retained contents. */
  ghost predicate Matches(entries: seq<OverflowEntry>, contents: map<nat, (int, nat)>) {
    && (forall s :: 0 <= s < |entries| && entries[s].key != EMPTY_KEY ==>
          entries[s].key in contents && contents[entries[s].key] == (entries[s].score, entries[s].nextRow))
    && (forall k :: k in contents ==> k in Keys(entries) && k != EMPTY_KEY)
  }

  lemma MatchesUpdate(entries: seq<OverflowEntry>, contents: map<nat, (int, nat)>, slot: nat, e: OverflowEntry)
    requires Matches(entries, contents) && slot < |entries| && e.key != EMPTY_KEY
    requires entries[slot].key == e.key || (entries[slot].key == EMPTY_KEY && e.key !in Keys(entries))
    requires forall s, t :: 0 <= s < t < |entries| && entries[s].key != EMPTY_KEY ==> entries[s].key != entries[t].key
    ensures Matches(entries[slot := e], contents[e.key := (e.score, e.nextRow)])
    ensures Keys(entries[slot := e]) == Keys(entries)[slot := e.key]
  {
    var after, keys := entries[slot := e], Keys(entries);
    assert Keys(after) == keys[slot := e.key];
    assert forall s :: 0 <= s < |entries| ==> keys[s] == entries[s].key;
    forall k | k in contents
      ensures k in Keys(after)
    {
      var s :| 0 <= s < |keys| && keys[s] == k;
      assert Keys(after)[s] == k;
    }
    assert Keys(after)[slot] == e.key;
  }

  /** Writing at the slot a probe stopped at is a map update. */
  lemma OverflowInsert(entries: seq<OverflowEntry>, contents: map<nat, (int, nat)>, hash: nat -> nat,
                       slot: nat, k: nat, e: OverflowEntry)
    requires KeyTable<nat>(Keys(entries), EMPTY_KEY, hash) && Matches(entries, contents) && e.key != EMPTY_KEY
    requires k < |entries| && slot == At(Home<nat>(hash, e.key, |entries|), k, |entries|)
    requires Probed<nat>(Keys(entries), EMPTY_KEY, hash, e.key, k)
    requires entries[slot].key == e.key || entries[slot].key == EMPTY_KEY
    ensures entries[slot].key == EMPTY_KEY <==> e.key !in contents
    ensures var after := entries[slot := e];
      && KeyTable<nat>(Keys(after), EMPTY_KEY, hash) && Matches(after, contents[e.key := (e.score, e.nextRow)])
      && Used<nat>(Keys(after), |after|, EMPTY_KEY)
         == Used<nat>(Keys(entries), |entries|, EMPTY_KEY) + if e.key in contents then 0 else 1
  {
    var keys := Keys(entries);
    assert forall s :: 0 <= s < |entries| ==> keys[s] == entries[s].key;
    if entries[slot].key == EMPTY_KEY {
      KeyMiss<nat>(keys, EMPTY_KEY, hash, e.key, k);
      KeyInsert<nat>(keys, EMPTY_KEY, hash, e.key, k);
    } else {
      assert keys[slot := e.key] == keys;
    }
    hide Probed, Used;
    MatchesUpdate(entries, contents, slot, e);
  }

  class OverflowScoreCache {
    const slots: nat
    const hash: nat -> nat
    var entries: seq<OverflowEntry>
    var size: nat
    /** What the table retains. */
    ghost var contents: map<nat, (int, nat)>

    /** Insertions stop at four fifths of the slots. */
    function MaxEntries(): nat {
      slots * 4 / 5
    }

    ghost predicate Valid()
      reads this
    {
      && 0 < slots
      && (entries == [] ==> size == 0 && contents == map[])
      && (entries != [] ==> |entries| == slots && KeyTable<nat>(Keys(entries), EMPTY_KEY, hash)
                            && Used<nat>(Keys(entries), slots, EMPTY_KEY) == size <= MaxEntries())
      && Matches(entries, contents)
    }

    constructor (slots: nat, hash: nat -> nat)
      requires 0 < slots
      ensures Valid() && contents == map[] && this.slots == slots
    {
      this.slots := slots;
      this.hash := hash;
      entries := [];
      size := 0;
      contents := map[];
    }

    method Clear()
      requires Valid()
      modifies this
      ensures Valid() && contents == map[]
    {
      entries := [];
      size := 0;
      contents := map[];
    }

    /** Finds a key exactly when the table retains it. */
    method Get(key: nat) returns (r: Option<(int, nat)>)
      requires Valid() && key != EMPTY_KEY
      ensures r == if key in contents then Some(contents[key]) else None
    {
      if entries == [] {
        return None;
      }
      var slot, k := Locate(key);
      if entries[slot].key == key {
        return Some((entries[slot].score, entries[slot].nextRow));
      }
      KeyMiss<nat>(Keys(entries), EMPTY_KEY, hash, key, k);
      return None;
    }

    /** Retains an entry unless the table reached its load limit. */
    method Insert(key: nat, score: int, nextRow: nat) returns (added: bool)
      requires Valid() && key != EMPTY_KEY
      modifies this
      ensures Valid()
      ensures contents == if old(size) >= slots * 4 / 5 then old(contents)
                          else old(contents)[key := (score, nextRow)]
      ensures added <==> old(size) < slots * 4 / 5 && key !in old(contents)
    {
      if size >= MaxEntries() {
        return false;
      }
      if entries == [] {
        entries := seq(slots, _ => NO_OVERFLOW);
        EmptyKeyTable<nat>(Keys(entries), EMPTY_KEY, hash);
      }
      var slot, k := Locate(key);
      OverflowInsert(entries, contents, hash, slot, k, OverflowEntry(key, score, nextRow));
      hide KeyTable, Matches, Probed, Used;
      added := entries[slot].key == EMPTY_KEY;
      if added {
        size := size + 1;
      }
      entries := entries[slot := OverflowEntry(key, score, nextRow)];
      contents := contents[key := (score, nextRow)];
    }

    /** The probe shared by both: stops at the key or at the first free slot. */
    method Locate(key: nat) returns (slot: nat, ghost k: nat)
      requires Valid() && entries != [] && key != EMPTY_KEY
      ensures k < slots == |entries| && slot == At(Home<nat>(hash, key, slots), k, slots)
      ensures entries[slot].key == key || entries[slot].key == EMPTY_KEY
      ensures Probed<nat>(Keys(entries), EMPTY_KEY, hash, key, k)
    {
      hide Matches, KeyTable, Used, Home, Probed;
      ghost var home := Home<nat>(hash, key, slots);
      slot := Home<nat>(hash, key, |entries|);
      k := 0;
      StartsProbed(Keys(entries), EMPTY_KEY, hash, key);
      while entries[slot].key != key && entries[slot].key != EMPTY_KEY
        invariant k < slots && slot == At(home, k, slots)
        invariant Probed<nat>(Keys(entries), EMPTY_KEY, hash, key, k)
        decreases slots - k
      {
        KeyPasses<nat>(Keys(entries), EMPTY_KEY, hash, key, k);
        slot := if slot + 1 == |entries| then 0 else slot + 1;
        k := k + 1;
      }
    }
  }

  // ----- rows found by pair -----

  /** The pair table leads to the row of every retained pair, and rows keep their pairs. */
  ghost predicate PairsMatch(pairKeys: seq<nat>, pairRows: seq<nat>, rowPair: seq<nat>) {
    && |pairKeys| == |pairRows|
    && (forall s :: 0 <= s < |pairKeys| && pairKeys[s] != EMPTY_KEY ==>
          pairRows[s] < |rowPair| && rowPair[pairRows[s]] == pairKeys[s])
    && (forall r :: 0 <= r < |rowPair| ==> rowPair[r] in pairKeys && rowPair[r] != EMPTY_KEY)
  }

  lemma PairsMatchInsert(pairKeys: seq<nat>, pairRows: seq<nat>, rowPair: seq<nat>, slot: nat, pair: nat)
    requires PairsMatch(pairKeys, pairRows, rowPair) && slot < |pairKeys| && pair != EMPTY_KEY
    requires pairKeys[slot] == EMPTY_KEY
    ensures PairsMatch(pairKeys[slot := pair], pairRows[slot := |rowPair|], rowPair + [pair])
  {
    var after := pairKeys[slot := pair];
    forall r | 0 <= r < |rowPair|
      ensures rowPair[r] in after
    {
      var s :| 0 <= s < |pairKeys| && pairKeys[s] == rowPair[r];
      assert after[s] == rowPair[r];
    }
    assert after[slot] == pair;
  }

  lemma RowsStaySound(truth: nat -> int, rows: seq<TransitionRow>, rowPair: seq<nat>, pair: nat)
    requires |rows| == |rowPair| && forall r :: 0 <= r < |rows| ==> RowSound(truth, rowPair, rows[r], rowPair[r])
    ensures forall r :: 0 <= r < |rows + [EMPTY_ROW]| ==>
      RowSound(truth, rowPair + [pair], (rows + [EMPTY_ROW])[r], (rowPair + [pair])[r])
  {
    forall r | 0 <= r < |rows|
      ensures RowSound(truth, rowPair + [pair], rows[r], rowPair[r])
    {
      assert RowSound(truth, rowPair, rows[r], rowPair[r]);
    }
  }

  lemma RowInsertSound(truth: nat -> int, rowPair: seq<nat>, row: TransitionRow, after: TransitionRow, pair: nat,
                       third: nat, score: int, nextRow: nat)
    requires RowSound(truth, rowPair, row, pair) && RowValid(after)
    requires Sound(truth, rowPair, FullKey(pair, third), score, nextRow)
    requires forall i :: 0 <= i < INLINE_TRANSITIONS ==>
      after.entries[i] == row.entries[i] || after.entries[i] == InlineTransition(third, nextRow, score)
    ensures RowSound(truth, rowPair, after, pair)
  {
    hide Sound;
  }

  class TrigramScoreCache {
    const pairSlots: nat
    const rowCapacity: nat
    const hash: nat -> nat
    const overflow: OverflowScoreCache
    var pairKeys: seq<nat>
    var pairRows: seq<nat>
    var rows: seq<TransitionRow>
    /** The score every key has when it is computed. */
    ghost const truth: nat -> int
    /** The pair each row was made for. */
    ghost var rowPair: seq<nat>

    ghost predicate Valid()
      reads this, overflow
    {
      && rowCapacity < pairSlots && rowCapacity < INVALID_ROW
      && |rows| == |rowPair| <= rowCapacity
      && (pairKeys == [] ==> rows == [] && pairRows == [])
      && (pairKeys != [] ==> |pairKeys| == pairSlots && KeyTable<nat>(pairKeys, EMPTY_KEY, hash)
                             && Used<nat>(pairKeys, pairSlots, EMPTY_KEY) == |rows|)
      && PairsMatch(pairKeys, pairRows, rowPair)
      && (forall r :: 0 <= r < |rows| ==> RowSound(truth, rowPair, rows[r], rowPair[r]))
      && overflow.Valid()
      && (forall k :: k in overflow.contents ==>
            Sound(truth, rowPair, k, overflow.contents[k].0, overflow.contents[k].1))
    }

    constructor (pairSlots: nat, rowCapacity: nat, overflowSlots: nat, pairHash: nat -> nat, overflowHash: nat -> nat,
                 ghost truth: nat -> int)
      requires rowCapacity < pairSlots && rowCapacity < INVALID_ROW && 0 < overflowSlots
      ensures Valid() && fresh(this) && fresh(overflow) && this.truth == truth && rowPair == []
    {
      this.pairSlots := pairSlots;
      this.rowCapacity := rowCapacity;
      this.hash := pairHash;
      this.truth := truth;
      pairKeys := [];
      pairRows := [];
      rows := [];
      rowPair := [];
      overflow := new OverflowScoreCache(overflowSlots, overflowHash);
    }

    /** Forgets every row and entry and keeps the capacities. */
    method Clear()
      requires Valid()
      modifies this, overflow
      ensures Valid() && rowPair == [] && overflow.contents == map[]
    {
      pairKeys := [];
      pairRows := [];
      rows := [];
      rowPair := [];
      overflow.Clear();
    }

    /** The row of a pair: found again, made on first use, or refused when the rows are used up. */
    method EnsureRow(pair: nat) returns (r: Option<nat>)
      requires Valid() && pair != EMPTY_KEY
      modifies this
      ensures Valid() && old(rowPair) <= rowPair
      ensures r.Some? ==> r.value < |rowPair| && rowPair[r.value] == pair
      ensures pair in old(rowPair) ==> r.Some? && rowPair == old(rowPair) && rows == old(rows)
      ensures pair !in old(rowPair) ==>
        if |old(rowPair)| == rowCapacity then r == None && rowPair == old(rowPair) && rows == old(rows)
        else r == Some(|old(rowPair)|) && rowPair == old(rowPair) + [pair] && rows == old(rows) + [EMPTY_ROW]
    {
      hide KeyTable, RowSound, Sound, Matches;
      if pairKeys == [] {
        pairKeys := seq(pairSlots, _ => EMPTY_KEY);
        pairRows := seq(pairSlots, _ => INVALID_ROW);
        EmptyKeyTable<nat>(pairKeys, EMPTY_KEY, hash);
      }
      var slot, k := LocatePair(pair);
      if pairKeys[slot] == pair {
        return Some(pairRows[slot]);
      }
      KeyMiss<nat>(pairKeys, EMPTY_KEY, hash, pair, k);
      assert pair !in rowPair;
      if |rows| == rowCapacity {
        return None;
      }
      KeyInsert<nat>(pairKeys, EMPTY_KEY, hash, pair, k);
      PairsMatchInsert(pairKeys, pairRows, rowPair, slot, pair);
      RowsStaySound(truth, rows, rowPair, pair);
      StillSound(truth, rowPair, pair, overflow.contents);
      r := Some(|rows|);
      rows := rows + [EMPTY_ROW];
      rowPair := rowPair + [pair];
      pairKeys := pairKeys[slot := pair];
      pairRows := pairRows[slot := r.value];
    }

    method LocatePair(pair: nat) returns (slot: nat, ghost k: nat)
      requires Valid() && pairKeys != [] && pair != EMPTY_KEY
      ensures k < pairSlots && slot == At(Home<nat>(hash, pair, pairSlots), k, pairSlots)
      ensures pairKeys[slot] == pair || pairKeys[slot] == EMPTY_KEY
      ensures Probed<nat>(pairKeys, EMPTY_KEY, hash, pair, k)
    {
      hide KeyTable, PairsMatch, RowSound, Sound, Matches;
      ghost var home := Home<nat>(hash, pair, pairSlots);
      slot := Home<nat>(hash, pair, |pairKeys|);
      k := 0;
      ProbeMeetsFree<nat>(pairKeys, pairSlots, home, EMPTY_KEY);
      ghost var free :| 0 <= free < pairSlots && pairKeys[At(home, free, pairSlots)] == EMPTY_KEY;
      while pairKeys[slot] != pair && pairKeys[slot] != EMPTY_KEY
        invariant k <= free && slot == At(home, k, pairSlots)
        invariant Probed<nat>(pairKeys, EMPTY_KEY, hash, pair, k)
        decreases free - k
      {
        slot := if slot + 1 == |pairKeys| then 0 else slot + 1;
        k := k + 1;
      }
    }

    /** What the cache retains for a key under a row. */
    ghost predicate Retains(row: nat, key: nat, score: int, nextRow: nat)
      reads this, overflow
      requires row < |rows|
    {
      (exists i: nat :: InlineAt(rows[row], ThirdPart(key), i)
         && rows[row].entries[i].score == score && rows[row].entries[i].nextRow == nextRow)
      || (rows[row].overflow && key in overflow.contents && overflow.contents[key] == (score, nextRow))
    }

    /** Finds only true scores and rightly bound rows. */
    method Get(row: nat, key: nat) returns (r: Option<(int, nat)>)
      requires Valid() && key < EMPTY_KEY && ThirdPart(key) < SIGNATURES
      requires Bound(rowPair, row, RowPart(key))
      ensures r.Some? ==> Sound(truth, rowPair, key, r.value.0, r.value.1)
      ensures r.None? ==> row >= |rows| || forall score, nextRow :: !Retains(row, key, score, nextRow)
    {
      if row >= |rows| {
        return None;
      }
      hide Sound;
      assert RowSound(truth, rowPair, rows[row], RowPart(key));
      assert key == FullKey(RowPart(key), ThirdPart(key));
      r := RowGet(rows[row], ThirdPart(key));
      if r.Some? {
        return;
      }
      if rows[row].overflow {
        r := overflow.Get(key);
      }
    }

    /** Retains a true score; afterwards it is found again unless the overflow table was full. */
    method Insert(row: nat, key: nat, score: int, nextRow: nat)
      requires Valid() && key < EMPTY_KEY && ThirdPart(key) < SIGNATURES
      requires row < |rows| && rowPair[row] == RowPart(key)
      requires Sound(truth, rowPair, key, score, nextRow)
      modifies this`rows, overflow
      ensures Valid() && |rows| == |old(rows)|
      ensures Retains(row, key, score, nextRow) || old(overflow.size) >= overflow.slots * 4 / 5
    {
      hide Sound, KeyTable, Matches, PairsMatch;
      assert RowSound(truth, rowPair, rows[row], rowPair[row]);
      assert key == FullKey(RowPart(key), ThirdPart(key));
      var after, added := RowInsert(rows[row], ThirdPart(key), score, nextRow);
      RowInsertSound(truth, rowPair, rows[row], after, rowPair[row], ThirdPart(key), score, nextRow);
      rows := rows[row := after];
      if added {
        return;
      }
      var inline := RowGet(after, ThirdPart(key));
      if inline.Some? {
        return;
      }
      rows := rows[row := after.(overflow := true)];
      var _ := overflow.Insert(key, score, nextRow);
    }
  }

  lemma StillSound(truth: nat -> int, rowPair: seq<nat>, pair: nat, contents: map<nat, (int, nat)>)
    requires forall k :: k in contents ==> Sound(truth, rowPair, k, contents[k].0, contents[k].1)
    ensures forall k :: k in contents ==> Sound(truth, rowPair + [pair], k, contents[k].0, contents[k].1)
  {
  }
}
