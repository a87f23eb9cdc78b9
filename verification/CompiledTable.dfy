/** The hash index over precompiled surfaces: a finite map from surfaces to candidate sets. */
module CompiledTable {
  import opened Wrappers
  import opened Bytes
  import opened Probing

  /** One precompiled analysis: texts are their scalar values. */
  datatype Candidate = Candidate(
    cuts: seq<nat>, unknown: bool, canonical: seq<int>, lexeme: seq<int>, igs: seq<seq<int>>, javaHash: int)

  /** The candidates of a surface in their order; the index never looks into them. */
  type CandidateSet = seq<Candidate>

  datatype ParsedEntry = ParsedEntry(surface: seq<byte>, candidates: CandidateSet)

  /** An entry names its surface by a range of the joined surface bytes. */
  datatype RuntimeEntry = RuntimeEntry(start: nat, end: nat, setIndex: nat, hash: nat)

  /** The smallest power of two that is at least n. */
  function NextPowerOfTwo(n: nat): (p: nat)
    ensures p >= n && p > 0
  {
    PowerFrom(1, n)
  }

  function PowerFrom(p: nat, n: nat): (q: nat)
    requires p > 0
    ensures q >= n && q > 0
    decreases n - p
  {
    if p >= n then p else PowerFrom(2 * p, n)
  }

  /** The surface a slot stands for, `None` for an empty slot. */
  type Key = Option<seq<byte>>

  ghost function KeyHash(hash: seq<byte> -> nat): Key -> nat {
    (key: Key) => if key.Some? then hash(key.value) else 0
  }

  ghost function SlotKeys(slots: seq<Option<nat>>, parsed: seq<ParsedEntry>): (keys: seq<Key>)
    requires forall s: nat | s < |slots| && slots[s].Some? :: slots[s].value < |parsed|
    ensures |keys| == |slots|
  {
    seq(|slots|, s requires 0 <= s < |slots| => if slots[s].Some? then Some(parsed[slots[s].value].surface) else None)
  }

  ghost predicate Distinct(parsed: seq<ParsedEntry>, n: nat)
    requires n <= |parsed|
  {
    forall i: nat, j: nat | i < j < n :: parsed[i].surface != parsed[j].surface
  }

  /** Entry i is the i-th parsed entry. */
  ghost predicate Runtime(hash: seq<byte> -> nat, surfaceBytes: seq<byte>, entries: seq<RuntimeEntry>, parsed: seq<ParsedEntry>)
  {
    && |entries| == |parsed|
    && forall i: nat | i < |entries| ::
      && entries[i].start <= entries[i].end <= |surfaceBytes|
      && surfaceBytes[entries[i].start..entries[i].end] == parsed[i].surface
      && entries[i].setIndex == i && entries[i].hash == hash(parsed[i].surface)
  }

  /** The slots index the first n entries. */
  ghost predicate Indexed(hash: seq<byte> -> nat, slots: seq<Option<nat>>, parsed: seq<ParsedEntry>, n: nat)
    requires n <= |parsed|
  {
    && |slots| > 0
    && (forall s: nat | s < |slots| && slots[s].Some? :: slots[s].value < n)
    && KeyTable<Key>(SlotKeys(slots, parsed), None, KeyHash(hash))
    && (forall i: nat | i < n :: Some(parsed[i].surface) in SlotKeys(slots, parsed))
  }

  lemma {:induction false} EmptyIndex(hash: seq<byte> -> nat, slots: seq<Option<nat>>, parsed: seq<ParsedEntry>)
    requires |slots| > 0 && forall s: nat | s < |slots| :: slots[s].None?
    ensures Indexed(hash, slots, parsed, 0)
    ensures Used<Key>(SlotKeys(slots, parsed), |slots|, None) == 0
  {
    EmptyKeyTable<Key>(SlotKeys(slots, parsed), None, KeyHash(hash));
  }

  /** The probe for a surface passed k slots of other surfaces. */
  ghost predicate Passed(hash: seq<byte> -> nat, slots: seq<Option<nat>>, parsed: seq<ParsedEntry>, surface: seq<byte>, k: nat)
  {
    && |slots| > 0 && k < |slots|
    && (forall s: nat | s < |slots| && slots[s].Some? :: slots[s].value < |parsed|)
    && Probed<Key>(SlotKeys(slots, parsed), None, KeyHash(hash), Some(surface), k)
  }

  /** A slot of another surface is passed; an empty slot must come, as long as one is free. */
  lemma {:induction false} PassesOn(hash: seq<byte> -> nat, slots: seq<Option<nat>>, parsed: seq<ParsedEntry>, surface: seq<byte>, k: nat)
    requires Passed(hash, slots, parsed, surface, k)
    requires var slot := At(hash(surface) % |slots|, k, |slots|);
      slots[slot].Some? && parsed[slots[slot].value].surface != surface
    requires Used<Key>(SlotKeys(slots, parsed), |slots|, None) < |slots|
    ensures Passed(hash, slots, parsed, surface, k + 1) && k + 1 < |slots|
    ensures At(hash(surface) % |slots|, k + 1, |slots|) == (At(hash(surface) % |slots|, k, |slots|) + 1) % |slots|
  {
    hide Used, At, Probed;
    var keys := SlotKeys(slots, parsed);
    assert Home(KeyHash(hash), Some(surface), |keys|) == hash(surface) % |slots|;
    KeyPasses<Key>(keys, None, KeyHash(hash), Some(surface), k);
    NextSlot(hash(surface) % |slots|, k, |slots|);
  }

  /** The empty slot a probe ends at. */
  lemma PassesEnd(hash: seq<byte> -> nat, slots: seq<Option<nat>>, parsed: seq<ParsedEntry>, n: nat, surface: seq<byte>, k: nat)
    requires n <= |parsed| && Indexed(hash, slots, parsed, n) && Passed(hash, slots, parsed, surface, k)
    requires slots[At(hash(surface) % |slots|, k, |slots|)].None?
    ensures forall i: nat | i < n :: parsed[i].surface != surface
  {
    KeyMiss<Key>(SlotKeys(slots, parsed), None, KeyHash(hash), Some(surface), k);
  }

  lemma Inserts(hash: seq<byte> -> nat, slots: seq<Option<nat>>, parsed: seq<ParsedEntry>, n: nat, k: nat)
    requires n < |parsed| && Indexed(hash, slots, parsed, n)
    requires Passed(hash, slots, parsed, parsed[n].surface, k)
    requires slots[At(hash(parsed[n].surface) % |slots|, k, |slots|)].None?
    ensures var after := slots[At(hash(parsed[n].surface) % |slots|, k, |slots|) := Some(n)];
      && Indexed(hash, after, parsed, n + 1)
      && Used<Key>(SlotKeys(after, parsed), |after|, None) == Used<Key>(SlotKeys(slots, parsed), |slots|, None) + 1
  {
    var surface := parsed[n].surface;
    var slot := At(hash(surface) % |slots|, k, |slots|);
    var keys, after := SlotKeys(slots, parsed), slots[At(hash(surface) % |slots|, k, |slots|) := Some(n)];
    KeyMiss<Key>(keys, None, KeyHash(hash), Some(surface), k);
    KeyInsert<Key>(keys, None, KeyHash(hash), Some(surface), k);
    assert SlotKeys(after, parsed) == keys[slot := Some(surface)];
    forall i: nat | i < n + 1
      ensures Some(parsed[i].surface) in SlotKeys(after, parsed)
    {
      if i == n {
        assert SlotKeys(after, parsed)[slot] == Some(surface);
      } else {
        var s: nat :| s < |keys| && keys[s] == Some(parsed[i].surface);
        assert SlotKeys(after, parsed)[s] == keys[s];
      }
    }
  }

  class Table {
    ghost const parsed: seq<ParsedEntry>
    const hash: seq<byte> -> nat
    const surfaceBytes: seq<byte>
    const entries: seq<RuntimeEntry>
    const sets: seq<CandidateSet>
    const slots: seq<Option<nat>>

    ghost predicate Valid() {
      && Runtime(hash, surfaceBytes, entries, parsed) && Distinct(parsed, |parsed|)
      && |sets| == |parsed| && (forall i: nat | i < |parsed| :: sets[i] == parsed[i].candidates)
      && Indexed(hash, slots, parsed, |parsed|)
      && Used<Key>(SlotKeys(slots, parsed), |slots|, None) < |slots|
    }

    constructor (hash: seq<byte> -> nat, surfaceBytes: seq<byte>, entries: seq<RuntimeEntry>, sets: seq<CandidateSet>,
                 slots: seq<Option<nat>>, ghost parsed: seq<ParsedEntry>)
      requires Runtime(hash, surfaceBytes, entries, parsed) && Distinct(parsed, |parsed|)
      requires |sets| == |parsed| && forall i: nat | i < |parsed| :: sets[i] == parsed[i].candidates
      requires Indexed(hash, slots, parsed, |parsed|)
      requires Used<Key>(SlotKeys(slots, parsed), |slots|, None) < |slots|
      ensures Valid() && this.parsed == parsed
    {
      this.hash, this.surfaceBytes, this.entries, this.sets, this.slots, this.parsed :=
        hash, surfaceBytes, entries, sets, slots, parsed;
    }

    /** Finds exactly the candidates of the surface; every probe ends. */
    method Get(surface: seq<byte>) returns (r: Option<CandidateSet>)
      requires Valid()
      ensures r.Some? <==> exists i: nat :: i < |parsed| && parsed[i].surface == surface
      ensures forall i: nat | i < |parsed| && parsed[i].surface == surface :: r == Some(parsed[i].candidates)
    {
      hide Indexed, Passed, Distinct, Used, Runtime, At;
      var hashed := hash(surface);
      IndexShape(hash, slots, parsed);
      var slot := hashed % |slots|;
      ghost var k := 0;
      ProbeStarts(hash, slots, parsed, surface);
      while true
        invariant Passed(hash, slots, parsed, surface, k) && k < |slots| && slot == At(hashed % |slots|, k, |slots|)
        decreases |slots| - k
      {
        var index := slots[slot];
        if index.None? {
          PassesEnd(hash, slots, parsed, |parsed|, surface, k);
          return None;
        }
        EntryAt(hash, surfaceBytes, entries, parsed, index.value);
        var entry := entries[index.value];
        if entry.hash == hashed && surfaceBytes[entry.start..entry.end] == surface {
          OnlyEntry(parsed, index.value);
          return Some(sets[entry.setIndex]);
        }
        PassesOn(hash, slots, parsed, surface, k);
        k := k + 1;
        slot := (slot + 1) % |slots|;
      }
    }
  }

  lemma IndexShape(hash: seq<byte> -> nat, slots: seq<Option<nat>>, parsed: seq<ParsedEntry>)
    requires Indexed(hash, slots, parsed, |parsed|)
    ensures |slots| > 0 && forall s: nat | s < |slots| && slots[s].Some? :: slots[s].value < |parsed|
  {
  }

  lemma ProbeStarts(hash: seq<byte> -> nat, slots: seq<Option<nat>>, parsed: seq<ParsedEntry>, surface: seq<byte>)
    requires |slots| > 0 && forall s: nat | s < |slots| && slots[s].Some? :: slots[s].value < |parsed|
    ensures Passed(hash, slots, parsed, surface, 0)
    ensures At(hash(surface) % |slots|, 0, |slots|) == hash(surface) % |slots|
  {
  }

  lemma RuntimeSize(hash: seq<byte> -> nat, surfaceBytes: seq<byte>, entries: seq<RuntimeEntry>, parsed: seq<ParsedEntry>)
    requires Runtime(hash, surfaceBytes, entries, parsed)
    ensures |entries| == |parsed|
  {
  }

  lemma EntryAt(hash: seq<byte> -> nat, surfaceBytes: seq<byte>, entries: seq<RuntimeEntry>, parsed: seq<ParsedEntry>, i: nat)
    requires Runtime(hash, surfaceBytes, entries, parsed) && i < |parsed|
    ensures |entries| == |parsed| && entries[i].start <= entries[i].end <= |surfaceBytes|
    ensures surfaceBytes[entries[i].start..entries[i].end] == parsed[i].surface
    ensures entries[i].setIndex == i && entries[i].hash == hash(parsed[i].surface)
  {
  }

  lemma OnlyEntry(parsed: seq<ParsedEntry>, i: nat)
    requires i < |parsed| && Distinct(parsed, |parsed|)
    ensures forall j: nat | j < |parsed| && parsed[j].surface == parsed[i].surface :: j == i
  {
  }

  /** Puts one entry into the first empty slot of its probe, unless its surface is there. */
  method InsertEntry(hash: seq<byte> -> nat, surfaceBytes: seq<byte>, entries: seq<RuntimeEntry>,
                     slots: array<Option<nat>>, index: nat, ghost parsed: seq<ParsedEntry>) returns (ok: bool)
    requires Runtime(hash, surfaceBytes, entries, parsed) && index < |entries| == |parsed|
    requires Indexed(hash, slots[..], parsed, index)
    requires forall s: nat | s < |slots[..]| && slots[..][s].Some? :: slots[..][s].value < |parsed|
    requires Used<Key>(SlotKeys(slots[..], parsed), |slots[..]|, None) == index < slots.Length
    modifies slots
    ensures ok <==> forall i: nat | i < index :: parsed[i].surface != parsed[index].surface
    ensures ok ==> Indexed(hash, slots[..], parsed, index + 1)
    ensures forall s: nat | s < |slots[..]| && slots[..][s].Some? :: slots[..][s].value < |parsed|
    ensures ok ==> Used<Key>(SlotKeys(slots[..], parsed), |slots[..]|, None) == index + 1
  {
    hide Indexed, Passed, Used, Runtime, At, SlotKeys;
    EntryAt(hash, surfaceBytes, entries, parsed, index);
    var entry := entries[index];
    var surface := surfaceBytes[entry.start..entry.end];
    var slot := entry.hash % slots.Length;
    ghost var table := slots[..];
    ghost var k := 0;
    ProbeStarts(hash, table, parsed, surface);
    while true
      invariant slots[..] == table && Passed(hash, table, parsed, surface, k) && k < slots.Length
      invariant slot == At(entry.hash % slots.Length, k, slots.Length)
      decreases slots.Length - k
    {
      var stored := slots[slot];
      assert table[slot] == stored;
      if stored.None? {
        PassesEnd(hash, table, parsed, index, surface, k);
        Inserts(hash, table, parsed, index, k);
        slots[slot] := Some(index);
        assert slots[..] == table[slot := Some(index)];
        return true;
      }
      StoredBefore(hash, table, parsed, index, slot);
      EntryAt(hash, surfaceBytes, entries, parsed, stored.value);
      var existing := entries[stored.value];
      if surfaceBytes[existing.start..existing.end] == surface {
        return false;
      }
      PassesOn(hash, table, parsed, surface, k);
      k := k + 1;
      slot := (slot + 1) % slots.Length;
    }
  }

  /** Fills the slots with the entries; refuses exactly if two entries share a surface. */
  method BuildSlots(hash: seq<byte> -> nat, surfaceBytes: seq<byte>, entries: seq<RuntimeEntry>, ghost parsed: seq<ParsedEntry>)
    returns (r: Option<seq<Option<nat>>>)
    requires Runtime(hash, surfaceBytes, entries, parsed)
    ensures r.Some? <==> Distinct(parsed, |parsed|)
    ensures r.Some? ==>
      && Indexed(hash, r.value, parsed, |parsed|)
      && (forall s: nat | s < |r.value| && r.value[s].Some? :: r.value[s].value < |parsed|)
      && Used<Key>(SlotKeys(r.value, parsed), |r.value|, None) < |r.value|
  {
    hide Indexed, Distinct, Used, Runtime, SlotKeys, NextPowerOfTwo;
    var least := if 2 * |entries| < 8 then 8 else 2 * |entries|;
    var slots := new Option<nat>[NextPowerOfTwo(least)](_ => None);
    RuntimeSize(hash, surfaceBytes, entries, parsed);
    EmptyIndex(hash, slots[..], parsed);
    NoPairs(parsed);
    for index := 0 to |entries|
      invariant Indexed(hash, slots[..], parsed, index) && Distinct(parsed, index)
      invariant forall s: nat | s < |slots[..]| && slots[..][s].Some? :: slots[..][s].value < |parsed|
      invariant Used<Key>(SlotKeys(slots[..], parsed), |slots[..]|, None) == index
    {
      var ok := InsertEntry(hash, surfaceBytes, entries, slots, index, parsed);
      if !ok {
        ghost var i: nat :| i < index && parsed[i].surface == parsed[index].surface;
        Repeated(parsed, i, index);
        return None;
      }
      MoreDistinct(parsed, index);
    }
    r := Some(slots[..]);
  }

  /** Builds the table of parsed entries, unless a surface occurs twice. */
  method FromEntries(hash: seq<byte> -> nat, parsed: seq<ParsedEntry>) returns (r: Option<Table>)
    ensures r.Some? <==> Distinct(parsed, |parsed|)
    ensures r.Some? ==> r.value.Valid() && r.value.parsed == parsed
  {
    hide Indexed, Distinct, Used, SlotKeys;
    var surfaceBytes: seq<byte> := [];
    var entries: seq<RuntimeEntry> := [];
    var sets: seq<CandidateSet> := [];
    for i := 0 to |parsed|
      invariant Runtime(hash, surfaceBytes, entries, parsed[..i])
      invariant |sets| == i && forall k: nat | k < i :: sets[k] == parsed[k].candidates
    {
      var start := |surfaceBytes|;
      ghost var before := surfaceBytes;
      surfaceBytes := surfaceBytes + parsed[i].surface;
      var entry := RuntimeEntry(start, |surfaceBytes|, i, hash(parsed[i].surface));
      RuntimePush(hash, before, entries, parsed[..i], parsed[i], entry);
      assert parsed[..i] + [parsed[i]] == parsed[..i + 1];
      entries := entries + [entry];
      sets := sets + [parsed[i].candidates];
    }
    assert parsed[..|parsed|] == parsed;
    var slots := BuildSlots(hash, surfaceBytes, entries, parsed);
    if slots.None? {
      return None;
    }
    var table := new Table(hash, surfaceBytes, entries, sets, slots.value, parsed);
    r := Some(table);
  }

  lemma RuntimePush(hash: seq<byte> -> nat, surfaceBytes: seq<byte>, entries: seq<RuntimeEntry>, parsed: seq<ParsedEntry>,
                    next: ParsedEntry, entry: RuntimeEntry)
    requires Runtime(hash, surfaceBytes, entries, parsed)
    requires entry == RuntimeEntry(|surfaceBytes|, |surfaceBytes| + |next.surface|, |parsed|, hash(next.surface))
    ensures Runtime(hash, surfaceBytes + next.surface, entries + [entry], parsed + [next])
  {
    var bytes, more := surfaceBytes + next.surface, entries + [entry];
    forall i: nat | i < |more|
      ensures more[i].start <= more[i].end <= |bytes|
      ensures bytes[more[i].start..more[i].end] == (parsed + [next])[i].surface
    {
      if i < |entries| {
        assert bytes[entries[i].start..entries[i].end] == surfaceBytes[entries[i].start..entries[i].end];
      }
    }
  }

  lemma NoPairs(parsed: seq<ParsedEntry>)
    ensures Distinct(parsed, 0)
  {
  }

  lemma MoreDistinct(parsed: seq<ParsedEntry>, n: nat)
    requires n < |parsed| && Distinct(parsed, n) && forall i: nat | i < n :: parsed[i].surface != parsed[n].surface
    ensures Distinct(parsed, n + 1)
  {
  }

  lemma Repeated(parsed: seq<ParsedEntry>, i: nat, j: nat)
    requires i < j < |parsed| && parsed[i].surface == parsed[j].surface
    ensures !Distinct(parsed, |parsed|)
  {
  }

  lemma StoredBefore(hash: seq<byte> -> nat, slots: seq<Option<nat>>, parsed: seq<ParsedEntry>, n: nat, s: nat)
    requires n <= |parsed| && Indexed(hash, slots, parsed, n) && s < |slots| && slots[s].Some?
    ensures slots[s].value < n
  {
  }
}
