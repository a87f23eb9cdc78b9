/** The stack machine that checks condition bytecode and recomputes its condition count. */
module ConditionValidator {
  import opened Wrappers
  import opened Bytes
  import opened ConditionCode

  datatype ConditionValidation = ConditionValidation(zemberekCount: nat, nullSentinels: nat)

  /** What the validator keeps of a forest: one count for each tree. */
  function Counts(ts: seq<Tree>): seq<nat> {
    seq(|ts|, i requires 0 <= i < |ts| => Count(ts[i]))
  }

  /** The validator's verdict in terms of the tree a program encodes: an empty program is the
      absent condition, any other program must leave exactly one tree. */
  function Verdict(program: seq<byte>, l: Limits): Option<ConditionValidation> {
    if program == [] then Some(ConditionValidation(0, 0))
    else
      var forest := Run(program, 0, [], l);
      if forest.Some? && |forest.value| == 1 then
        Some(ConditionValidation(Count(forest.value[0]), Nulls(forest.value[0])))
      else None
  }

  lemma {:induction false} SumsConcat(ts: seq<Tree>, split: nat)
    requires split <= |ts|
    ensures CountAll(ts) == CountAll(ts[..split]) + CountAll(ts[split..])
    ensures NullsAll(ts) == NullsAll(ts[..split]) + NullsAll(ts[split..])
  {
    hide Count, Nulls;
    if split == |ts| {
      assert ts[..split] == ts && ts[split..] == [];
    } else {
      var body := ts[..|ts| - 1];
      SumsConcat(body, split);
      assert body[..split] == ts[..split];
      assert body[split..] == ts[split..][..|ts| - split - 1];
    }
  }

  lemma {:induction false} SumsPush(ts: seq<Tree>, t: Tree)
    ensures NullsAll(ts + [t]) == NullsAll(ts) + Nulls(t)
    ensures CountAll(ts + [t]) == CountAll(ts) + Count(t)
    ensures Counts(ts + [t]) == Counts(ts) + [Count(t)]
  {
    hide Count, Nulls;
    assert (ts + [t])[..|ts|] == ts;
  }

  /** A strictly sorted nullable list holds the marker at most once, at its end. */
  lemma {:induction false} NoneCountSorted(ids: seq<nat>, limit: nat)
    requires NullableSorted(ids, limit)
    ensures NoneCount(ids) == if ids != [] && ids[|ids| - 1] == NONE_ID then 1 else 0
  {
    if |ids| > 1 {
      var body := ids[..|ids| - 1];
      assert NullableSorted(body, limit);
      NoneCountSorted(body, limit);
      assert NullableOrder(ids[|ids| - 2], ids[|ids| - 1]);
    }
  }

  lemma {:induction false} CombinedSums(ts: seq<Tree>, split: nat, combined: Tree)
    requires split <= |ts| && (combined == And(ts[split..]) || combined == Or(ts[split..]))
    ensures Counts(ts[..split] + [combined]) == Counts(ts)[..split] + [CountAll(ts[split..])]
    ensures NullsAll(ts[..split] + [combined]) == NullsAll(ts)
  {
    SumsConcat(ts, split);
    SumsPush(ts[..split], combined);
  }

  lemma NotSums(ts: seq<Tree>)
    requires ts != []
    ensures var next := ts[..|ts| - 1] + [Not(ts[|ts| - 1])];
      Counts(next) == Counts(ts)[..|ts| - 1] + [1] && NullsAll(next) == NullsAll(ts)
  {
    SumsPush(ts[..|ts| - 1], Not(ts[|ts| - 1]));
  }

  /** The state of the scan over a nullable list: the words read are in order. */
  ghost predicate NullableScan(ids: seq<nat>, limit: nat, count: nat, nullCount: nat, previous: Option<nat>) {
    && NullableSorted(ids, limit)
    && nullCount == NoneCount(ids)
    && if nullCount == 0 then previous == (if ids == [] then None else Some(ids[|ids| - 1]))
       else nullCount == 1 && |ids| == count
  }

  lemma NullableStart(program: seq<byte>, start: nat, limit: nat, count: nat)
    requires start <= |program|
    ensures NullableScan(ReadWords(program, start, 0), limit, count, 0, None)
  {
  }

  /** A nullable list is read exactly where its count and its sorted words are. */
  lemma NullableRead(program: seq<byte>, position: nat, limit: nat)
    requires position <= |program|
    ensures position + 2 > |program| ==> ReadOperand(program, position, NullableBelow(limit)).None?
    ensures position + 2 <= |program| ==>
      var found, count := ReadOperand(program, position, NullableBelow(limit)), ReadU16(program, position);
      && (position + 2 + 4 * count > |program| ==> found.None?)
      && (position + 2 + 4 * count <= |program| ==>
        && var words := ReadWords(program, position + 2, count);
        && (found.Some? <==> NullableSorted(words, limit))
        && (found.Some? ==> found.value == (List(words), position + 2 + 4 * count)))
  {
    hide NullableSorted;
  }

  lemma NullableAccepts(ids: seq<nat>, value: nat, limit: nat, count: nat, previous: Option<nat>)
    requires |ids| < count && NullableScan(ids, limit, count, 0, previous)
    requires
      if value == NONE_ID then |ids| + 1 == count
      else value < limit && (previous.None? || previous.value < value)
    ensures
      if value == NONE_ID then NullableScan(ids + [value], limit, count, 1, previous)
      else NullableScan(ids + [value], limit, count, 0, Some(value))
  {
    var next := ids + [value];
    assert next[..|ids|] == ids;
    if ids != [] {
      NoneCountSorted(ids, limit);
      assert NullableOrder(ids[|ids| - 1], value);
    }
  }

  lemma NullableRefuses(program: seq<byte>, start: nat, i: nat, count: nat, limit: nat)
    requires i < count && start + 4 * i + 4 <= |program| && start + 4 * count <= |program|
    requires var value := ReadU32(program, start + 4 * i);
      if value == NONE_ID then i + 1 < count
      else value >= limit || (i > 0 && ReadU32(program, start + 4 * i - 4) >= value)
    ensures !NullableSorted(ReadWords(program, start, count), limit)
  {
    var words := ReadWords(program, start, count);
    assert words[i] == ReadU32(program, start + 4 * i);
    if words[i] == NONE_ID {
      assert !NullableOrder(words[i], words[i + 1]);
    } else if words[i] < limit {
      assert words[i - 1] == ReadU32(program, start + 4 * (i - 1));
      assert !NullableOrder(words[i - 1], words[i]);
    }
  }

  lemma {:induction false} LeafCounts(opcode: byte, operand: Operand)
    ensures Count(Leaf(opcode, operand)) == 1
  {
  }

  lemma UnknownOpcode(program: seq<byte>, position: nat, opcode: byte, l: Limits)
    requires position <= |program|
    requires !(0x01 <= opcode <= 0x03) && !(0x10 <= opcode <= 0x2f)
    ensures LeafOperand(program, position, opcode, l).None?
  {
  }

  lemma {:induction false} SingletonNulls(t: Tree)
    ensures NullsAll([t]) == Nulls(t)
  {
    assert [t][..0] == [];
  }

  class ConditionProgramValidator {
    const program: seq<byte>
    const limits: Limits
    var position: nat
    var stack: seq<nat>
    var nullSentinels: nat
    /** The trees whose counts are on the stack. */
    ghost var forest: seq<Tree>

    ghost predicate Valid()
      reads this
    {
      position <= |program| && stack == Counts(forest) && nullSentinels == NullsAll(forest)
    }

    constructor (program: seq<byte>, limits: Limits)
      ensures Valid() && this.program == program && this.limits == limits && position == 0 && forest == []
    {
      this.program, this.limits := program, limits;
      position, stack, nullSentinels, forest := 0, [], 0, [];
    }

    /** Reads the whole program. */
    method Validate() returns (result: Option<ConditionValidation>)
      requires Valid() && position == 0 && forest == []
      modifies this
      ensures result == Verdict(program, limits)
    {
      hide Instruction, LeafOperand, Count, Nulls, CountAll, NullsAll;
      if program == [] {
        return Some(ConditionValidation(0, 0));
      }
      while position < |program|
        invariant Valid()
        invariant Run(program, position, forest, limits) == Run(program, 0, [], limits)
        decreases |program| - position
      {
        var ok := Step();
        if !ok {
          return None;
        }
      }
      if |stack| != 1 {
        return None;
      }
      SingletonNulls(forest[0]);
      assert forest == [forest[0]];
      return Some(ConditionValidation(stack[0], nullSentinels));
    }

    /** Checks one instruction and keeps the counts of the stack. */
    method Step() returns (ok: bool)
      requires Valid() && position < |program|
      modifies this
      ensures ok ==> Valid()
      ensures Ran(ok, old(position) + 1, program[old(position)], old(forest))
    {
      hide LeafOperand, Count, Nulls, CountAll, NullsAll;
      var opcode := program[position];
      position := position + 1;
      if 0x01 <= opcode <= 0x03 {
        ok := ValidateStructural(opcode);
        return;
      }
      ghost var start, before := position, forest;
      if 0x10 <= opcode <= 0x17 {
        ok := ValidateFeature(opcode);
      } else if 0x18 <= opcode <= 0x22 {
        ok := ValidateMorphemeOrSurface(opcode);
      } else if 0x23 <= opcode <= 0x2f {
        ok := ValidateStateOrGroup(opcode);
      } else {
        UnknownOpcode(program, position, opcode, limits);
        return false;
      }
      if ok {
        ghost var leaf := Leaf(opcode, LeafOperand(program, start, opcode, limits).value.0);
        SumsPush(forest, leaf);
        LeafCounts(opcode, leaf.operand);
        stack, forest := stack + [1], forest + [leaf];
      }
    }

    /** The validator state is the one that the instruction at `start` leads to. */
    ghost predicate Ran(ok: bool, start: nat, opcode: byte, before: seq<Tree>)
      requires start <= |program|
      reads this
    {
      var next := Instruction(program, start, opcode, before, limits);
      ok == next.Some? && (ok ==> position == next.value.position && forest == next.value.forest)
    }

    /** The operand at `start` was checked and passed over. */
    ghost predicate Checked(ok: bool, start: nat, opcode: byte)
      requires start <= |program|
      reads this
    {
      var found := LeafOperand(program, start, opcode, limits);
      && ok == found.Some?
      && (ok ==> position == found.value.1 && nullSentinels == NullsAll(forest) + Nulls(Leaf(opcode, found.value.0)))
    }

    method ValidateStructural(opcode: byte) returns (ok: bool)
      requires Valid() && 0x01 <= opcode <= 0x03
      modifies this
      ensures ok ==> Valid()
      ensures Ran(ok, old(position), opcode, old(forest))
    {
      hide LeafOperand, Count, Nulls, CountAll, NullsAll;
      if opcode == AND_CODE || opcode == OR_CODE {
        if position + 2 > |program| {
          return false;
        }
        var count := ReadU16(program, position);
        position := position + 2;
        if count < 2 || |stack| < count {
          return false;
        }
        var split := |stack| - count;
        var zemberekCount := SumFrom(split);
        ghost var children := forest[split..];
        ghost var combined := if opcode == AND_CODE then And(children) else Or(children);
        CombinedSums(forest, split, combined);
        stack := stack[..split] + [zemberekCount];
        forest := forest[..split] + [combined];
      } else {
        if stack == [] {
          return false;
        }
        NotSums(forest);
        stack := stack[..|stack| - 1] + [1];
        forest := forest[..|forest| - 1] + [Not(forest[|forest| - 1])];
      }
      ok := true;
    }

    /** The sum of the counts from a place of the stack on. */
    method SumFrom(split: nat) returns (sum: nat)
      requires stack == Counts(forest) && split <= |stack|
      ensures sum == CountAll(forest[split..])
    {
      hide Count;
      sum := 0;
      ghost var children := forest[split..];
      for i := split to |stack|
        invariant sum == CountAll(children[..i - split])
      {
        ghost var sofar := children[..i - split + 1];
        assert sofar[..|sofar| - 1] == children[..i - split];
        sum := sum + stack[i];
      }
      assert children[..|stack| - split] == children;
    }

    method ValidateFeature(opcode: byte) returns (ok: bool)
      requires Valid() && 0x10 <= opcode <= 0x17
      modifies `position, `nullSentinels
      ensures Checked(ok, old(position), opcode)
    {
      hide NullableSorted, ReadWords, NullsAll, NoneCount, Count, CountAll;
      if opcode == 0x10 {
        ok := RequireSmallIndex(ROOT_ATTRIBUTE_COUNT);
      } else if opcode == 0x11 {
        ok := RequireIndex(ROOT_ATTRIBUTE_LIMIT);
      } else if opcode == 0x12 {
        ok := RequireSmallIndex(PHONETIC_ATTRIBUTE_COUNT);
      } else if opcode == 0x13 {
        ok := RequireIndex(limits.dictionary);
      } else if opcode == 0x14 {
        ok := RequireSmallIndex(PRIMARY_POS_COUNT);
      } else if opcode == 0x15 {
        ok := RequireSmallIndex(SECONDARY_POS_COUNT);
      } else {
        var count := ValidateNullableIndexList(limits.dictionary);
        ok := count.Some?;
        if ok {
          nullSentinels := nullSentinels + count.value;
        }
      }
    }

    method ValidateMorphemeOrSurface(opcode: byte) returns (ok: bool)
      requires Valid() && 0x18 <= opcode <= 0x22
      modifies `position
      ensures Checked(ok, old(position), opcode)
    {
      hide NullableSorted, ReadWords, NullsAll, NoneCount, Count, CountAll;
      if opcode <= 0x1a {
        ok := true;
      } else if opcode <= 0x1c {
        ok := ValidateIndexList(limits.morphemes);
      } else if opcode <= 0x1e {
        ok := RequireIndex(limits.morphemes);
      } else if opcode <= 0x20 {
        ok := RequireIndex(limits.states);
      } else if opcode == 0x21 {
        ok := RequireIndex(limits.strings);
      } else {
        ok := ValidateIndexList(limits.strings);
      }
    }

    method ValidateStateOrGroup(opcode: byte) returns (ok: bool)
      requires Valid() && 0x23 <= opcode <= 0x2f
      modifies `position
      ensures Checked(ok, old(position), opcode)
    {
      hide NullableSorted, ReadWords, NullsAll, NoneCount, Count, CountAll;
      if opcode <= 0x25 {
        ok := RequireIndex(limits.states);
      } else if opcode == 0x26 || opcode == 0x2b {
        ok := true;
      } else if opcode <= 0x29 || opcode == 0x2f {
        ok := ValidateIndexList(limits.states);
      } else {
        ok := ValidateIndexList(limits.morphemes);
      }
    }

    method RequireSmallIndex(limit: nat) returns (ok: bool)
      requires Valid()
      modifies `position
      ensures ok == ReadOperand(program, old(position), SmallBelow(limit)).Some?
      ensures ok ==> position == ReadOperand(program, old(position), SmallBelow(limit)).value.1
    {
      if position == |program| {
        return false;
      }
      var value := program[position];
      position := position + 1;
      ok := value < limit;
    }

    method RequireIndex(limit: nat) returns (ok: bool)
      requires Valid()
      modifies `position
      ensures ok == ReadOperand(program, old(position), WordBelow(limit)).Some?
      ensures ok ==> position == ReadOperand(program, old(position), WordBelow(limit)).value.1
    {
      if position + 4 > |program| {
        return false;
      }
      var value := ReadU32(program, position);
      position := position + 4;
      ok := value < limit;
    }

    method ValidateIndexList(limit: nat) returns (ok: bool)
      requires Valid()
      modifies `position
      ensures ok == ReadOperand(program, old(position), ListBelow(limit)).Some?
      ensures ok ==> position == ReadOperand(program, old(position), ListBelow(limit)).value.1
    {
      if position + 2 > |program| {
        return false;
      }
      var count := ReadU16(program, position);
      position := position + 2;
      ghost var start := position;
      for i := 0 to count
        invariant position == start + 4 * i <= |program|
        invariant forall k: nat | k < i :: ReadU32(program, start + 4 * k) < limit
      {
        if position + 4 > |program| {
          return false;
        }
        var value := ReadU32(program, position);
        position := position + 4;
        if value >= limit {
          if start + 4 * count <= |program| {
            assert ReadWords(program, start, count)[i] == value;
          }
          return false;
        }
      }
      ok := true;
    }

    method ValidateNullableIndexList(limit: nat) returns (result: Option<nat>)
      requires Valid()
      modifies `position
      ensures result.Some? == ReadOperand(program, old(position), NullableBelow(limit)).Some?
      ensures result.Some? ==>
        var found := ReadOperand(program, old(position), NullableBelow(limit)).value;
        position == found.1 && result.value == NoneCount(found.0.ids)
    {
      hide ReadOperand, NullableSorted, NoneCount, ReadU32, ReadU16;
      NullableRead(program, position, limit);
      if position + 2 > |program| {
        return None;
      }
      var count := ReadU16(program, position);
      position := position + 2;
      ghost var start := position;
      NullableStart(program, start, limit, count);
      var nullCount := 0;
      var previous: Option<nat> := None;
      for i := 0 to count
        invariant position == start + 4 * i <= |program|
        invariant NullableScan(ReadWords(program, start, i), limit, count, nullCount, previous)
      {
        if position + 4 > |program| {
          return None;
        }
        var value := ReadU32(program, position);
        position := position + 4;
        ReadWordsStep(program, start, i);
        if value == NONE_ID {
          if i + 1 != count || nullCount != 0 {
            if start + 4 * count <= |program| {
              NullableRefuses(program, start, i, count, limit);
            }
            return None;
          }
          NullableAccepts(ReadWords(program, start, i), value, limit, count, previous);
          nullCount := 1;
        } else {
          if value >= limit || (previous.Some? && previous.value >= value) {
            if start + 4 * count <= |program| {
              NullableRefuses(program, start, i, count, limit);
            }
            return None;
          }
          NullableAccepts(ReadWords(program, start, i), value, limit, count, previous);
          previous := Some(value);
        }
      }
      result := Some(nullCount);
    }
  }
}
