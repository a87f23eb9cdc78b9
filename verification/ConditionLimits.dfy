/** Which operands the validator accepts behind each opcode, and the order of names. */
module ConditionLimits {
  import opened Wrappers
  import opened Bytes
  import opened ConditionCode
  import opened ConditionValidator
  import opened Conditions

  /** A program of one leaf is accepted if its operand is read and nothing follows it. */
  lemma {:induction false} OneLeaf(opcode: byte, program: seq<byte>, l: Limits)
    requires program != [] && program[0] == opcode && opcode !in {0x01, 0x02, 0x03}
    requires LeafOperand(program, 1, opcode, l).Some? ==> LeafOperand(program, 1, opcode, l).value.1 == |program|
    ensures Verdict(program, l).Some? <==> LeafOperand(program, 1, opcode, l).Some?
  {
    hide LeafOperand, Count, Nulls;
    var none: seq<Tree> := [];
    if LeafOperand(program, 1, opcode, l).Some? {
      var leaf := Leaf(opcode, LeafOperand(program, 1, opcode, l).value.0);
      assert none + [leaf] == [leaf];
      RunAtEnd(program, [leaf], l);
    }
  }

  /** Conditions without an operand. */
  lemma BareLeaf(opcode: byte, l: Limits)
    requires opcode !in {0x01, 0x02, 0x03}
    ensures Verdict([opcode], l).Some? <==> opcode in {0x18, 0x19, 0x1a, 0x26, 0x2b}
  {
    hide Verdict;
    OneLeaf(opcode, [opcode], l);
  }

  /** One of 29 root attributes, 18 phonetic attributes, 14 or 32 parts of speech. */
  lemma SmallLeaf(opcode: byte, value: byte, l: Limits)
    requires opcode in {0x10, 0x12, 0x14, 0x15}
    ensures Verdict([opcode, value], l).Some?
       <==> value < (if opcode == 0x10 then 29 else if opcode == 0x12 then 18 else if opcode == 0x14 then 14 else 32)
  {
    hide Verdict;
    OneLeaf(opcode, [opcode, value], l);
  }

  /** A set of root attributes has no bit beyond the 29th; a position lies in its table. */
  lemma WordLeaf(opcode: byte, word: nat, l: Limits)
    requires word <= U32_MAX && opcode in {0x11, 0x13, 0x1d, 0x1e, 0x1f, 0x20, 0x21, 0x23, 0x24, 0x25}
    ensures Verdict([opcode] + U32(word), l).Some? <==>
      word < (if opcode == 0x11 then 0x2000_0000 else if opcode == 0x13 then l.dictionary
              else if opcode == 0x1d || opcode == 0x1e then l.morphemes else if opcode == 0x21 then l.strings else l.states)
  {
    hide Verdict, U32, ReadU32;
    var program := [opcode] + U32(word);
    assert program[1..5] == U32(word);
    ReadOfU32(program, 1, word);
    OneLeaf(opcode, program, l);
  }

  lemma ListIsRead(opcode: byte, ids: seq<nat>)
    requires |ids| <= U16_MAX && forall i: nat | i < |ids| :: ids[i] <= U32_MAX
    ensures var program := [opcode] + (U16(|ids|) + Words(ids));
      |program| == 3 + 4 * |ids| && ReadU16(program, 1) == |ids| && ReadWords(program, 3, |ids|) == ids
  {
    hide U16, Words;
    var program := [opcode] + (U16(|ids|) + Words(ids));
    assert program[1..] == EncodeOperand(List(ids));
    ListRoundTrip(program, 1, ids);
  }

  /** Lists of morphemes, states or root surfaces. */
  lemma ListLeaf(opcode: byte, ids: seq<nat>, l: Limits)
    requires |ids| <= U16_MAX && forall i: nat | i < |ids| :: ids[i] <= U32_MAX
    requires opcode in {0x1b, 0x1c, 0x2a, 0x2c, 0x2d, 0x2e, 0x22, 0x27, 0x28, 0x29, 0x2f}
    ensures Verdict([opcode] + (U16(|ids|) + Words(ids)), l).Some? <==>
      forall i: nat | i < |ids| ::
        ids[i] < (if opcode == 0x22 then l.strings
                  else if opcode in {0x27, 0x28, 0x29, 0x2f} then l.states else l.morphemes)
  {
    hide Verdict, U16, Words, ReadU16, ReadWords;
    ListIsRead(opcode, ids);
    OneLeaf(opcode, [opcode] + (U16(|ids|) + Words(ids)), l);
  }

  /** Sets of dictionary items rise, and only the last one may be the mark for no item. */
  lemma SetLeaf(opcode: byte, ids: seq<nat>, l: Limits)
    requires |ids| <= U16_MAX && (forall i: nat | i < |ids| :: ids[i] <= U32_MAX) && l.Valid()
    requires opcode == 0x16 || opcode == 0x17
    ensures Verdict([opcode] + (U16(|ids|) + Words(ids)), l).Some? <==>
      && (forall i: nat | i < |ids| :: ids[i] < l.dictionary || (i == |ids| - 1 && ids[i] == 0xFFFF_FFFF))
      && (forall i: nat, j: nat | i < j < |ids| :: ids[i] < ids[j])
  {
    hide Verdict, U16, Words, ReadU16, ReadWords;
    ListIsRead(opcode, ids);
    OneLeaf(opcode, [opcode] + (U16(|ids|) + Words(ids)), l);
    SortedSet(ids, l.dictionary);
  }

  lemma SortedSet(ids: seq<nat>, limit: nat)
    requires limit <= U32_MAX
    ensures NullableSorted(ids, limit) <==>
      && (forall i: nat | i < |ids| :: ids[i] < limit || (i == |ids| - 1 && ids[i] == 0xFFFF_FFFF))
      && (forall i: nat, j: nat | i < j < |ids| :: ids[i] < ids[j])
  {
    if NullableSorted(ids, limit) {
      forall i: nat | i < |ids|
        ensures ids[i] < limit || (i == |ids| - 1 && ids[i] == 0xFFFF_FFFF)
      {
        if i + 1 < |ids| {
          assert NullableOrder(ids[i + 1 - 1], ids[i + 1]);
        }
      }
      forall i: nat, j: nat | i < j < |ids|
        ensures ids[i] < ids[j]
      {
        SortedStep(ids, limit, i, j);
      }
    }
  }

  lemma {:induction false} SortedStep(ids: seq<nat>, limit: nat, i: nat, j: nat)
    requires limit <= U32_MAX && NullableSorted(ids, limit) && i < j < |ids|
    ensures ids[i] < ids[j]
    decreases j
  {
    assert NullableOrder(ids[j - 1], ids[j]);
    assert ids[j - 1] < limit;
    if i < j - 1 {
      SortedStep(ids, limit, i, j - 1);
    }
  }

  /** Names are ordered by their first difference, or by length if there is none. */
  lemma {:induction false} LessIs(first: string, second: string)
    ensures Less(first, second) <==>
      exists k: nat :: Differ(first, second, k)
  {
    if second == "" || first == "" {
      if first == "" && second != "" {
        assert Differ(first, second, 0);
      }
    } else if first[0] != second[0] {
      if first[0] < second[0] {
        assert Differ(first, second, 0);
      }
      if k: nat :| Differ(first, second, k) {
        assert k == 0;
      }
    } else {
      LessIs(first[1..], second[1..]);
      if k: nat :| Differ(first[1..], second[1..], k) {
        assert first[..k + 1] == [first[0]] + first[1..][..k];
        assert second[..k + 1] == [second[0]] + second[1..][..k];
        assert Differ(first, second, k + 1);
      }
      if k: nat :| Differ(first, second, k) {
        assert first[..k][0] == first[0];
        assert first[1..][..k - 1] == first[..k][1..] && second[1..][..k - 1] == second[..k][1..];
        assert Differ(first[1..], second[1..], k - 1);
      }
    }
  }

  /** The names agree up to `k`, and there the first one ends or has the smaller character. */
  predicate Differ(first: string, second: string, k: nat) {
    && k <= |first| && k < |second| && first[..k] == second[..k]
    && (k == |first| || first[k] < second[k])
  }
}
