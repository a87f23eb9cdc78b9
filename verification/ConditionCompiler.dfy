/** The compiler from conditions to bytecode, and what the validator makes of its output. */
module ConditionCompiler {
  import opened Wrappers
  import opened Bytes
  import opened ConditionCode
  import opened ConditionValidator
  import opened Conditions
  import opened ConditionMeaning

  /** The tree can be written and its null sentinels can still be counted. */
  ghost predicate Writable(tree: Option<Tree>, nulls: nat) {
    tree.Some? && Encodable(tree.value) && nulls + Nulls(tree.value) <= U32_MAX
  }

  function Combine(opcode: byte, trees: Option<seq<Tree>>): Option<Tree> {
    if trees.None? then None
    else Some(if opcode == AND_CODE then And(trees.value) else Or(trees.value))
  }

  lemma {:induction false} EncodePush(ts: seq<Tree>, t: Tree)
    requires AllEncodable(ts) && Encodable(t)
    ensures AllEncodable(ts + [t])
    ensures EncodeAll(ts + [t]) == EncodeAll(ts) + Encode(t)
    ensures NullsAll(ts + [t]) == NullsAll(ts) + Nulls(t)
  {
    hide Encodable, Encode, Nulls;
    assert (ts + [t])[..|ts|] == ts;
  }

  lemma {:induction false} ResolvePush(cs: seq<Condition>, i: nat, n: Names)
    requires i < |cs| && ResolveAll(cs[..i], n).Some? && Resolve(cs[i], n).Some?
    ensures ResolveAll(cs[..i + 1], n) == Some(ResolveAll(cs[..i], n).value + [Resolve(cs[i], n).value])
  {
    hide Resolve;
    assert cs[..i + 1][..i] == cs[..i];
  }

  lemma {:induction false} ResolvePrefix(cs: seq<Condition>, i: nat, n: Names)
    requires i <= |cs| && ResolveAll(cs, n).Some?
    ensures ResolveAll(cs[..i], n) == Some(ResolveAll(cs, n).value[..i])
  {
    hide Resolve;
    if i < |cs| {
      var body := cs[..|cs| - 1];
      ResolvePrefix(body, i, n);
      assert body[..i] == cs[..i];
      assert ResolveAll(cs, n).value[..i] == ResolveAll(body, n).value[..i];
    } else {
      assert cs[..i] == cs;
      assert ResolveAll(cs, n).value[..i] == ResolveAll(cs, n).value;
    }
  }

  /** One refused child makes the whole combination unwritable. */
  lemma {:induction false} ChildRefused(cs: seq<Condition>, i: nat, opcode: byte, nulls: nat, n: Names)
    requires i < |cs| && ResolveAll(cs[..i], n).Some?
    requires !Writable(Resolve(cs[i], n), nulls + NullsAll(ResolveAll(cs[..i], n).value))
    ensures !Writable(Combine(opcode, ResolveAll(cs, n)), nulls)
  {
    hide Resolve, ResolveAll, Encodable, Nulls;
    if ResolveAll(cs, n).Some? {
      var ts := ResolveAll(cs, n).value;
      ResolvePrefix(cs, i, n);
      ResolveAllItems(cs, n);
      assert ts[i] == Resolve(cs[i], n).value;
      NullsUpTo(ts, i);
      CombineFacts(opcode, ts, nulls);
      assert AllEncodable(ts) ==> Encodable(ts[i]);
    }
  }

  lemma {:induction false} CombineFacts(opcode: byte, ts: seq<Tree>, nulls: nat)
    ensures Writable(Combine(opcode, Some(ts)), nulls)
       <==> AllEncodable(ts) && |ts| <= U16_MAX && nulls + NullsAll(ts) <= U32_MAX
    ensures Nulls(Combine(opcode, Some(ts)).value) == NullsAll(ts)
    ensures Writable(Combine(opcode, Some(ts)), nulls) && opcode in {AND_CODE, OR_CODE} ==>
      Encode(Combine(opcode, Some(ts)).value) == EncodeAll(ts) + [opcode] + U16(|ts|)
  {
  }

  lemma {:induction false} NullsUpTo(ts: seq<Tree>, i: nat)
    requires i < |ts|
    ensures NullsAll(ts[..i]) + Nulls(ts[i]) <= NullsAll(ts)
  {
    hide Nulls;
    SumsConcat(ts, i + 1);
    assert ts[..i + 1][..i] == ts[..i];
  }

  class Compiler {
    const names: Names
    var output: seq<byte>
    var nullSentinels: nat

    constructor (names: Names)
      ensures this.names == names && output == [] && nullSentinels == 0
    {
      this.names := names;
      output, nullSentinels := [], 0;
    }

    /** The call appended the encoding of `tree`, or refused because a name is unknown, a count
        is too long, or the null sentinels cannot be counted. */
    ghost predicate Emitted(ok: bool, before: seq<byte>, nulls: nat, tree: Option<Tree>)
      reads this
    {
      && ok == Writable(tree, nulls)
      && (ok ==> output == before + Encode(tree.value) && nullSentinels == nulls + Nulls(tree.value))
    }

    method Compile(c: Condition) returns (ok: bool)
      requires names.Valid() && nullSentinels <= U32_MAX
      modifies this
      ensures Emitted(ok, old(output), old(nullSentinels), Resolve(c, names))
      ensures ok ==> old(output) <= output && (Shaped(c) ==> Means(output[|old(output)|..], c, names))
      decreases c, 1
    {
      hide Resolve, Encode, Encodable, Nulls, Shaped, Means;
      ok := CompileNode(c);
      if ok {
        var t := Resolve(c, names).value;
        assert output[|old(output)|..] == Encode(t);
        if Shaped(c) {
          EncodingMeans(c, names, t);
        }
      }
    }

    method CompileNode(c: Condition) returns (ok: bool)
      requires names.Valid() && nullSentinels <= U32_MAX
      modifies this
      ensures Emitted(ok, old(output), old(nullSentinels), Resolve(c, names))
      decreases c, 0
    {
      hide ResolveLeaf, ResolveAll, EncodeAll, Means, Shaped;
      if c.AllOf? {
        ok := CompileCombined(c.children, AND_CODE);
      } else if c.AnyOf? {
        ok := CompileCombined(c.children, OR_CODE);
      } else if c.Negation? {
        ok := Compile(c.child);
        if ok {
          output := output + [NOT_CODE];
        }
      } else if IsFeature(c) {
        ok := CompileFeature(c);
      } else if IsState(c) {
        ok := CompileState(c);
      } else {
        ok := CompileMorphemeOrSurface(c);
      }
    }

    method CompileCombined(children: seq<Condition>, opcode: byte) returns (ok: bool)
      requires names.Valid() && nullSentinels <= U32_MAX && opcode in {AND_CODE, OR_CODE}
      modifies this
      ensures Emitted(ok, old(output), old(nullSentinels), Combine(opcode, ResolveAll(children, names)))
      decreases children, 0
    {
      hide Resolve, ResolveAll, EncodeAll, Encode, Encodable, Nulls, NullsAll, Combine, Means, Shaped;
      ghost var before, nulls := output, nullSentinels;
      ghost var trees: seq<Tree> := [];
      EmptyForest(names);
      for i := 0 to |children|
        invariant nullSentinels <= U32_MAX
        invariant ResolveAll(children[..i], names) == Some(trees)
        invariant AllEncodable(trees)
        invariant output == before + EncodeAll(trees) && nullSentinels == nulls + NullsAll(trees)
      {
        ok := Compile(children[i]);
        if !ok {
          ChildRefused(children, i, opcode, nulls, names);
          return;
        }
        ghost var t := Resolve(children[i], names).value;
        ResolvePush(children, i, names);
        EncodePush(trees, t);
        trees := trees + [t];
      }
      assert children[..|children|] == children;
      CombineFacts(opcode, trees, nulls);
      output := output + [opcode];
      if |children| > U16_MAX {
        return false;
      }
      output := output + U16(|children|);
      ok := true;
    }

    method CompileFeature(c: Condition) returns (ok: bool)
      requires IsFeature(c) && names.Valid() && nullSentinels <= U32_MAX
      modifies this
      ensures Emitted(ok, old(output), old(nullSentinels), ResolveLeaf(c, names))
    {
      hide Emitted, Named, Single, Many, DictionarySet, Attributes;
      match c
      case HasRootAttribute(attribute) => ok := CompileNamed(0x10, attribute, names.rootAttributes);
      case HasAnyRootAttribute(attributes) => ok := CompileAttributes(attributes);
      case HasPhoneticAttribute(attribute) => ok := CompileNamed(0x12, attribute, names.phoneticAttributes);
      case DictionaryItemIs(item) => ok := CompileSingleReference(0x13, item, names.dictionary);
      case RootPrimaryPosIs(pos) => ok := CompileNamed(0x14, pos, names.primaryPos);
      case SecondaryPosIs(pos) => ok := CompileNamed(0x15, pos, names.secondaryPos);
      case DictionaryItemIsAny(items) => ok := CompileNullableDictionarySet(0x16, items);
      case DictionaryItemIsNone(items) => ok := CompileNullableDictionarySet(0x17, items);
      case HasAnySuffixSurface => ok := CompileBare(0x18);
      case HasTail => ok := CompileBare(0x19);
      case HasNoTail => ok := CompileBare(0x1a);
    }

    method CompileMorphemeOrSurface(c: Condition) returns (ok: bool)
      requires IsLeaf(c) && !IsFeature(c) && !IsState(c) && names.Valid() && nullSentinels <= U32_MAX
      modifies this
      ensures Emitted(ok, old(output), old(nullSentinels), ResolveLeaf(c, names))
    {
      hide Emitted, Named, Single, Many, DictionarySet, Attributes;
      match c
      case HasTailSequence(morphemes) => ok := CompileReferenceList(0x1b, morphemes, names.morphemes);
      case ContainsMorphemeSequence(morphemes) => ok := CompileReferenceList(0x1c, morphemes, names.morphemes);
      case CurrentMorphemeIs(morpheme) => ok := CompileSingleReference(0x1d, morpheme, names.morphemes);
      case PreviousMorphemeIs(morpheme) => ok := CompileSingleReference(0x1e, morpheme, names.morphemes);
      case RootSurfaceIs(surface) => ok := CompileSingleReference(0x21, surface, names.strings);
      case RootSurfaceIsAny(surfaces) => ok := CompileReferenceList(0x22, surfaces, names.strings);
      case PreviousGroupContainsMorpheme(morphemes) => ok := CompileReferenceList(0x2a, morphemes, names.morphemes);
      case NoSurfaceAfterDerivation => ok := CompileBare(0x2b);
      case ContainsMorpheme(morphemes) => ok := CompileReferenceList(0x2c, morphemes, names.morphemes);
      case PreviousMorphemeIsAny(morphemes) => ok := CompileReferenceList(0x2d, morphemes, names.morphemes);
      case CurrentMorphemeIsAny(morphemes) => ok := CompileReferenceList(0x2e, morphemes, names.morphemes);
    }

    method CompileState(c: Condition) returns (ok: bool)
      requires IsState(c) && names.Valid() && nullSentinels <= U32_MAX
      modifies this
      ensures Emitted(ok, old(output), old(nullSentinels), ResolveLeaf(c, names))
    {
      hide Emitted, Named, Single, Many, DictionarySet, Attributes;
      match c
      case PreviousStateIs(state) => ok := CompileSingleReference(0x1f, state, names.states);
      case PreviousStateIsNot(state) => ok := CompileSingleReference(0x20, state, names.states);
      case CurrentStateIs(state) => ok := CompileSingleReference(0x23, state, names.states);
      case CurrentStateIsNot(state) => ok := CompileSingleReference(0x24, state, names.states);
      case LastDerivationIs(state) => ok := CompileSingleReference(0x25, state, names.states);
      case HasDerivation => ok := CompileBare(0x26);
      case LastDerivationIsAny(states) => ok := CompileReferenceList(0x27, states, names.states);
      case CurrentGroupContainsAny(states) => ok := CompileReferenceList(0x28, states, names.states);
      case PreviousGroupContains(states) => ok := CompileReferenceList(0x29, states, names.states);
      case PreviousStateIsAny(states) => ok := CompileReferenceList(0x2f, states, names.states);
    }

    method CompileBare(opcode: byte) returns (ok: bool)
      requires nullSentinels <= U32_MAX
      modifies this
      ensures Emitted(ok, old(output), old(nullSentinels), Some(Leaf(opcode, NoOperand)))
    {
      output := output + [opcode];
      ok := true;
    }

    method CompileNamed(opcode: byte, name: string, table: seq<string>) returns (ok: bool)
      requires nullSentinels <= U32_MAX
      modifies this
      ensures Emitted(ok, old(output), old(nullSentinels), Named(opcode, table, name))
    {
      output := output + [opcode];
      var index := Position(table, name);
      if index.None? || index.value > 0xFF {
        return false;
      }
      output := output + [index.value];
      ok := true;
    }

    method CompileSingleReference(opcode: byte, name: string, table: seq<string>) returns (ok: bool)
      requires nullSentinels <= U32_MAX && |table| <= U32_MAX
      modifies this
      ensures Emitted(ok, old(output), old(nullSentinels), Single(opcode, table, name))
    {
      output := output + [opcode];
      var index := Position(table, name);
      if index.None? {
        return false;
      }
      output := output + U32(index.value);
      ok := true;
    }

    method CompileReferenceList(opcode: byte, values: seq<string>, table: seq<string>) returns (ok: bool)
      requires nullSentinels <= U32_MAX && |table| <= U32_MAX && opcode !in {0x16, 0x17}
      modifies this
      ensures Emitted(ok, old(output), old(nullSentinels), Many(opcode, table, values))
    {
      hide Position, Positions, Words, U32, U16, NoneCount, OperandEncodable;
      output := output + [opcode];
      ManyFacts(opcode, values, table);
      if |values| > U16_MAX {
        return false;
      }
      output := output + U16(|values|);
      ghost var header := output;
      ghost var ids: seq<nat> := [];
      NoPositions(table);
      for i := 0 to |values|
        invariant Positions(table, values[..i]) == Some(ids)
        invariant forall k: nat | k < |ids| :: ids[k] <= U32_MAX
        invariant output == header + Words(ids)
        invariant nullSentinels == old(nullSentinels)
      {
        var index := Position(table, values[i]);
        if index.None? {
          return false;
        }
        PositionsPush(table, values, i);
        WordsPush(ids, index.value);
        output := output + U32(index.value);
        ids := ids + [index.value];
      }
      assert values[..|values|] == values;
      ok := true;
    }

    method CompileNullableDictionarySet(opcode: byte, items: seq<Option<string>>) returns (ok: bool)
      requires nullSentinels <= U32_MAX && names.Valid() && opcode in {0x16, 0x17}
      modifies this
      ensures Emitted(ok, old(output), old(nullSentinels), DictionarySet(opcode, names.dictionary, items))
    {
      hide Position, NullablePositions, Words, U32, U16, NoneCount, Nones, OperandEncodable, StrictlySorted;
      output := output + [opcode];
      DictionarySetFacts(opcode, items, names.dictionary);
      if |items| > U16_MAX {
        return false;
      }
      output := output + U16(|items|);
      ghost var header := output;
      ghost var ids: seq<nat> := [];
      NoPositions(names.dictionary);
      for i := 0 to |items|
        invariant NullablePositions(names.dictionary, items[..i]) == Some(ids)
        invariant forall k: nat | k < |ids| :: ids[k] <= U32_MAX
        invariant output == header + Words(ids)
        invariant nullSentinels == old(nullSentinels) + NoneCount(ids) <= U32_MAX
      {
        ghost var id := NONE_ID;
        if items[i].Some? {
          var index := Position(names.dictionary, items[i].value);
          if index.None? {
            NullableKnown(names.dictionary, items, i);
            return false;
          }
          id := index.value;
          output := output + U32(index.value);
        } else {
          output := output + U32(NONE_ID);
          if nullSentinels == U32_MAX {
            NonesUpTo(names.dictionary, items, i);
            return false;
          }
          nullSentinels := nullSentinels + 1;
        }
        NullablePositionsPush(names.dictionary, items, i);
        WordsPush(ids, id);
        ids := ids + [id];
      }
      assert items[..|items|] == items;
      ok := true;
    }

    method CompileAttributes(attributes: seq<string>) returns (ok: bool)
      requires nullSentinels <= U32_MAX && names.Valid()
      modifies this
      ensures Emitted(ok, old(output), old(nullSentinels), Attributes(0x11, names.rootAttributes, attributes))
    {
      hide Position, U32, SetBit;
      output := output + [0x11];
      var bits := 0;
      for i := 0 to |attributes|
        invariant Bits(names.rootAttributes, attributes[..i]) == Some(bits)
        invariant output == old(output) + [0x11] && nullSentinels == old(nullSentinels)
      {
        var index := Position(names.rootAttributes, attributes[i]);
        if index.None? {
          assert attributes[i] !in names.rootAttributes;
          return false;
        }
        assert attributes[..i + 1][..i] == attributes[..i];
        bits := SetBit(bits, index.value);
      }
      assert attributes[..|attributes|] == attributes;
      AttributesResolved(attributes, names);
      output := output + U32(bits);
      ok := true;
    }
  }

  lemma {:induction false} EmptyForest(n: Names)
    ensures EncodeAll([]) == [] && NullsAll([]) == 0 && ResolveAll([], n) == Some([])
  {
  }

  lemma {:induction false} WordsPush(ids: seq<nat>, id: nat)
    requires id <= U32_MAX && forall k: nat | k < |ids| :: ids[k] <= U32_MAX
    ensures Words(ids + [id]) == Words(ids) + U32(id)
    ensures NoneCount(ids + [id]) == NoneCount(ids) + if id == NONE_ID then 1 else 0
  {
    assert (ids + [id])[..|ids|] == ids;
  }

  lemma {:induction false} NoPositions(table: seq<string>)
    ensures Positions(table, []) == Some([]) && NullablePositions(table, []) == Some([])
    ensures Words([]) == [] && NoneCount([]) == 0
  {
  }

  lemma {:induction false} PositionsPush(table: seq<string>, values: seq<string>, i: nat)
    requires i < |values| && Positions(table, values[..i]).Some? && Position(table, values[i]).Some?
    ensures Positions(table, values[..i + 1])
         == Some(Positions(table, values[..i]).value + [Position(table, values[i]).value])
  {
    assert values[..i + 1][..i] == values[..i];
  }

  lemma {:induction false} NullablePositionsPush(table: seq<string>, items: seq<Option<string>>, i: nat)
    requires i < |items| && NullablePositions(table, items[..i]).Some? && NullablePosition(table, items[i]).Some?
    ensures NullablePositions(table, items[..i + 1])
         == Some(NullablePositions(table, items[..i]).value + [NullablePosition(table, items[i]).value])
  {
    assert items[..i + 1][..i] == items[..i];
  }

  lemma {:induction false} NullableKnown(table: seq<string>, items: seq<Option<string>>, i: nat)
    requires i < |items| && items[i].Some?
    ensures NullablePositions(table, items).Some? ==> items[i].value in table
  {
    if NullablePositions(table, items).Some? {
      assert NullablePosition(table, items[i]).Some?;
    }
  }

  lemma {:induction false} NonesUpTo(table: seq<string>, items: seq<Option<string>>, i: nat)
    requires |table| <= U32_MAX && i < |items| && items[i].None?
    requires NullablePositions(table, items[..i]).Some?
    ensures NullablePositions(table, items).Some? ==>
      NoneCount(NullablePositions(table, items[..i]).value) + 1 <= NoneCount(NullablePositions(table, items).value)
  {
    hide NullablePositions, NoneCount;
    NonesAreMarkers(items[..i], table);
    assert items[..i + 1][..i] == items[..i];
    assert Nones(items[..i + 1]) == Nones(items[..i]) + 1;
    NonesPrefix(items, i + 1);
    if NullablePositions(table, items).Some? {
      NonesAreMarkers(items, table);
    }
  }

  lemma {:induction false} NonesPrefix(items: seq<Option<string>>, i: nat)
    requires i <= |items|
    ensures Nones(items[..i]) <= Nones(items)
  {
    if i < |items| {
      var body := items[..|items| - 1];
      NonesPrefix(body, i);
      assert body[..i] == items[..i];
    } else {
      assert items[..i] == items;
    }
  }

  lemma {:induction false} DictionarySetFacts(opcode: byte, items: seq<Option<string>>, table: seq<string>)
    requires |table| <= U32_MAX && opcode in {0x16, 0x17}
    ensures DictionarySet(opcode, table, items).Some? <==> NullablePositions(table, items).Some?
    ensures DictionarySet(opcode, table, items).Some? ==>
      var ids := NullablePositions(table, items).value;
      && Nulls(DictionarySet(opcode, table, items).value) == NoneCount(ids)
      && (Encodable(DictionarySet(opcode, table, items).value) <==> |items| <= U16_MAX)
      && (|items| <= U16_MAX ==>
        && OperandEncodable(List(ids))
        && Encode(DictionarySet(opcode, table, items).value) == [opcode] + (U16(|ids|) + Words(ids)))
  {
    hide NullablePositions, Words, U16, NoneCount;
    if DictionarySet(opcode, table, items).Some? {
      ItemsEncodable(items, table);
    }
  }

  lemma {:induction false} ManyFacts(opcode: byte, values: seq<string>, table: seq<string>)
    requires |table| <= U32_MAX && opcode !in {0x16, 0x17}
    ensures Many(opcode, table, values).Some? <==> forall i: nat | i < |values| :: values[i] in table
    ensures Many(opcode, table, values).Some? ==>
      var ids := Positions(table, values).value;
      && Nulls(Many(opcode, table, values).value) == 0
      && (Encodable(Many(opcode, table, values).value) <==> |values| <= U16_MAX)
      && (|values| <= U16_MAX ==>
        OperandEncodable(List(ids)) && Encode(Many(opcode, table, values).value) == [opcode] + (U16(|ids|) + Words(ids)))
  {
    hide Positions, Words, U16;
    if Many(opcode, table, values).Some? {
      var ids := Positions(table, values).value;
      assert forall i: nat | i < |ids| :: ids[i] <= U32_MAX;
    }
  }

  // ---------------------------------------------------------- end to end

  lemma {:induction false} ValidResolves(c: Condition, n: Names)
    requires n.Valid() && Valid(c, n) && Interned(c, n)
    ensures Resolve(c, n).Some?
  {
    hide ResolveAll, StrictlySorted, ResolveLeaf;
    if c.AllOf? || c.AnyOf? {
      forall i: nat | i < |c.children|
        ensures Resolve(c.children[i], n).Some?
      {
        ValidResolves(c.children[i], n);
      }
      ResolveAllItems(c.children, n);
    } else if c.Negation? {
      ValidResolves(c.child, n);
    } else {
      ValidLeafResolves(c, n);
    }
  }

  lemma {:induction false} ValidLeafResolves(c: Condition, n: Names)
    requires n.Valid() && IsLeaf(c) && Valid(c, n) && Interned(c, n)
    ensures ResolveLeaf(c, n).Some?
  {
    hide StrictlySorted, Position, Positions, NullablePositions, Bits, DictionarySetValid;
    match c
    case DictionaryItemIsAny(items) => DictionarySetSorted(items, n.dictionary);
    case DictionaryItemIsNone(items) => DictionarySetSorted(items, n.dictionary);
    case _ =>
  }

  /** A valid condition compiles exactly when its lists are short enough for their 16-bit counts
      and its null sentinels do not overflow their counter. */
  lemma {:induction false} CompilesIff(c: Condition, n: Names, nulls: nat)
    requires n.Valid() && Valid(c, n) && Interned(c, n)
    ensures Writable(Resolve(c, n), nulls) <==> CountsFit(c) && nulls + NullItems(c) <= U32_MAX
  {
    ValidResolves(c, n);
    Resolved(c, n);
  }

  /** The validator accepts what the compiler writes for a valid condition, and recomputes the
      condition count of the upstream representation and the null sentinels. */
  lemma {:induction false} CompiledIsAccepted(c: Condition, n: Names, nulls: nat)
    requires n.Valid() && Valid(c, n)
    requires Writable(Resolve(c, n), nulls)
    ensures Verdict(Encode(Resolve(c, n).value), n.Sizes())
         == Some(ConditionValidation(ZemberekCount(c), NullItems(c)))
    ensures Means(Encode(Resolve(c, n).value), c, n)
  {
    hide Run, Encode, Encodable, InRange, Resolve, Means, Shaped;
    var t := Resolve(c, n).value;
    ValidIsShaped(c, n);
    EncodingMeans(c, n, t);
    Resolved(c, n);
    CountKept(c, n);
    AcceptedIffEncoding(Encode(t), t, n.Sizes());
  }

  /** Every accepted program that is not empty is the encoding of exactly one tree in range, and
      the validator's two numbers are those of that tree. */
  lemma AcceptedIsOneTree(program: seq<byte>, l: Limits) returns (t: Tree)
    requires l.Valid() && program != [] && Verdict(program, l).Some?
    ensures InRange(t, l) && Encodable(t) && Encode(t) == program
    ensures Verdict(program, l) == Some(ConditionValidation(Count(t), Nulls(t)))
    ensures forall u: Tree :: InRange(u, l) && Encodable(u) && Encode(u) == program ==> u == t
  {
    hide Run, Encode, Encodable, InRange, Count, Nulls;
    var forest := Run(program, 0, [], l).value;
    t := forest[0];
    assert forest == [t];
    AcceptedIffEncoding(program, t, l);
    forall u: Tree | InRange(u, l) && Encodable(u) && Encode(u) == program
      ensures u == t
    {
      EncodingInjective(u, t, l);
    }
  }

  /** A conjunction of more than 65535 conditions is valid, but it cannot be compiled. */
  lemma {:induction false} LongConjunctionRefused(n: Names)
    requires n.Valid()
    ensures var c := AllOf(seq(U16_MAX + 1, _ => HasTail));
      Valid(c, n) && Interned(c, n) && forall nulls: nat :: !Writable(Resolve(c, n), nulls)
  {
    var c := AllOf(seq(U16_MAX + 1, _ => HasTail));
    assert Valid(c, n) && Interned(c, n);
    forall nulls: nat
      ensures !Writable(Resolve(c, n), nulls)
    {
      CompilesIff(c, n, nulls);
    }
  }
}
