/** What a condition means, what a program means, and that compiling keeps the meaning. */
module ConditionMeaning {
  import opened Wrappers
  import opened Bytes
  import opened ConditionCode
  import opened Conditions

  /** Whether each elementary condition holds. A test for any of several root attributes depends on
      which attributes they are only. */
  datatype Facts = Facts(holds: Condition -> bool, anyAttribute: set<string> -> bool)

  predicate Holds(c: Condition, f: Facts) {
    match c
    case AllOf(children) => forall i: nat | i < |children| :: Holds(children[i], f)
    case AnyOf(children) => exists i: nat | i < |children| :: Holds(children[i], f)
    case Negation(child) => !Holds(child, f)
    case HasAnyRootAttribute(attributes) => f.anyAttribute(set a | a in attributes)
    case _ => f.holds(c)
  }

  /** Conjunctions and disjunctions have two parts at least. */
  predicate Shaped(c: Condition) {
    match c
    case AllOf(children) => |children| >= 2 && forall i: nat | i < |children| :: Shaped(children[i])
    case AnyOf(children) => |children| >= 2 && forall i: nat | i < |children| :: Shaped(children[i])
    case Negation(child) => Shaped(child)
    case _ => true
  }

  // ------------------------------------------------------------ what a program means

  /** A name found in a program, and where reading goes on. */
  datatype Found<T> = Found(value: T, next: nat) | Missing

  function NameByByte(p: seq<byte>, k: nat, table: seq<string>): Found<string> {
    if k < |p| && p[k] < |table| then Found(table[p[k]], k + 1) else Missing
  }

  function PairAt(p: seq<byte>, k: nat): nat
    requires k + 2 <= |p|
  {
    var low: int, high: int := p[k], p[k + 1];
    low + 0x100 * high
  }

  function WordAt(p: seq<byte>, k: nat): nat
    requires k + 4 <= |p|
  {
    var first: int, second: int, third: int, fourth: int := p[k], p[k + 1], p[k + 2], p[k + 3];
    first + 0x100 * second + 0x1_0000 * third + 0x100_0000 * fourth
  }

  function NameByWord(p: seq<byte>, k: nat, table: seq<string>): Found<string> {
    if k + 4 <= |p| && WordAt(p, k) < |table| then Found(table[WordAt(p, k)], k + 4) else Missing
  }

  /** The names of `count` consecutive words. */
  function NamesByWords(p: seq<byte>, k: nat, count: nat, table: seq<string>): Option<seq<string>> {
    if count == 0 then Some([])
    else
      var body := NamesByWords(p, k, count - 1, table);
      var last := NameByWord(p, k + 4 * (count - 1), table);
      if body.None? || last.Missing? then None else Some(body.value + [last.value])
  }

  /** A count of two bytes and as many words. */
  function NameList(p: seq<byte>, k: nat, table: seq<string>): Found<seq<string>> {
    if k + 2 > |p| then Missing
    else
      var count := PairAt(p, k);
      var names := NamesByWords(p, k + 2, count, table);
      if names.None? then Missing else Found(names.value, k + 2 + 4 * count)
  }

  function ItemsByWords(p: seq<byte>, k: nat, count: nat, table: seq<string>): Option<seq<Option<string>>> {
    if count == 0 then Some([])
    else
      var body := ItemsByWords(p, k, count - 1, table);
      var at := k + 4 * (count - 1);
      if body.None? || at + 4 > |p| then None
      else if WordAt(p, at) == 0xFFFF_FFFF then Some(body.value + [None])
      else if WordAt(p, at) < |table| then Some(body.value + [Some(table[WordAt(p, at)])])
      else None
  }

  /** The same with all bits set for no item. */
  function ItemList(p: seq<byte>, k: nat, table: seq<string>): Found<seq<Option<string>>> {
    if k + 2 > |p| then Missing
    else
      var count := PairAt(p, k);
      var items := ItemsByWords(p, k + 2, count, table);
      if items.None? then Missing else Found(items.value, k + 2 + 4 * count)
  }

  predicate BitSet(word: nat, i: nat) {
    if i == 0 then word % 2 == 1 else BitSet(word / 2, i - 1)
  }

  /** The attributes whose bits are set, the first one in the lowest bit. */
  function AttributeSet(word: nat, table: seq<string>): set<string> {
    set i: nat | i < |table| && BitSet(word, i) :: table[i]
  }

  function Apply<T>(found: Found<T>, fact: T -> bool): Found<bool> {
    if found.Missing? then Missing else Found(fact(found.value), found.next)
  }

  /** The truth of a leaf instruction, started behind its opcode. */
  function LeafTruth(p: seq<byte>, k: nat, opcode: byte, n: Names, f: Facts): Found<bool> {
    if opcode == 0x11 then
      if k + 4 <= |p| then Found(f.anyAttribute(AttributeSet(WordAt(p, k), n.rootAttributes)), k + 4) else Missing
    else if opcode <= 0x1a then FeatureTruth(p, k, opcode, n, f)
    else if opcode in {0x1f, 0x20, 0x23, 0x24, 0x25, 0x26, 0x27, 0x28, 0x29, 0x2f} then StateTruth(p, k, opcode, n, f)
    else MorphemeTruth(p, k, opcode, n, f)
  }

  function FeatureTruth(p: seq<byte>, k: nat, opcode: byte, n: Names, f: Facts): Found<bool> {
    if opcode == 0x10 then Apply(NameByByte(p, k, n.rootAttributes), x => f.holds(HasRootAttribute(x)))
    else if opcode == 0x12 then Apply(NameByByte(p, k, n.phoneticAttributes), x => f.holds(HasPhoneticAttribute(x)))
    else if opcode == 0x13 then Apply(NameByWord(p, k, n.dictionary), x => f.holds(DictionaryItemIs(x)))
    else if opcode == 0x14 then Apply(NameByByte(p, k, n.primaryPos), x => f.holds(RootPrimaryPosIs(x)))
    else if opcode == 0x15 then Apply(NameByByte(p, k, n.secondaryPos), x => f.holds(SecondaryPosIs(x)))
    else if opcode == 0x16 then Apply(ItemList(p, k, n.dictionary), x => f.holds(DictionaryItemIsAny(x)))
    else if opcode == 0x17 then Apply(ItemList(p, k, n.dictionary), x => f.holds(DictionaryItemIsNone(x)))
    else if opcode == 0x18 then Found(f.holds(HasAnySuffixSurface), k)
    else if opcode == 0x19 then Found(f.holds(HasTail), k)
    else if opcode == 0x1a then Found(f.holds(HasNoTail), k)
    else Missing
  }

  function MorphemeTruth(p: seq<byte>, k: nat, opcode: byte, n: Names, f: Facts): Found<bool> {
    if opcode == 0x1b then Apply(NameList(p, k, n.morphemes), x => f.holds(HasTailSequence(x)))
    else if opcode == 0x1c then Apply(NameList(p, k, n.morphemes), x => f.holds(ContainsMorphemeSequence(x)))
    else if opcode == 0x1d then Apply(NameByWord(p, k, n.morphemes), x => f.holds(CurrentMorphemeIs(x)))
    else if opcode == 0x1e then Apply(NameByWord(p, k, n.morphemes), x => f.holds(PreviousMorphemeIs(x)))
    else if opcode == 0x21 then Apply(NameByWord(p, k, n.strings), x => f.holds(RootSurfaceIs(x)))
    else if opcode == 0x22 then Apply(NameList(p, k, n.strings), x => f.holds(RootSurfaceIsAny(x)))
    else if opcode == 0x2a then Apply(NameList(p, k, n.morphemes), x => f.holds(PreviousGroupContainsMorpheme(x)))
    else if opcode == 0x2b then Found(f.holds(NoSurfaceAfterDerivation), k)
    else if opcode == 0x2c then Apply(NameList(p, k, n.morphemes), x => f.holds(ContainsMorpheme(x)))
    else if opcode == 0x2d then Apply(NameList(p, k, n.morphemes), x => f.holds(PreviousMorphemeIsAny(x)))
    else if opcode == 0x2e then Apply(NameList(p, k, n.morphemes), x => f.holds(CurrentMorphemeIsAny(x)))
    else Missing
  }

  function StateTruth(p: seq<byte>, k: nat, opcode: byte, n: Names, f: Facts): Found<bool> {
    if opcode == 0x1f then Apply(NameByWord(p, k, n.states), x => f.holds(PreviousStateIs(x)))
    else if opcode == 0x20 then Apply(NameByWord(p, k, n.states), x => f.holds(PreviousStateIsNot(x)))
    else if opcode == 0x23 then Apply(NameByWord(p, k, n.states), x => f.holds(CurrentStateIs(x)))
    else if opcode == 0x24 then Apply(NameByWord(p, k, n.states), x => f.holds(CurrentStateIsNot(x)))
    else if opcode == 0x25 then Apply(NameByWord(p, k, n.states), x => f.holds(LastDerivationIs(x)))
    else if opcode == 0x26 then Found(f.holds(HasDerivation), k)
    else if opcode == 0x27 then Apply(NameList(p, k, n.states), x => f.holds(LastDerivationIsAny(x)))
    else if opcode == 0x28 then Apply(NameList(p, k, n.states), x => f.holds(CurrentGroupContainsAny(x)))
    else if opcode == 0x29 then Apply(NameList(p, k, n.states), x => f.holds(PreviousGroupContains(x)))
    else if opcode == 0x2f then Apply(NameList(p, k, n.states), x => f.holds(PreviousStateIsAny(x)))
    else Missing
  }

  /** One instruction of the machine: the stack of truth values after it. */
  function Instruct(p: seq<byte>, k: nat, stack: seq<bool>, n: Names, f: Facts): Found<seq<bool>>
    requires k < |p|
  {
    if p[k] == 0x03 then
      if stack == [] then Missing else Found(stack[..|stack| - 1] + [!stack[|stack| - 1]], k + 1)
    else if p[k] in {0x01, 0x02} then
      if k + 3 > |p| then Missing
      else
        var count := PairAt(p, k + 1);
        if count < 2 || |stack| < count then Missing
        else
          var below, last := stack[..|stack| - count], stack[|stack| - count..];
          Found(below + [if p[k] == 0x01 then (forall b | b in last :: b) else (exists b | b in last :: b)], k + 3)
    else
      var leaf := LeafTruth(p, k + 1, p[k], n, f);
      if leaf.Missing? then Missing else Found(stack + [leaf.value], leaf.next)
  }

  /** What a program evaluates to; it must leave one truth value. */
  function Evaluate(p: seq<byte>, k: nat, stack: seq<bool>, n: Names, f: Facts): Option<bool>
    decreases |p| - k
  {
    if k >= |p| then if |stack| == 1 then Some(stack[0]) else None
    else
      var step := Instruct(p, k, stack, n, f);
      if step.Missing? || step.next <= k then None else Evaluate(p, step.next, step.value, n, f)
  }

  // ------------------------------------------------------------ operands keep their names

  lemma WordIs(p: seq<byte>, k: nat, value: nat)
    requires value <= U32_MAX && Embedded(p, k, U32(value))
    ensures WordAt(p, k) == value
  {
    var code := p[k..k + 4];
    assert code == U32(value);
    assert p[k] == code[0] && p[k + 1] == code[1] && p[k + 2] == code[2] && p[k + 3] == code[3];
    assert value == value % 256 + 256 * (value / 256);
    assert value / 256 == value / 256 % 256 + 256 * (value / 65536);
    assert value / 65536 == value / 65536 % 256 + 256 * (value / 16777216);
  }

  lemma CountIs(p: seq<byte>, k: nat, value: nat)
    requires value <= U16_MAX && Embedded(p, k, U16(value))
    ensures PairAt(p, k) == value
  {
    var code := p[k..k + 2];
    assert p[k] == code[0] && p[k + 1] == code[1];
  }

  lemma {:induction false} LastName(table: seq<string>, names: seq<string>)
    requires names != [] && Positions(table, names).Some?
    ensures Positions(table, names[..|names| - 1]).Some? && Position(table, names[|names| - 1]).Some?
    ensures Positions(table, names).value
         == Positions(table, names[..|names| - 1]).value + [Position(table, names[|names| - 1]).value]
  {
    hide Position;
  }

  lemma {:induction false} NameRead(p: seq<byte>, k: nat, table: seq<string>, names: seq<string>, last: string, id: nat)
    requires NamesByWords(p, k, |names|, table) == Some(names)
    requires |table| <= U32_MAX && Position(table, last) == Some(id)
    requires Embedded(p, k + 4 * |names|, U32(id))
    ensures NamesByWords(p, k, |names| + 1, table) == Some(names + [last])
  {
    hide U32, WordAt;
    WordIs(p, k + 4 * |names|, id);
  }

  lemma NoNames(p: seq<byte>, k: nat, table: seq<string>)
    ensures NamesByWords(p, k, 0, table) == Some([])
  {
  }

  lemma {:induction false} NamesAre(p: seq<byte>, k: nat, table: seq<string>, names: seq<string>)
    requires |table| <= U32_MAX && Positions(table, names).Some?
    requires Embedded(p, k, Words(Positions(table, names).value))
    ensures NamesByWords(p, k, |names|, table) == Some(names)
  {
    hide U32, Positions, Position, NamesByWords;
    if names == [] {
      NoNames(p, k, table);
    } else {
      var body, last := names[..|names| - 1], names[|names| - 1];
      LastName(table, names);
      var ids, id := Positions(table, body).value, Position(table, last).value;
      assert (ids + [id])[..|ids|] == ids;
      EmbeddedSplit(p, k, Words(ids), U32(id));
      NamesAre(p, k, table, body);
      NameRead(p, k, table, body, last, id);
      assert names == body + [last];
    }
  }

  lemma {:induction false} LastItem(table: seq<string>, items: seq<Option<string>>)
    requires items != [] && NullablePositions(table, items).Some?
    ensures NullablePositions(table, items[..|items| - 1]).Some? && NullablePosition(table, items[|items| - 1]).Some?
    ensures NullablePositions(table, items).value
         == NullablePositions(table, items[..|items| - 1]).value + [NullablePosition(table, items[|items| - 1]).value]
  {
    hide NullablePosition;
  }

  lemma {:induction false} ItemRead(p: seq<byte>, k: nat, table: seq<string>, items: seq<Option<string>>, last: Option<string>, id: nat)
    requires ItemsByWords(p, k, |items|, table) == Some(items)
    requires |table| <= U32_MAX && NullablePosition(table, last) == Some(id) && id <= U32_MAX
    requires Embedded(p, k + 4 * |items|, U32(id))
    ensures ItemsByWords(p, k, |items| + 1, table) == Some(items + [last])
  {
    hide U32, WordAt;
    WordIs(p, k + 4 * |items|, id);
  }

  lemma {:induction false} ItemsAre(p: seq<byte>, k: nat, table: seq<string>, items: seq<Option<string>>)
    requires |table| <= U32_MAX && NullablePositions(table, items).Some?
    requires forall i: nat | i < |items| :: NullablePositions(table, items).value[i] <= U32_MAX
    requires Embedded(p, k, Words(NullablePositions(table, items).value))
    ensures ItemsByWords(p, k, |items|, table) == Some(items)
  {
    hide U32, NullablePositions, NullablePosition, ItemsByWords;
    if items == [] {
      assert ItemsByWords(p, k, 0, table) == Some([]) by {
        NoItems(p, k, table);
      }
    } else {
      var body, last := items[..|items| - 1], items[|items| - 1];
      LastItem(table, items);
      var ids, id := NullablePositions(table, body).value, NullablePosition(table, last).value;
      assert (ids + [id])[..|ids|] == ids;
      assert id == (ids + [id])[|ids|];
      assert forall i: nat | i < |ids| :: ids[i] == (ids + [id])[i];
      EmbeddedSplit(p, k, Words(ids), U32(id));
      ItemsAre(p, k, table, body);
      ItemRead(p, k, table, body, last, id);
      assert items == body + [last];
    }
  }

  lemma NoItems(p: seq<byte>, k: nat, table: seq<string>)
    ensures ItemsByWords(p, k, 0, table) == Some([])
  {
  }

  lemma BitsAgree(word: nat, i: nat)
    ensures BitSet(word, i) <==> HasBit(word, i)
    decreases i
  {
    if i > 0 {
      BitsAgree(word / 2, i - 1);
    }
  }

  lemma {:induction false} AttributesAre(n: Names, attributes: seq<string>)
    requires Bits(n.rootAttributes, attributes).Some?
    ensures AttributeSet(Bits(n.rootAttributes, attributes).value, n.rootAttributes) == set a | a in attributes
  {
    hide Bits, HasBit, BitSet;
    var table, word := n.rootAttributes, Bits(n.rootAttributes, attributes).value;
    forall a | a in AttributeSet(word, table)
      ensures a in attributes
    {
      var j: nat :| j < |table| && BitSet(word, j) && table[j] == a;
      BitsAgree(word, j);
      BitsAreSet(table, attributes, j);
      var i: nat :| i < |attributes| && Position(table, attributes[i]) == Some(j);
      assert attributes[i] == a;
    }
    forall a | a in attributes
      ensures a in AttributeSet(word, table)
    {
      var i: nat :| i < |attributes| && attributes[i] == a;
      var j := Position(table, attributes[i]).value;
      BitsAreSet(table, attributes, j);
      BitsAgree(word, j);
    }
  }

  // ------------------------------------------------------------ leaves

  /** The leaf at a place has the opcode, and reading behind it ends where its encoding does. */
  predicate LeafSits(p: seq<byte>, k: nat, t: Tree, opcode: byte) {
    t.Leaf? && OperandEncodable(t.operand) && Embedded(p, k, Encode(t)) && t.opcode == opcode
  }

  lemma LeafStarts(p: seq<byte>, k: nat, t: Tree, opcode: byte)
    requires LeafSits(p, k, t, opcode)
    ensures k < |p| && p[k] == opcode && Embedded(p, k + 1, EncodeOperand(t.operand))
    ensures |Encode(t)| == 1 + |EncodeOperand(t.operand)|
  {
    hide EncodeOperand;
    EmbeddedSplit(p, k, [opcode], EncodeOperand(t.operand));
    assert p[k..k + 1] == [p[k]];
  }

  lemma NamedReads(p: seq<byte>, k: nat, t: Tree, opcode: byte, table: seq<string>, name: string)
    requires Named(opcode, table, name) == Some(t)
    requires Encodable(t) && Embedded(p, k, Encode(t))
    ensures k < |p| && p[k] == opcode
    ensures NameByByte(p, k + 1, table) == Found(name, k + |Encode(t)|)
  {
    LeafStarts(p, k, t, opcode);
    assert p[k + 1..k + 2] == [p[k + 1]];
  }

  lemma SingleReads(p: seq<byte>, k: nat, t: Tree, opcode: byte, table: seq<string>, name: string)
    requires Single(opcode, table, name) == Some(t)
    requires Encodable(t) && Embedded(p, k, Encode(t))
    ensures k < |p| && p[k] == opcode
    ensures NameByWord(p, k + 1, table) == Found(name, k + |Encode(t)|)
  {
    hide WordAt, U32;
    LeafStarts(p, k, t, opcode);
    WordIs(p, k + 1, t.operand.word);
  }

  lemma ManyReads(p: seq<byte>, k: nat, t: Tree, opcode: byte, table: seq<string>, names: seq<string>)
    requires Many(opcode, table, names) == Some(t) && |table| <= U32_MAX
    requires Encodable(t) && Embedded(p, k, Encode(t))
    ensures k < |p| && p[k] == opcode
    ensures NameList(p, k + 1, table) == Found(names, k + |Encode(t)|)
  {
    hide Words, U16, PairAt, NamesByWords, Positions;
    LeafStarts(p, k, t, opcode);
    var ids := t.operand.ids;
    EmbeddedSplit(p, k + 1, U16(|ids|), Words(ids));
    CountIs(p, k + 1, |ids|);
    NamesAre(p, k + 3, table, names);
  }

  lemma DictionarySetReads(p: seq<byte>, k: nat, t: Tree, opcode: byte, table: seq<string>, items: seq<Option<string>>)
    requires DictionarySet(opcode, table, items) == Some(t) && |table| <= U32_MAX
    requires Encodable(t) && Embedded(p, k, Encode(t))
    ensures k < |p| && p[k] == opcode
    ensures ItemList(p, k + 1, table) == Found(items, k + |Encode(t)|)
  {
    hide Words, U16, PairAt, ItemsByWords, NullablePositions;
    LeafStarts(p, k, t, opcode);
    var ids := t.operand.ids;
    EmbeddedSplit(p, k + 1, U16(|ids|), Words(ids));
    CountIs(p, k + 1, |ids|);
    ItemsAre(p, k + 3, table, items);
  }

  lemma BareReads(p: seq<byte>, k: nat, opcode: byte)
    requires Embedded(p, k, Encode(Leaf(opcode, NoOperand)))
    ensures k < |p| && p[k] == opcode && |Encode(Leaf(opcode, NoOperand))| == 1
  {
    LeafStarts(p, k, Leaf(opcode, NoOperand), opcode);
  }

  lemma AttributesRead(p: seq<byte>, k: nat, t: Tree, n: Names, attributes: seq<string>)
    requires Attributes(0x11, n.rootAttributes, attributes) == Some(t)
    requires Encodable(t) && Embedded(p, k, Encode(t))
    ensures k < |p| && p[k] == 0x11 && |Encode(t)| == 5 && k + 5 <= |p|
    ensures AttributeSet(WordAt(p, k + 1), n.rootAttributes) == set a | a in attributes
  {
    hide WordAt, U32, Bits;
    LeafStarts(p, k, t, 0x11);
    WordIs(p, k + 1, t.operand.word);
    AttributesAre(n, attributes);
  }

  /** A leaf instruction has the truth of its condition. */
  predicate LeafMeans(p: seq<byte>, k: nat, t: Tree, c: Condition, n: Names, f: Facts)
    requires Encodable(t)
  {
    k < |p| && p[k] !in {0x01, 0x02, 0x03} && LeafTruth(p, k + 1, p[k], n, f) == Found(Holds(c, f), k + |Encode(t)|)
  }

  lemma AttributesMean(p: seq<byte>, k: nat, t: Tree, c: Condition, n: Names, f: Facts)
    requires n.Valid() && c.HasAnyRootAttribute? && ResolveLeaf(c, n) == Some(t)
    requires Encodable(t) && Embedded(p, k, Encode(t))
    ensures LeafMeans(p, k, t, c, n, f)
  {
    hide Attributes, AttributeSet, WordAt, Encode;
    AttributesRead(p, k, t, n, c.attributes);
  }

  lemma FeatureMeans(p: seq<byte>, k: nat, t: Tree, c: Condition, n: Names, f: Facts)
    requires n.Valid() && IsFeature(c) && !c.HasAnyRootAttribute? && ResolveLeaf(c, n) == Some(t)
    requires Encodable(t) && Embedded(p, k, Encode(t))
    ensures LeafMeans(p, k, t, c, n, f)
  {
    hide Named, Single, Many, DictionarySet, Attributes, NameByByte, NameByWord, NameList, ItemList, Encode, AttributeSet, WordAt,
         Embedded, Encodable;
    match c
    case HasRootAttribute(x) => NamedReads(p, k, t, 0x10, n.rootAttributes, x);
    case HasPhoneticAttribute(x) => NamedReads(p, k, t, 0x12, n.phoneticAttributes, x);
    case DictionaryItemIs(x) => SingleReads(p, k, t, 0x13, n.dictionary, x);
    case RootPrimaryPosIs(x) => NamedReads(p, k, t, 0x14, n.primaryPos, x);
    case SecondaryPosIs(x) => NamedReads(p, k, t, 0x15, n.secondaryPos, x);
    case DictionaryItemIsAny(x) => DictionarySetReads(p, k, t, 0x16, n.dictionary, x);
    case DictionaryItemIsNone(x) => DictionarySetReads(p, k, t, 0x17, n.dictionary, x);
    case HasAnySuffixSurface => BareReads(p, k, 0x18);
    case HasTail => BareReads(p, k, 0x19);
    case HasNoTail => BareReads(p, k, 0x1a);
  }

  lemma MorphemeMeans(p: seq<byte>, k: nat, t: Tree, c: Condition, n: Names, f: Facts)
    requires n.Valid() && IsLeaf(c) && !IsFeature(c) && !IsState(c) && ResolveLeaf(c, n) == Some(t)
    requires Encodable(t) && Embedded(p, k, Encode(t))
    ensures LeafMeans(p, k, t, c, n, f)
  {
    hide Named, Single, Many, DictionarySet, Attributes, NameByByte, NameByWord, NameList, ItemList, Encode, AttributeSet, WordAt,
         Embedded, Encodable;
    match c
    case HasTailSequence(x) => ManyReads(p, k, t, 0x1b, n.morphemes, x);
    case ContainsMorphemeSequence(x) => ManyReads(p, k, t, 0x1c, n.morphemes, x);
    case CurrentMorphemeIs(x) => SingleReads(p, k, t, 0x1d, n.morphemes, x);
    case PreviousMorphemeIs(x) => SingleReads(p, k, t, 0x1e, n.morphemes, x);
    case RootSurfaceIs(x) => SingleReads(p, k, t, 0x21, n.strings, x);
    case RootSurfaceIsAny(x) => ManyReads(p, k, t, 0x22, n.strings, x);
    case PreviousGroupContainsMorpheme(x) => ManyReads(p, k, t, 0x2a, n.morphemes, x);
    case NoSurfaceAfterDerivation => BareReads(p, k, 0x2b);
    case ContainsMorpheme(x) => ManyReads(p, k, t, 0x2c, n.morphemes, x);
    case PreviousMorphemeIsAny(x) => ManyReads(p, k, t, 0x2d, n.morphemes, x);
    case CurrentMorphemeIsAny(x) => ManyReads(p, k, t, 0x2e, n.morphemes, x);
  }

  lemma StateMeans(p: seq<byte>, k: nat, t: Tree, c: Condition, n: Names, f: Facts)
    requires n.Valid() && IsState(c) && ResolveLeaf(c, n) == Some(t)
    requires Encodable(t) && Embedded(p, k, Encode(t))
    ensures LeafMeans(p, k, t, c, n, f)
  {
    hide Named, Single, Many, DictionarySet, Attributes, NameByByte, NameByWord, NameList, ItemList, Encode, AttributeSet, WordAt,
         Embedded, Encodable;
    match c
    case PreviousStateIs(x) => SingleReads(p, k, t, 0x1f, n.states, x);
    case PreviousStateIsNot(x) => SingleReads(p, k, t, 0x20, n.states, x);
    case CurrentStateIs(x) => SingleReads(p, k, t, 0x23, n.states, x);
    case CurrentStateIsNot(x) => SingleReads(p, k, t, 0x24, n.states, x);
    case LastDerivationIs(x) => SingleReads(p, k, t, 0x25, n.states, x);
    case HasDerivation => BareReads(p, k, 0x26);
    case LastDerivationIsAny(x) => ManyReads(p, k, t, 0x27, n.states, x);
    case CurrentGroupContainsAny(x) => ManyReads(p, k, t, 0x28, n.states, x);
    case PreviousGroupContains(x) => ManyReads(p, k, t, 0x29, n.states, x);
    case PreviousStateIsAny(x) => ManyReads(p, k, t, 0x2f, n.states, x);
  }

  // ------------------------------------------------------------ whole conditions

  ghost function Truths(cs: seq<Condition>, f: Facts): (bs: seq<bool>)
    ensures |bs| == |cs|
  {
    seq(|cs|, i requires 0 <= i < |cs| => Holds(cs[i], f))
  }

  lemma {:induction false} LeafEvaluates(p: seq<byte>, k: nat, t: Tree, c: Condition, n: Names, f: Facts, stack: seq<bool>)
    requires n.Valid() && IsLeaf(c) && ResolveLeaf(c, n) == Some(t)
    requires Encodable(t) && Embedded(p, k, Encode(t))
    ensures Evaluate(p, k, stack, n, f) == Evaluate(p, k + |Encode(t)|, stack + [Holds(c, f)], n, f)
  {
    hide Holds, LeafTruth, ResolveLeaf;
    if c.HasAnyRootAttribute? {
      AttributesMean(p, k, t, c, n, f);
    } else if IsFeature(c) {
      FeatureMeans(p, k, t, c, n, f);
    } else if IsState(c) {
      StateMeans(p, k, t, c, n, f);
    } else {
      MorphemeMeans(p, k, t, c, n, f);
    }
  }

  lemma {:induction false} NotEvaluates(p: seq<byte>, k: nat, stack: seq<bool>, b: bool, n: Names, f: Facts)
    requires Embedded(p, k, [NOT_CODE])
    ensures Evaluate(p, k, stack + [b], n, f) == Evaluate(p, k + 1, stack + [!b], n, f)
  {
    assert p[k..k + 1] == [p[k]];
    assert (stack + [b])[..|stack|] == stack;
  }

  lemma {:induction false} CombinedEvaluates(p: seq<byte>, k: nat, stack: seq<bool>, bs: seq<bool>, all: bool, n: Names, f: Facts)
    requires 2 <= |bs| <= U16_MAX
    requires Embedded(p, k, [if all then AND_CODE else OR_CODE] + U16(|bs|))
    ensures Evaluate(p, k, stack + bs, n, f)
         == Evaluate(p, k + 3, stack + [if all then (forall b | b in bs :: b) else (exists b | b in bs :: b)], n, f)
  {
    hide U16;
    var opcode := if all then AND_CODE else OR_CODE;
    EmbeddedSplit(p, k, [opcode], U16(|bs|));
    assert p[k..k + 1] == [p[k]];
    CountIs(p, k + 1, |bs|);
    assert (stack + bs)[..|stack|] == stack && (stack + bs)[|stack|..] == bs;
  }

  lemma TruthsDecide(cs: seq<Condition>, f: Facts)
    ensures (forall b | b in Truths(cs, f) :: b) <==> (forall i: nat | i < |cs| :: Holds(cs[i], f))
    ensures (exists b | b in Truths(cs, f) :: b) <==> (exists i: nat | i < |cs| :: Holds(cs[i], f))
  {
    hide Holds;
    var bs := Truths(cs, f);
    assert forall i: nat | i < |cs| :: bs[i] in bs && bs[i] == Holds(cs[i], f);
  }

  lemma {:induction false} ConditionEvaluates(p: seq<byte>, k: nat, t: Tree, c: Condition, n: Names, f: Facts, stack: seq<bool>)
    requires n.Valid() && Shaped(c) && Resolve(c, n) == Some(t)
    requires Encodable(t) && Embedded(p, k, Encode(t))
    ensures Evaluate(p, k, stack, n, f) == Evaluate(p, k + |Encode(t)|, stack + [Holds(c, f)], n, f)
    decreases c, 1
  {
    hide Evaluate, LeafTruth, ResolveLeaf, ResolveAll, EncodeAll;
    if c.AllOf? || c.AnyOf? {
      CombinationEvaluates(p, k, t, c, n, f, stack);
    } else if c.Negation? {
      EmbeddedSplit(p, k, Encode(t.child), [NOT_CODE]);
      ConditionEvaluates(p, k, t.child, c.child, n, f, stack);
      NotEvaluates(p, k + |Encode(t.child)|, stack, Holds(c.child, f), n, f);
    } else {
      LeafEvaluates(p, k, t, c, n, f, stack);
    }
  }

  lemma {:induction false} CombinationEvaluates(p: seq<byte>, k: nat, t: Tree, c: Condition, n: Names, f: Facts, stack: seq<bool>)
    requires n.Valid() && Shaped(c) && (c.AllOf? || c.AnyOf?) && Resolve(c, n) == Some(t)
    requires Encodable(t) && Embedded(p, k, Encode(t))
    ensures Evaluate(p, k, stack, n, f) == Evaluate(p, k + |Encode(t)|, stack + [Holds(c, f)], n, f)
    decreases c, 0
  {
    hide Evaluate, LeafTruth, ResolveLeaf, ResolveAll, EncodeAll, U16, Truths;
    var cs, ts := c.children, t.children;
    var tail := [if c.AllOf? then AND_CODE else OR_CODE] + U16(|cs|);
    assert Encode(t) == EncodeAll(ts) + tail;
    EmbeddedSplit(p, k, EncodeAll(ts), tail);
    AllEvaluate(p, k, ts, cs, n, f, stack);
    TruthsDecide(cs, f);
    CombinedEvaluates(p, k + |EncodeAll(ts)|, stack, Truths(cs, f), c.AllOf?, n, f);
  }

  lemma ResolvedLast(cs: seq<Condition>, n: Names, ts: seq<Tree>)
    requires cs != [] && ResolveAll(cs, n) == Some(ts)
    ensures |ts| == |cs| && ResolveAll(cs[..|cs| - 1], n) == Some(ts[..|ts| - 1])
    ensures Resolve(cs[|cs| - 1], n) == Some(ts[|ts| - 1])
  {
    hide Resolve;
  }

  lemma EncodedLast(ts: seq<Tree>)
    requires ts != [] && AllEncodable(ts)
    ensures AllEncodable(ts[..|ts| - 1]) && Encodable(ts[|ts| - 1])
    ensures EncodeAll(ts) == EncodeAll(ts[..|ts| - 1]) + Encode(ts[|ts| - 1])
  {
    hide Encodable, Encode;
  }

  lemma TruthsLast(cs: seq<Condition>, f: Facts)
    requires cs != []
    ensures Truths(cs, f) == Truths(cs[..|cs| - 1], f) + [Holds(cs[|cs| - 1], f)]
  {
    hide Holds;
  }

  lemma {:induction false} NoneEvaluate(ts: seq<Tree>, cs: seq<Condition>, n: Names, f: Facts)
    requires cs == [] && ResolveAll(cs, n) == Some(ts)
    ensures AllEncodable(ts) && EncodeAll(ts) == [] && Truths(cs, f) == []
  {
  }

  lemma {:induction false} AllEvaluate(p: seq<byte>, k: nat, ts: seq<Tree>, cs: seq<Condition>, n: Names, f: Facts, stack: seq<bool>)
    requires n.Valid() && (forall i: nat | i < |cs| :: Shaped(cs[i])) && ResolveAll(cs, n) == Some(ts)
    requires AllEncodable(ts) && Embedded(p, k, EncodeAll(ts))
    ensures Evaluate(p, k, stack, n, f) == Evaluate(p, k + |EncodeAll(ts)|, stack + Truths(cs, f), n, f)
    decreases cs, 0
  {
    hide Evaluate, Resolve, ResolveAll, Holds, Shaped, Encode, Encodable, EncodeAll, AllEncodable, Truths;
    if cs == [] {
      NoneEvaluate(ts, cs, n, f);
      assert stack + Truths(cs, f) == stack;
    } else {
      var body, last := cs[..|cs| - 1], cs[|cs| - 1];
      var trees, tree := ts[..|ts| - 1], ts[|ts| - 1];
      ResolvedLast(cs, n, ts);
      EncodedLast(ts);
      TruthsLast(cs, f);
      EmbeddedSplit(p, k, EncodeAll(trees), Encode(tree));
      AllEvaluate(p, k, trees, body, n, f, stack);
      ConditionEvaluates(p, k + |EncodeAll(trees)|, tree, last, n, f, stack + Truths(body, f));
      assert stack + Truths(body, f) + [Holds(last, f)] == stack + Truths(cs, f);
    }
  }

  /** The program of a condition evaluates to the truth of the condition, whatever holds. */
  ghost predicate Means(program: seq<byte>, c: Condition, n: Names) {
    forall f: Facts :: Evaluate(program, 0, [], n, f) == Some(Holds(c, f))
  }

  lemma {:induction false} EncodingMeans(c: Condition, n: Names, t: Tree)
    requires n.Valid() && Shaped(c) && Resolve(c, n) == Some(t) && Encodable(t)
    ensures Means(Encode(t), c, n)
  {
    hide Evaluate, Resolve, Encode, Encodable, Holds, Shaped;
    forall f: Facts
      ensures Evaluate(Encode(t), 0, [], n, f) == Some(Holds(c, f))
    {
      var none: seq<bool> := [];
      ConditionEvaluates(Encode(t), 0, t, c, n, f, none);
      assert none + [Holds(c, f)] == [Holds(c, f)];
      AtEnd(Encode(t), [Holds(c, f)], n, f);
    }
  }

  lemma AtEnd(p: seq<byte>, stack: seq<bool>, n: Names, f: Facts)
    requires |stack| == 1
    ensures Evaluate(p, |p|, stack, n, f) == Some(stack[0])
  {
  }

  lemma {:induction false} ValidIsShaped(c: Condition, n: Names)
    requires Valid(c, n)
    ensures Shaped(c)
  {
    if c.AllOf? || c.AnyOf? {
      forall i: nat | i < |c.children|
        ensures Shaped(c.children[i])
      {
        ValidIsShaped(c.children[i], n);
      }
    } else if c.Negation? {
      ValidIsShaped(c.child, n);
    }
  }
}
