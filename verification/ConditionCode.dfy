/** The bytecode of compiled conditions: condition trees over table positions, their postfix
    encoding and the parser that the program validator performs. */
module ConditionCode {
  import opened Wrappers
  import opened Bytes

  /** The marker for "no dictionary item". */
  const NONE_ID: int := 0xFFFF_FFFF

  const AND_CODE: byte := 0x01
  const OR_CODE: byte := 0x02
  const NOT_CODE: byte := 0x03

  const ROOT_ATTRIBUTE_COUNT := 29
  const ROOT_ATTRIBUTE_LIMIT := 0x2000_0000
  const PHONETIC_ATTRIBUTE_COUNT := 18
  const PRIMARY_POS_COUNT := 14
  const SECONDARY_POS_COUNT := 32

  /** The sizes of the tables that a program refers to. */
  datatype Limits = Limits(morphemes: nat, dictionary: nat, states: nat, strings: nat) {
    predicate Valid() {
      morphemes <= U32_MAX && dictionary <= U32_MAX && states <= U32_MAX && strings <= U32_MAX
    }
  }

  datatype Operand = NoOperand | Small(value: byte) | Word(word: nat) | List(ids: seq<nat>)

  datatype Shape = Bare | SmallBelow(limit: nat) | WordBelow(limit: nat) | ListBelow(limit: nat) | NullableBelow(limit: nat)

  datatype Tree =
    | And(children: seq<Tree>)
    | Or(children: seq<Tree>)
    | Not(child: Tree)
    | Leaf(opcode: byte, operand: Operand)

  /** What must follow a leaf opcode; `None` for every byte that is no leaf opcode. */
  function ShapeOf(opcode: byte, l: Limits): Option<Shape> {
    if opcode == 0x10 then Some(SmallBelow(ROOT_ATTRIBUTE_COUNT))
    else if opcode == 0x11 then Some(WordBelow(ROOT_ATTRIBUTE_LIMIT))
    else if opcode == 0x12 then Some(SmallBelow(PHONETIC_ATTRIBUTE_COUNT))
    else if opcode == 0x13 then Some(WordBelow(l.dictionary))
    else if opcode == 0x14 then Some(SmallBelow(PRIMARY_POS_COUNT))
    else if opcode == 0x15 then Some(SmallBelow(SECONDARY_POS_COUNT))
    else if opcode in {0x16, 0x17} then Some(NullableBelow(l.dictionary))
    else if opcode in {0x18, 0x19, 0x1a, 0x26, 0x2b} then Some(Bare)
    else if opcode in {0x1b, 0x1c, 0x2a, 0x2c, 0x2d, 0x2e} then Some(ListBelow(l.morphemes))
    else if opcode in {0x1d, 0x1e} then Some(WordBelow(l.morphemes))
    else if opcode in {0x1f, 0x20, 0x23, 0x24, 0x25} then Some(WordBelow(l.states))
    else if opcode == 0x21 then Some(WordBelow(l.strings))
    else if opcode == 0x22 then Some(ListBelow(l.strings))
    else if opcode in {0x27, 0x28, 0x29, 0x2f} then Some(ListBelow(l.states))
    else None
  }

  /** A nullable list is strictly sorted and the marker may only come last. */
  predicate NullableOrder(first: nat, second: nat) {
    first != NONE_ID && (second == NONE_ID || first < second)
  }

  predicate NullableSorted(ids: seq<nat>, limit: nat) {
    && (forall i: nat | i < |ids| :: ids[i] < limit || ids[i] == NONE_ID)
    && (forall i: nat | 0 < i < |ids| :: NullableOrder(ids[i - 1], ids[i]))
  }

  predicate Fits(shape: Shape, operand: Operand) {
    match shape
    case Bare => operand.NoOperand?
    case SmallBelow(limit) => operand.Small? && operand.value < limit
    case WordBelow(limit) => operand.Word? && operand.word < limit
    case ListBelow(limit) =>
      operand.List? && |operand.ids| <= U16_MAX && forall i: nat | i < |operand.ids| :: operand.ids[i] < limit
    case NullableBelow(limit) =>
      operand.List? && |operand.ids| <= U16_MAX && NullableSorted(operand.ids, limit)
  }

  /** The trees that an accepted program may denote. */
  predicate InRange(t: Tree, l: Limits) {
    match t
    case And(children) => 2 <= |children| <= U16_MAX && AllInRange(children, l)
    case Or(children) => 2 <= |children| <= U16_MAX && AllInRange(children, l)
    case Not(child) => InRange(child, l)
    case Leaf(opcode, operand) =>
      var shape := ShapeOf(opcode, l);
      shape.Some? && Fits(shape.value, operand)
  }

  predicate AllInRange(ts: seq<Tree>, l: Limits) {
    forall i: nat | i < |ts| :: InRange(ts[i], l)
  }

  predicate OperandEncodable(operand: Operand) {
    match operand
    case Word(word) => word <= U32_MAX
    case List(ids) => |ids| <= U16_MAX && forall i: nat | i < |ids| :: ids[i] <= U32_MAX
    case _ => true
  }

  /** Whether every count of the tree fits its 16-bit field and every word its 32-bit field. */
  predicate Encodable(t: Tree) {
    match t
    case And(children) => |children| <= U16_MAX && AllEncodable(children)
    case Or(children) => |children| <= U16_MAX && AllEncodable(children)
    case Not(child) => Encodable(child)
    case Leaf(_, operand) => OperandEncodable(operand)
  }

  predicate AllEncodable(ts: seq<Tree>) {
    forall i: nat | i < |ts| :: Encodable(ts[i])
  }

  lemma FitsEncodable(opcode: byte, operand: Operand, l: Limits)
    requires l.Valid()
    requires ShapeOf(opcode, l).Some? && Fits(ShapeOf(opcode, l).value, operand)
    ensures OperandEncodable(operand)
  {
    var shape := ShapeOf(opcode, l).value;
    if shape.NullableBelow? {
      assert forall i: nat | i < |operand.ids| :: operand.ids[i] <= U32_MAX;
    }
  }

  function EncodeOperand(operand: Operand): seq<byte>
    requires OperandEncodable(operand)
  {
    match operand
    case NoOperand => []
    case Small(value) => [value]
    case Word(word) => U32(word)
    case List(ids) => U16(|ids|) + Words(ids)
  }

  /** The postfix encoding of a tree: its children, its opcode, its arity or operand. */
  function Encode(t: Tree): (code: seq<byte>)
    requires Encodable(t)
    ensures |code| > 0
  {
    match t
    case And(children) => EncodeAll(children) + [AND_CODE] + U16(|children|)
    case Or(children) => EncodeAll(children) + [OR_CODE] + U16(|children|)
    case Not(child) => Encode(child) + [NOT_CODE]
    case Leaf(opcode, operand) => [opcode] + EncodeOperand(operand)
  }

  function EncodeAll(ts: seq<Tree>): seq<byte>
    requires AllEncodable(ts)
  {
    if ts == [] then [] else EncodeAll(ts[..|ts| - 1]) + Encode(ts[|ts| - 1])
  }

  /** How many conditions the upstream representation counts in a tree. */
  function Count(t: Tree): nat {
    match t
    case And(children) => CountAll(children)
    case Or(children) => CountAll(children)
    case _ => 1
  }

  function CountAll(ts: seq<Tree>): nat {
    if ts == [] then 0 else CountAll(ts[..|ts| - 1]) + Count(ts[|ts| - 1])
  }

  function NoneCount(ids: seq<nat>): nat {
    if ids == [] then 0
    else NoneCount(ids[..|ids| - 1]) + if ids[|ids| - 1] == NONE_ID then 1 else 0
  }

  /** The null sentinels of a tree, which only the two dictionary set conditions may hold. */
  function Nulls(t: Tree): nat {
    match t
    case And(children) => NullsAll(children)
    case Or(children) => NullsAll(children)
    case Not(child) => Nulls(child)
    case Leaf(opcode, operand) => if opcode in {0x16, 0x17} && operand.List? then NoneCount(operand.ids) else 0
  }

  function NullsAll(ts: seq<Tree>): nat {
    if ts == [] then 0 else NullsAll(ts[..|ts| - 1]) + Nulls(ts[|ts| - 1])
  }

  // ---------------------------------------------------------------- the parser

  /** Where a step leads: the trees on the stack and the next position. */
  datatype Parsed = Parsed(forest: seq<Tree>, position: nat)

  /** The operand found at a position, if it is complete and in range. */
  function ReadOperand(program: seq<byte>, position: nat, shape: Shape): (found: Option<(Operand, nat)>)
    requires position <= |program|
    ensures found.Some? ==> position <= found.value.1 <= |program|
  {
    var operand: Option<(Operand, nat)> :=
      match shape
      case Bare => Some((NoOperand, position))
      case SmallBelow(_) =>
        if position < |program| then Some((Small(program[position]), position + 1)) else None
      case WordBelow(_) =>
        if position + 4 <= |program| then Some((Word(ReadU32(program, position)), position + 4)) else None
      case _ =>
        if position + 2 <= |program| then
          var count := ReadU16(program, position);
          if position + 2 + 4 * count <= |program| then
            Some((List(ReadWords(program, position + 2, count)), position + 2 + 4 * count))
          else None
        else None;
    if operand.Some? && Fits(shape, operand.value.0) then operand else None
  }

  /** The operand of a leaf instruction, `None` if the validator must refuse it. */
  function LeafOperand(program: seq<byte>, position: nat, opcode: byte, l: Limits): (found: Option<(Operand, nat)>)
    requires position <= |program|
    ensures found.Some? ==> position <= found.value.1 <= |program|
  {
    var shape := ShapeOf(opcode, l);
    if shape.None? then None else ReadOperand(program, position, shape.value)
  }

  /** One instruction of the stack machine, started behind its opcode. */
  function Instruction(program: seq<byte>, position: nat, opcode: byte, forest: seq<Tree>, l: Limits)
    : (next: Option<Parsed>)
    requires position <= |program|
    ensures next.Some? ==> position <= next.value.position <= |program|
  {
    if opcode == AND_CODE || opcode == OR_CODE then
      if position + 2 > |program| then None
      else
        var count := ReadU16(program, position);
        if count < 2 || |forest| < count then None
        else
          var split := |forest| - count;
          var children := forest[split..];
          Some(Parsed(forest[..split] + [if opcode == AND_CODE then And(children) else Or(children)], position + 2))
    else if opcode == NOT_CODE then
      if forest == [] then None
      else Some(Parsed(forest[..|forest| - 1] + [Not(forest[|forest| - 1])], position))
    else
      var operand := LeafOperand(program, position, opcode, l);
      if operand.None? then None
      else Some(Parsed(forest + [Leaf(opcode, operand.value.0)], operand.value.1))
  }

  /** The forest a program leaves behind, `None` when an instruction is refused. */
  function Run(program: seq<byte>, position: nat, forest: seq<Tree>, l: Limits): Option<seq<Tree>>
    requires position <= |program|
    decreases |program| - position
  {
    if position == |program| then Some(forest)
    else
      var next := Instruction(program, position + 1, program[position], forest, l);
      if next.None? then None else Run(program, next.value.position, next.value.forest, l)
  }

  /** Reading what was written returns the operand and stops right behind it. */
  lemma OperandRoundTrip(program: seq<byte>, position: nat, shape: Shape, operand: Operand)
    requires OperandEncodable(operand) && Fits(shape, operand)
    requires Embedded(program, position, EncodeOperand(operand))
    ensures ReadOperand(program, position, shape) == Some((operand, position + |EncodeOperand(operand)|))
  {
    match operand
    case NoOperand =>
    case Small(value) => assert program[position..position + 1] == [program[position]];
    case Word(word) => ReadOfU32(program, position, word);
    case List(ids) => ListRoundTrip(program, position, ids);
  }

  lemma ListRoundTrip(program: seq<byte>, position: nat, ids: seq<nat>)
    requires OperandEncodable(List(ids))
    requires Embedded(program, position, EncodeOperand(List(ids)))
    ensures ReadU16(program, position) == |ids|
    ensures ReadWords(program, position + 2, |ids|) == ids
  {
    EmbeddedSplit(program, position, U16(|ids|), Words(ids));
    ReadOfU16(program, position, |ids|);
    WordsRead(program, position + 2, ids);
  }

  /** Whatever is read is the encoding of the operand returned. */
  lemma OperandSound(program: seq<byte>, position: nat, shape: Shape)
    requires position <= |program|
    requires ReadOperand(program, position, shape).Some?
    requires OperandEncodable(ReadOperand(program, position, shape).value.0)
    ensures var (operand, end) := ReadOperand(program, position, shape).value;
      Fits(shape, operand) && position <= end <= |program| && program[position..end] == EncodeOperand(operand)
  {
    var (operand, end) := ReadOperand(program, position, shape).value;
    match operand
    case NoOperand =>
    case Small(value) =>
    case Word(word) => ReadOfU32(program, position, word);
    case List(ids) => ListSound(program, position);
  }

  lemma ListSound(program: seq<byte>, position: nat)
    requires position + 2 <= |program|
    requires position + 2 + 4 * ReadU16(program, position) <= |program|
    ensures var count := ReadU16(program, position);
      program[position..position + 2 + 4 * count]
      == EncodeOperand(List(ReadWords(program, position + 2, count)))
  {
    var count := ReadU16(program, position);
    ReadOfU16(program, position, count);
    ReadWordsBack(program, position + 2, count);
    EmbeddedJoin(program, position, U16(count), Words(ReadWords(program, position + 2, count)));
  }

  // ------------------------------------------- every in-range tree is accepted

  lemma {:induction false} RunEncode(t: Tree, l: Limits, program: seq<byte>, position: nat, forest: seq<Tree>)
    requires l.Valid() && InRange(t, l) && Encodable(t)
    requires Embedded(program, position, Encode(t))
    ensures Run(program, position, forest, l) == Run(program, position + |Encode(t)|, forest + [t], l)
    decreases t, 1
  {
    hide Fits, ShapeOf, OperandEncodable, Run, Instruction;
    match t
    case Not(child) =>
      RunEncodeNot(child, l, program, position, forest);
    case Leaf(opcode, operand) =>
      RunLeaf(opcode, operand, l, program, position, forest);
    case _ =>
      RunEncodeCombined(t, l, program, position, forest);
  }

  lemma {:induction false} RunEncodeNot(child: Tree, l: Limits, program: seq<byte>, position: nat, forest: seq<Tree>)
    requires l.Valid() && InRange(child, l) && Encodable(child)
    requires Embedded(program, position, Encode(Not(child)))
    ensures Run(program, position, forest, l)
         == Run(program, position + |Encode(Not(child))|, forest + [Not(child)], l)
    decreases child, 2
  {
    hide Run, InRange, Encodable;
    EmbeddedSplit(program, position, Encode(child), [NOT_CODE]);
    RunEncode(child, l, program, position, forest);
    RunNot(child, l, program, position + |Encode(child)|, forest);
  }

  lemma {:induction false} RunEncodeCombined(t: Tree, l: Limits, program: seq<byte>, position: nat, forest: seq<Tree>)
    requires l.Valid() && (t.And? || t.Or?)
    requires AllInRange(t.children, l) && Encodable(t) && 2 <= |t.children| <= U16_MAX
    requires Embedded(program, position, Encode(t))
    ensures Run(program, position, forest, l) == Run(program, position + |Encode(t)|, forest + [t], l)
    decreases t, 0
  {
    hide Run, InRange, AllInRange, AllEncodable;
    var children := t.children;
    var opcode := if t.And? then AND_CODE else OR_CODE;
    assert Encode(t) == EncodeAll(children) + ([opcode] + U16(|children|));
    EmbeddedSplit(program, position, EncodeAll(children), [opcode] + U16(|children|));
    RunEncodeAll(children, l, program, position, forest);
    RunCombined(t, l, program, position + |EncodeAll(children)|, forest);
  }

  lemma {:induction false} RunEncodeAll(ts: seq<Tree>, l: Limits, program: seq<byte>, position: nat, forest: seq<Tree>)
    requires l.Valid() && AllInRange(ts, l) && AllEncodable(ts)
    requires Embedded(program, position, EncodeAll(ts))
    ensures Run(program, position, forest, l) == Run(program, position + |EncodeAll(ts)|, forest + ts, l)
    decreases ts, 0
  {
    hide Run, Instruction, InRange, Encodable, Encode;
    if ts == [] {
      assert forest + ts == forest;
    } else {
      var body, last := ts[..|ts| - 1], ts[|ts| - 1];
      EmbeddedSplit(program, position, EncodeAll(body), Encode(last));
      RunEncodeAll(body, l, program, position, forest);
      RunEncode(last, l, program, position + |EncodeAll(body)|, forest + body);
      assert forest + body + [last] == forest + ts;
    }
  }

  lemma {:induction false} RunNot(child: Tree, l: Limits, program: seq<byte>, position: nat, forest: seq<Tree>)
    requires Embedded(program, position, [NOT_CODE])
    ensures Run(program, position, forest + [child], l) == Run(program, position + 1, forest + [Not(child)], l)
  {
    assert program[position] == NOT_CODE;
    assert (forest + [child])[..|forest|] == forest;
  }

  lemma {:induction false} RunCombined(t: Tree, l: Limits, program: seq<byte>, position: nat, forest: seq<Tree>)
    requires t.And? || t.Or?
    requires 2 <= |t.children| <= U16_MAX
    requires Embedded(program, position, [if t.And? then AND_CODE else OR_CODE] + U16(|t.children|))
    ensures Run(program, position, forest + t.children, l) == Run(program, position + 3, forest + [t], l)
  {
    var opcode := if t.And? then AND_CODE else OR_CODE;
    EmbeddedSplit(program, position, [opcode], U16(|t.children|));
    assert program[position..position + 1] == [program[position]];
    ReadOfU16(program, position + 1, |t.children|);
    var stack := forest + t.children;
    assert stack[..|forest|] == forest && stack[|forest|..] == t.children;
  }

  lemma LeafOpcode(opcode: byte, l: Limits)
    requires ShapeOf(opcode, l).Some?
    ensures opcode !in {AND_CODE, OR_CODE, NOT_CODE} && 0x10 <= opcode <= 0x2f
  {
  }

  lemma RunLeaf(opcode: byte, operand: Operand, l: Limits, program: seq<byte>, position: nat, forest: seq<Tree>)
    requires InRange(Leaf(opcode, operand), l) && Encodable(Leaf(opcode, operand))
    requires Embedded(program, position, Encode(Leaf(opcode, operand)))
    ensures Run(program, position, forest, l)
         == Run(program, position + |Encode(Leaf(opcode, operand))|, forest + [Leaf(opcode, operand)], l)
  {
    hide ShapeOf, Fits, ReadOperand, EncodeOperand, OperandEncodable;
    LeafOpcode(opcode, l);
    EmbeddedSplit(program, position, [opcode], EncodeOperand(operand));
    assert program[position..position + 1] == [program[position]];
    OperandRoundTrip(program, position + 1, ShapeOf(opcode, l).value, operand);
  }

  // -------------------------------------------- every accepted program is a tree

  /** What one instruction does to a stack that spells the program read so far. */
  lemma InstructionSound(program: seq<byte>, position: nat, forest: seq<Tree>, l: Limits)
    requires l.Valid() && position < |program|
    requires AllInRange(forest, l) && AllEncodable(forest) && EncodeAll(forest) == program[..position]
    requires Instruction(program, position + 1, program[position], forest, l).Some?
    ensures var next := Instruction(program, position + 1, program[position], forest, l).value;
      && position < next.position <= |program|
      && AllInRange(next.forest, l) && AllEncodable(next.forest)
      && EncodeAll(next.forest) == program[..next.position]
  {
    hide ShapeOf, Fits, OperandEncodable, Encode, EncodeAll;
    var opcode := program[position];
    if opcode == AND_CODE || opcode == OR_CODE {
      CombinedSound(program, position, forest, l);
    } else if opcode == NOT_CODE {
      NotSound(program, position, forest, l);
    } else {
      LeafSound(program, position, forest, l);
    }
  }

  lemma {:induction false} EncodeAllPush(ts: seq<Tree>, t: Tree)
    requires AllEncodable(ts) && Encodable(t)
    ensures AllEncodable(ts + [t]) && EncodeAll(ts + [t]) == EncodeAll(ts) + Encode(t)
  {
    hide Encodable, Encode;
    assert (ts + [t])[..|ts|] == ts;
  }

  lemma NotSound(program: seq<byte>, position: nat, forest: seq<Tree>, l: Limits)
    requires l.Valid() && position < |program|
    requires AllInRange(forest, l) && AllEncodable(forest) && EncodeAll(forest) == program[..position]
    requires program[position] == NOT_CODE && forest != []
    ensures var next := forest[..|forest| - 1] + [Not(forest[|forest| - 1])];
      AllInRange(next, l) && AllEncodable(next) && EncodeAll(next) == program[..position + 1]
  {
    hide InRange, Encodable, Encode, EncodeAll;
    var body, last := forest[..|forest| - 1], forest[|forest| - 1];
    assert forest == body + [last];
    Negated(last, l);
    EncodeAllPush(body, last);
    EncodeAllPush(body, Not(last));
    assert program[..position + 1] == program[..position] + [NOT_CODE];
  }

  lemma {:induction false} Negated(t: Tree, l: Limits)
    requires InRange(t, l) && Encodable(t)
    ensures InRange(Not(t), l) && Encodable(Not(t)) && Encode(Not(t)) == Encode(t) + [NOT_CODE]
  {
  }

  lemma CombinedSound(program: seq<byte>, position: nat, forest: seq<Tree>, l: Limits)
    requires l.Valid() && position < |program|
    requires AllInRange(forest, l) && AllEncodable(forest) && EncodeAll(forest) == program[..position]
    requires program[position] == AND_CODE || program[position] == OR_CODE
    requires position + 3 <= |program|
    requires 2 <= ReadU16(program, position + 1) <= |forest|
    ensures var split := |forest| - ReadU16(program, position + 1);
      var combined := if program[position] == AND_CODE then And(forest[split..]) else Or(forest[split..]);
      var next := forest[..split] + [combined];
      AllInRange(next, l) && AllEncodable(next) && EncodeAll(next) == program[..position + 3]
  {
    hide InRange, Encodable, Encode, EncodeAll;
    var opcode := program[position];
    var count := ReadU16(program, position + 1);
    var split := |forest| - count;
    var body, children := forest[..split], forest[split..];
    var combined := if opcode == AND_CODE then And(children) else Or(children);
    Combined(combined, l);
    EncodeAllPush(body, combined);
    EncodeAllConcat(forest, split);
    ReadOfU16(program, position + 1, count);
    assert program[..position + 3] == program[..position] + ([opcode] + program[position + 1..position + 3]);
  }

  lemma {:induction false} Combined(t: Tree, l: Limits)
    requires t.And? || t.Or?
    requires 2 <= |t.children| <= U16_MAX && AllInRange(t.children, l) && AllEncodable(t.children)
    ensures InRange(t, l) && Encodable(t)
    ensures Encode(t) == EncodeAll(t.children) + ([if t.And? then AND_CODE else OR_CODE] + U16(|t.children|))
  {
  }

  lemma LeafSound(program: seq<byte>, position: nat, forest: seq<Tree>, l: Limits)
    requires l.Valid() && position < |program|
    requires AllInRange(forest, l) && AllEncodable(forest) && EncodeAll(forest) == program[..position]
    requires program[position] !in {AND_CODE, OR_CODE, NOT_CODE}
    requires Instruction(program, position + 1, program[position], forest, l).Some?
    ensures var next := Instruction(program, position + 1, program[position], forest, l).value;
      && position < next.position <= |program|
      && AllInRange(next.forest, l) && AllEncodable(next.forest)
      && EncodeAll(next.forest) == program[..next.position]
  {
    hide Fits, OperandEncodable;
    var opcode := program[position];
    var shape := ShapeOf(opcode, l).value;
    var (operand, end) := ReadOperand(program, position + 1, shape).value;
    FitsEncodable(opcode, operand, l);
    OperandSound(program, position + 1, shape);
    var next := forest + [Leaf(opcode, operand)];
    assert next[..|next| - 1] == forest;
    assert program[..end] == program[..position] + ([opcode] + program[position + 1..end]);
  }

  lemma {:induction false} EncodeAllConcat(ts: seq<Tree>, split: nat)
    requires AllEncodable(ts) && split <= |ts|
    ensures EncodeAll(ts) == EncodeAll(ts[..split]) + EncodeAll(ts[split..])
  {
    hide Encode, Encodable;
    if split == |ts| {
      assert ts[..split] == ts && ts[split..] == [];
    } else {
      var body := ts[..|ts| - 1];
      EncodeAllConcat(body, split);
      assert body[..split] == ts[..split];
      assert body[split..] == ts[split..][..|ts| - split - 1];
    }
  }

  lemma {:induction false} RunSound(program: seq<byte>, position: nat, forest: seq<Tree>, l: Limits)
    requires l.Valid() && position <= |program|
    requires AllInRange(forest, l) && AllEncodable(forest) && EncodeAll(forest) == program[..position]
    requires Run(program, position, forest, l).Some?
    ensures var result := Run(program, position, forest, l).value;
      AllInRange(result, l) && AllEncodable(result) && EncodeAll(result) == program
    decreases |program| - position
  {
    hide Instruction, EncodeAll, Encode, InRange, Encodable;
    if position < |program| {
      InstructionSound(program, position, forest, l);
      var next := Instruction(program, position + 1, program[position], forest, l).value;
      RunSound(program, next.position, next.forest, l);
    } else {
      assert program[..position] == program;
    }
  }

  /** The parser accepts a program with a single tree on its stack exactly when the program is
      the encoding of that tree and the tree is in range. */
  lemma {:induction false} AcceptedIffEncoding(program: seq<byte>, t: Tree, l: Limits)
    requires l.Valid()
    ensures Run(program, 0, [], l) == Some([t]) <==> InRange(t, l) && Encodable(t) && Encode(t) == program
  {
    hide Run, InRange, Encodable, Encode;
    if InRange(t, l) && Encodable(t) && Encode(t) == program {
      RunEncode(t, l, program, 0, []);
      RunAtEnd(program, [] + [t], l);
      assert [] + [t] == [t];
    }
    if Run(program, 0, [], l) == Some([t]) {
      AcceptedEncodes(program, t, l);
    }
  }

  lemma {:induction false} AcceptedEncodes(program: seq<byte>, t: Tree, l: Limits)
    requires l.Valid() && Run(program, 0, [], l) == Some([t])
    ensures InRange(t, l) && Encodable(t) && Encode(t) == program
  {
    hide Run, InRange, Encodable, Encode;
    assert EncodeAll([]) == program[..0];
    RunSound(program, 0, [], l);
    var result := Run(program, 0, [], l).value;
    assert InRange(result[0], l) && Encodable(result[0]);
    SingletonForest(t);
  }

  lemma {:induction false} SingletonForest(t: Tree)
    requires Encodable(t)
    ensures EncodeAll([t]) == Encode(t)
  {
    hide Encodable, Encode;
    assert [t][..|[t]| - 1] == [];
    assert AllEncodable([t]);
    assert EncodeAll([t]) == EncodeAll([]) + Encode([t][0]);
  }

  lemma {:induction false} RunAtEnd(program: seq<byte>, forest: seq<Tree>, l: Limits)
    ensures Run(program, |program|, forest, l) == Some(forest)
  {
  }

  /** Different in-range trees have different programs. */
  lemma {:induction false} EncodingInjective(first: Tree, second: Tree, l: Limits)
    requires l.Valid() && InRange(first, l) && InRange(second, l)
    requires Encodable(first) && Encodable(second) && Encode(first) == Encode(second)
    ensures first == second
  {
    hide Run, InRange, Encodable, Encode;
    AcceptedIffEncoding(Encode(first), first, l);
    AcceptedIffEncoding(Encode(first), second, l);
  }
}
