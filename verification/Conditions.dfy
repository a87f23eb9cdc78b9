/** Conditions as the bundle states them, by name, and their resolution to table positions. */
module Conditions {
  import opened Wrappers
  import opened Bytes
  import opened ConditionCode

  datatype Condition =
    | AllOf(children: seq<Condition>)
    | AnyOf(children: seq<Condition>)
    | Negation(child: Condition)
    | HasRootAttribute(attribute: string)
    | HasAnyRootAttribute(attributes: seq<string>)
    | HasPhoneticAttribute(attribute: string)
    | DictionaryItemIs(item: string)
    | RootPrimaryPosIs(pos: string)
    | SecondaryPosIs(pos: string)
    | DictionaryItemIsAny(items: seq<Option<string>>)
    | DictionaryItemIsNone(items: seq<Option<string>>)
    | HasAnySuffixSurface
    | HasTail
    | HasNoTail
    | HasTailSequence(morphemes: seq<string>)
    | ContainsMorphemeSequence(morphemes: seq<string>)
    | CurrentMorphemeIs(morpheme: string)
    | PreviousMorphemeIs(morpheme: string)
    | PreviousStateIs(state: string)
    | PreviousStateIsNot(state: string)
    | RootSurfaceIs(surface: string)
    | RootSurfaceIsAny(surfaces: seq<string>)
    | CurrentStateIs(state: string)
    | CurrentStateIsNot(state: string)
    | LastDerivationIs(state: string)
    | HasDerivation
    | LastDerivationIsAny(states: seq<string>)
    | CurrentGroupContainsAny(states: seq<string>)
    | PreviousGroupContains(states: seq<string>)
    | PreviousGroupContainsMorpheme(morphemes: seq<string>)
    | NoSurfaceAfterDerivation
    | ContainsMorpheme(morphemes: seq<string>)
    | PreviousMorphemeIsAny(morphemes: seq<string>)
    | CurrentMorphemeIsAny(morphemes: seq<string>)
    | PreviousStateIsAny(states: seq<string>)

  /** The order of names: by the first difference, a proper prefix comes first. */
  predicate Less(first: string, second: string) {
    if second == "" then false
    else if first == "" then true
    else if first[0] != second[0] then first[0] < second[0]
    else Less(first[1..], second[1..])
  }

  predicate StrictlySorted(names: seq<string>) {
    forall i: nat | 0 < i < |names| :: Less(names[i - 1], names[i])
  }

  /** The names a bundle declares. The first four tables are fixed vocabularies, of which only
      the sizes matter here. */
  datatype Names = Names(
    rootAttributes: seq<string>, phoneticAttributes: seq<string>, primaryPos: seq<string>, secondaryPos: seq<string>,
    morphemes: seq<string>, dictionary: seq<string>, states: seq<string>, strings: seq<string>)
  {
    function Sizes(): Limits {
      Limits(|morphemes|, |dictionary|, |states|, |strings|)
    }

    predicate Valid() {
      && |rootAttributes| == ROOT_ATTRIBUTE_COUNT && |phoneticAttributes| == PHONETIC_ATTRIBUTE_COUNT
      && |primaryPos| == PRIMARY_POS_COUNT && |secondaryPos| == SECONDARY_POS_COUNT
      && Sizes().Valid()
      && StrictlySorted(dictionary)
    }
  }

  /** Where a name first occurs in a table. */
  function Position(table: seq<string>, name: string): (found: Option<nat>)
    ensures found.Some? <==> name in table
    ensures found.Some? ==> found.value < |table| && table[found.value] == name
  {
    if table == [] then None
    else if table[0] == name then Some(0)
    else
      var later := Position(table[1..], name);
      if later.None? then None else Some(later.value + 1)
  }

  function Positions(table: seq<string>, names: seq<string>): (found: Option<seq<nat>>)
    ensures found.Some? <==> forall i: nat | i < |names| :: names[i] in table
    ensures found.Some? ==> |found.value| == |names|
    ensures found.Some? ==> forall i: nat | i < |names| :: found.value[i] < |table| && table[found.value[i]] == names[i]
  {
    if names == [] then Some([])
    else
      var body := Positions(table, names[..|names| - 1]);
      var last := Position(table, names[|names| - 1]);
      if body.None? || last.None? then None else Some(body.value + [last.value])
  }

  function NullablePosition(table: seq<string>, item: Option<string>): (found: Option<nat>)
    ensures found.Some? <==> (item.Some? ==> item.value in table)
  {
    if item.None? then Some(NONE_ID) else Position(table, item.value)
  }

  function NullablePositions(table: seq<string>, items: seq<Option<string>>): (found: Option<seq<nat>>)
    ensures found.Some? ==> |found.value| == |items|
    ensures found.Some? ==>
      forall i: nat | i < |items| ::
        NullablePosition(table, items[i]).Some? && found.value[i] == NullablePosition(table, items[i]).value
    ensures found.None? ==> exists i: nat | i < |items| :: NullablePosition(table, items[i]).None?
  {
    if items == [] then Some([])
    else
      var body := NullablePositions(table, items[..|items| - 1]);
      var last := NullablePosition(table, items[|items| - 1]);
      if body.None? || last.None? then None else Some(body.value + [last.value])
  }

  // -------------------------------------------------------- attribute bit sets

  function Power(i: nat): (p: nat)
    ensures p > 0
  {
    if i == 0 then 1 else 2 * Power(i - 1)
  }

  predicate HasBit(bits: nat, i: nat) {
    if i == 0 then bits % 2 == 1 else HasBit(bits / 2, i - 1)
  }

  /** `bits | 1 << i`. */
  function SetBit(bits: nat, i: nat): nat {
    if HasBit(bits, i) then bits else bits + Power(i)
  }

  function Bits(table: seq<string>, names: seq<string>): (bits: Option<nat>)
    ensures bits.Some? <==> forall i: nat | i < |names| :: names[i] in table
  {
    if names == [] then Some(0)
    else
      var body := Bits(table, names[..|names| - 1]);
      var last := Position(table, names[|names| - 1]);
      if body.None? || last.None? then None else Some(SetBit(body.value, last.value))
  }

  lemma {:induction false} AddPower(bits: nat, i: nat, j: nat)
    requires !HasBit(bits, i)
    ensures HasBit(bits + Power(i), j) <==> j == i || HasBit(bits, j)
    decreases i
  {
    if i == 0 {
      if j > 0 {
        assert (bits + 1) / 2 == bits / 2;
      }
    } else {
      assert (bits + 2 * Power(i - 1)) / 2 == bits / 2 + Power(i - 1);
      if j > 0 {
        AddPower(bits / 2, i - 1, j - 1);
      } else {
        assert (bits + 2 * Power(i - 1)) % 2 == bits % 2;
      }
    }
  }

  lemma {:induction false} AddPowerBound(bits: nat, i: nat, n: nat)
    requires !HasBit(bits, i) && i < n && bits < Power(n)
    ensures bits + Power(i) < Power(n)
    decreases i
  {
    assert Power(n) == 2 * Power(n - 1);
    if i > 0 {
      HalfBelow(bits, Power(n - 1));
      AddPowerBound(bits / 2, i - 1, n - 1);
      assert Power(i) == 2 * Power(i - 1);
      DoubleBelow(bits, Power(i - 1), Power(n - 1));
    } else {
      assert bits % 2 == 0;
    }
  }

  lemma HalfBelow(bits: nat, half: nat)
    requires bits < 2 * half
    ensures bits / 2 < half
  {
  }

  lemma DoubleBelow(bits: nat, p: nat, half: nat)
    requires bits / 2 + p < half
    ensures bits + 2 * p < 2 * half
  {
  }

  /** The attribute word has one bit for each listed attribute and fits the vocabulary. */
  lemma {:induction false} BitsAreSet(table: seq<string>, names: seq<string>, j: nat)
    requires Bits(table, names).Some?
    ensures HasBit(Bits(table, names).value, j) <==> exists i: nat :: i < |names| && Position(table, names[i]) == Some(j)
    ensures Bits(table, names).value < Power(|table|)
  {
    if names == [] {
      NoBits(j);
    } else {
      var body, last := names[..|names| - 1], names[|names| - 1];
      BitsAreSet(table, body, j);
      var bits, p := Bits(table, body).value, Position(table, last).value;
      assert forall i: nat | i < |body| :: body[i] == names[i];
      if !HasBit(bits, p) {
        AddPower(bits, p, j);
        AddPowerBound(bits, p, |table|);
      } else {
        BitsAreSet(table, body, p);
      }
      assert (exists i: nat :: i < |names| && Position(table, names[i]) == Some(j))
        <==> ((exists i: nat :: i < |body| && Position(table, body[i]) == Some(j)) || Position(table, names[|names| - 1]) == Some(j));
    }
  }

  lemma {:induction false} NoBits(j: nat)
    ensures !HasBit(0, j)
  {
    if j > 0 {
      NoBits(j - 1);
    }
  }

  /** Equal bits are equal words. */
  lemma {:induction false} SameBits(first: nat, second: nat)
    requires forall j: nat :: HasBit(first, j) <==> HasBit(second, j)
    ensures first == second
    decreases first + second
  {
    if first + second > 0 {
      assert HasBit(first, 0) <==> HasBit(second, 0);
      forall j: nat
        ensures HasBit(first / 2, j) <==> HasBit(second / 2, j)
      {
        assert HasBit(first, j + 1) <==> HasBit(second, j + 1);
      }
      SameBits(first / 2, second / 2);
    }
  }

  /** Attribute lists are read as sets: equal sets of known names give the same word. */
  lemma {:induction false} AttributesAreASet(table: seq<string>, first: seq<string>, second: seq<string>)
    requires Bits(table, first).Some? && Bits(table, second).Some?
    ensures Bits(table, first) == Bits(table, second) <==> (set s | s in first) == (set s | s in second)
  {
    var one, other := Bits(table, first).value, Bits(table, second).value;
    var left, right := set s | s in first, set s | s in second;
    if left == right {
      assert forall s | s in first :: s in right;
      assert forall s | s in second :: s in left;
      forall j: nat
        ensures HasBit(one, j) <==> HasBit(other, j)
      {
        BitsFollowNames(table, first, second, j);
        BitsFollowNames(table, second, first, j);
      }
      SameBits(one, other);
    }
    if one == other {
      forall s | s in first
        ensures s in second
      {
        NamesFollowBits(table, first, second, s);
      }
      forall s | s in second
        ensures s in first
      {
        NamesFollowBits(table, second, first, s);
      }
    }
  }

  lemma {:induction false} BitsFollowNames(table: seq<string>, first: seq<string>, second: seq<string>, j: nat)
    requires Bits(table, first).Some? && Bits(table, second).Some?
    requires forall s | s in first :: s in second
    ensures HasBit(Bits(table, first).value, j) ==> HasBit(Bits(table, second).value, j)
  {
    BitsAreSet(table, first, j);
    BitsAreSet(table, second, j);
    if HasBit(Bits(table, first).value, j) {
      var i: nat :| i < |first| && Position(table, first[i]) == Some(j);
      assert first[i] in second;
      var k :| 0 <= k < |second| && second[k] == first[i];
      assert Position(table, second[k]) == Some(j);
    }
  }

  lemma {:induction false} NamesFollowBits(table: seq<string>, first: seq<string>, second: seq<string>, name: string)
    requires Bits(table, first).Some? && Bits(table, first) == Bits(table, second) && name in first
    ensures name in second
  {
    var i :| 0 <= i < |first| && first[i] == name;
    var j := Position(table, first[i]).value;
    BitsAreSet(table, first, j);
    BitsAreSet(table, second, j);
    assert Position(table, first[i]) == Some(j);
    var k: nat :| k < |second| && Position(table, second[k]) == Some(j);
    assert second[k] == table[j] == first[i];
  }

  // ------------------------------------------------------------- validity

  /** A dictionary set is strictly sorted, its null sentinel last. */
  predicate DictionarySetValid(items: seq<Option<string>>, dictionary: seq<string>) {
    && (forall i: nat | i < |items| && items[i].Some? :: items[i].value in dictionary)
    && (forall i: nat | 0 < i < |items| :: ItemOrder(items[i - 1], items[i]))
  }

  predicate ItemOrder(first: Option<string>, second: Option<string>) {
    first.Some? && (second.None? || Less(first.value, second.value))
  }

  predicate Known(table: seq<string>, names: seq<string>) {
    forall i: nat | i < |names| :: names[i] in table
  }

  /** What the bundle demands of a condition. */
  predicate Valid(c: Condition, n: Names) {
    match c
    case AllOf(children) => |children| >= 2 && forall i: nat | i < |children| :: Valid(children[i], n)
    case AnyOf(children) => |children| >= 2 && forall i: nat | i < |children| :: Valid(children[i], n)
    case Negation(child) => Valid(child, n)
    case HasRootAttribute(attribute) => attribute in n.rootAttributes
    case HasAnyRootAttribute(attributes) => Known(n.rootAttributes, attributes)
    case HasPhoneticAttribute(attribute) => attribute in n.phoneticAttributes
    case DictionaryItemIs(item) => item in n.dictionary
    case RootPrimaryPosIs(pos) => pos in n.primaryPos
    case SecondaryPosIs(pos) => pos in n.secondaryPos
    case DictionaryItemIsAny(items) => DictionarySetValid(items, n.dictionary)
    case DictionaryItemIsNone(items) => DictionarySetValid(items, n.dictionary)
    case HasTailSequence(morphemes) => Known(n.morphemes, morphemes)
    case ContainsMorphemeSequence(morphemes) => Known(n.morphemes, morphemes)
    case CurrentMorphemeIs(morpheme) => morpheme in n.morphemes
    case PreviousMorphemeIs(morpheme) => morpheme in n.morphemes
    case PreviousStateIs(state) => state in n.states
    case PreviousStateIsNot(state) => state in n.states
    case CurrentStateIs(state) => state in n.states
    case CurrentStateIsNot(state) => state in n.states
    case LastDerivationIs(state) => state in n.states
    case LastDerivationIsAny(states) => StrictlySorted(states) && Known(n.states, states)
    case CurrentGroupContainsAny(states) => StrictlySorted(states) && Known(n.states, states)
    case PreviousGroupContains(states) => StrictlySorted(states) && Known(n.states, states)
    case PreviousStateIsAny(states) => StrictlySorted(states) && Known(n.states, states)
    case PreviousGroupContainsMorpheme(morphemes) => StrictlySorted(morphemes) && Known(n.morphemes, morphemes)
    case ContainsMorpheme(morphemes) => StrictlySorted(morphemes) && Known(n.morphemes, morphemes)
    case PreviousMorphemeIsAny(morphemes) => StrictlySorted(morphemes) && Known(n.morphemes, morphemes)
    case CurrentMorphemeIsAny(morphemes) => StrictlySorted(morphemes) && Known(n.morphemes, morphemes)
    case _ => true
  }

  /** The string table holds every root surface of the condition. */
  predicate Interned(c: Condition, n: Names) {
    match c
    case AllOf(children) => forall i: nat | i < |children| :: Interned(children[i], n)
    case AnyOf(children) => forall i: nat | i < |children| :: Interned(children[i], n)
    case Negation(child) => Interned(child, n)
    case RootSurfaceIs(surface) => surface in n.strings
    case RootSurfaceIsAny(surfaces) => Known(n.strings, surfaces)
    case _ => true
  }

  /** Every list of the condition has a length that a 16-bit count can state. */
  predicate CountsFit(c: Condition) {
    match c
    case AllOf(children) => |children| <= U16_MAX && forall i: nat | i < |children| :: CountsFit(children[i])
    case AnyOf(children) => |children| <= U16_MAX && forall i: nat | i < |children| :: CountsFit(children[i])
    case Negation(child) => CountsFit(child)
    case DictionaryItemIsAny(items) => |items| <= U16_MAX
    case DictionaryItemIsNone(items) => |items| <= U16_MAX
    case HasTailSequence(morphemes) => |morphemes| <= U16_MAX
    case ContainsMorphemeSequence(morphemes) => |morphemes| <= U16_MAX
    case RootSurfaceIsAny(surfaces) => |surfaces| <= U16_MAX
    case LastDerivationIsAny(states) => |states| <= U16_MAX
    case CurrentGroupContainsAny(states) => |states| <= U16_MAX
    case PreviousGroupContains(states) => |states| <= U16_MAX
    case PreviousStateIsAny(states) => |states| <= U16_MAX
    case PreviousGroupContainsMorpheme(morphemes) => |morphemes| <= U16_MAX
    case ContainsMorpheme(morphemes) => |morphemes| <= U16_MAX
    case PreviousMorphemeIsAny(morphemes) => |morphemes| <= U16_MAX
    case CurrentMorphemeIsAny(morphemes) => |morphemes| <= U16_MAX
    case _ => true
  }

  /** The bundle's scan of a dictionary set: the last name seen and whether the null came. */
  method ValidateNullableDictionarySet(items: seq<Option<string>>, dictionary: seq<string>) returns (ok: bool)
    ensures ok == DictionarySetValid(items, dictionary)
  {
    hide Less;
    var previous: Option<string> := None;
    var sawNull := false;
    for i := 0 to |items|
      invariant DictionarySetValid(items[..i], dictionary)
      invariant sawNull == (i > 0 && items[i - 1].None?)
      invariant i > 0 && !sawNull ==> previous == items[i - 1]
      invariant i == 0 ==> previous.None?
    {
      if items[i].Some? {
        if sawNull || (previous.Some? && !Less(previous.value, items[i].value)) {
          assert !ItemOrder(items[i - 1], items[i]);
          return false;
        }
        if items[i].value !in dictionary {
          return false;
        }
        previous := items[i];
      } else {
        if sawNull {
          assert !ItemOrder(items[i - 1], items[i]);
          return false;
        }
        sawNull := true;
      }
    }
    assert items[..|items|] == items;
    ok := true;
  }

  // ----------------------------------------------------------- resolution

  function Named(opcode: byte, table: seq<string>, name: string): Option<Tree>
  {
    var found := Position(table, name);
    if found.Some? && found.value < 256 then Some(Leaf(opcode, Small(found.value))) else None
  }

  function Single(opcode: byte, table: seq<string>, name: string): Option<Tree> {
    var found := Position(table, name);
    if found.None? then None else Some(Leaf(opcode, Word(found.value)))
  }

  function Many(opcode: byte, table: seq<string>, names: seq<string>): Option<Tree> {
    var found := Positions(table, names);
    if found.None? then None else Some(Leaf(opcode, List(found.value)))
  }

  function DictionarySet(opcode: byte, table: seq<string>, items: seq<Option<string>>): Option<Tree> {
    var found := NullablePositions(table, items);
    if found.None? then None else Some(Leaf(opcode, List(found.value)))
  }

  function Attributes(opcode: byte, table: seq<string>, names: seq<string>): Option<Tree> {
    var found := Bits(table, names);
    if found.None? then None else Some(Leaf(opcode, Word(found.value)))
  }

  /** The tree over table positions that a condition stands for; `None` if a name is unknown. */
  function Resolve(c: Condition, n: Names): Option<Tree> {
    match c
    case AllOf(children) => var ts := ResolveAll(children, n); if ts.None? then None else Some(And(ts.value))
    case AnyOf(children) => var ts := ResolveAll(children, n); if ts.None? then None else Some(Or(ts.value))
    case Negation(child) => var t := Resolve(child, n); if t.None? then None else Some(Not(t.value))
    case _ => ResolveLeaf(c, n)
  }

  function ResolveAll(cs: seq<Condition>, n: Names): (found: Option<seq<Tree>>)
    ensures found.Some? ==> |found.value| == |cs|
  {
    if cs == [] then Some([])
    else
      var body := ResolveAll(cs[..|cs| - 1], n);
      var last := Resolve(cs[|cs| - 1], n);
      if body.None? || last.None? then None else Some(body.value + [last.value])
  }

  predicate IsLeaf(c: Condition) {
    !c.AllOf? && !c.AnyOf? && !c.Negation?
  }

  function ResolveLeaf(c: Condition, n: Names): (found: Option<Tree>)
    requires IsLeaf(c)
    ensures found.Some? ==> found.value.Leaf?
  {
    match c
    case HasRootAttribute(attribute) => Named(0x10, n.rootAttributes, attribute)
    case HasAnyRootAttribute(attributes) => Attributes(0x11, n.rootAttributes, attributes)
    case HasPhoneticAttribute(attribute) => Named(0x12, n.phoneticAttributes, attribute)
    case DictionaryItemIs(item) => Single(0x13, n.dictionary, item)
    case RootPrimaryPosIs(pos) => Named(0x14, n.primaryPos, pos)
    case SecondaryPosIs(pos) => Named(0x15, n.secondaryPos, pos)
    case DictionaryItemIsAny(items) => DictionarySet(0x16, n.dictionary, items)
    case DictionaryItemIsNone(items) => DictionarySet(0x17, n.dictionary, items)
    case HasAnySuffixSurface => Some(Leaf(0x18, NoOperand))
    case HasTail => Some(Leaf(0x19, NoOperand))
    case HasNoTail => Some(Leaf(0x1a, NoOperand))
    case HasTailSequence(morphemes) => Many(0x1b, n.morphemes, morphemes)
    case ContainsMorphemeSequence(morphemes) => Many(0x1c, n.morphemes, morphemes)
    case CurrentMorphemeIs(morpheme) => Single(0x1d, n.morphemes, morpheme)
    case PreviousMorphemeIs(morpheme) => Single(0x1e, n.morphemes, morpheme)
    case PreviousStateIs(state) => Single(0x1f, n.states, state)
    case PreviousStateIsNot(state) => Single(0x20, n.states, state)
    case RootSurfaceIs(surface) => Single(0x21, n.strings, surface)
    case RootSurfaceIsAny(surfaces) => Many(0x22, n.strings, surfaces)
    case CurrentStateIs(state) => Single(0x23, n.states, state)
    case CurrentStateIsNot(state) => Single(0x24, n.states, state)
    case LastDerivationIs(state) => Single(0x25, n.states, state)
    case HasDerivation => Some(Leaf(0x26, NoOperand))
    case LastDerivationIsAny(states) => Many(0x27, n.states, states)
    case CurrentGroupContainsAny(states) => Many(0x28, n.states, states)
    case PreviousGroupContains(states) => Many(0x29, n.states, states)
    case PreviousGroupContainsMorpheme(morphemes) => Many(0x2a, n.morphemes, morphemes)
    case NoSurfaceAfterDerivation => Some(Leaf(0x2b, NoOperand))
    case ContainsMorpheme(morphemes) => Many(0x2c, n.morphemes, morphemes)
    case PreviousMorphemeIsAny(morphemes) => Many(0x2d, n.morphemes, morphemes)
    case CurrentMorphemeIsAny(morphemes) => Many(0x2e, n.morphemes, morphemes)
    case PreviousStateIsAny(states) => Many(0x2f, n.states, states)
  }

  // ------------------------------------------------------ what resolution keeps

  /** The number of conditions in the upstream representation: conjunctions and disjunctions
      are flattened, everything else counts once. */
  function ZemberekCount(c: Condition): nat {
    match c
    case AllOf(children) => ZemberekCounts(children)
    case AnyOf(children) => ZemberekCounts(children)
    case _ => 1
  }

  function ZemberekCounts(cs: seq<Condition>): nat {
    if cs == [] then 0
    else
      var last := cs[|cs| - 1];
      ZemberekCounts(cs[..|cs| - 1]) + if last.AllOf? || last.AnyOf? then ZemberekCount(last) else 1
  }

  /** The null items of all dictionary sets. */
  function NullItems(c: Condition): nat {
    match c
    case AllOf(children) => NullItemsAll(children)
    case AnyOf(children) => NullItemsAll(children)
    case Negation(child) => NullItems(child)
    case DictionaryItemIsAny(items) => Nones(items)
    case DictionaryItemIsNone(items) => Nones(items)
    case _ => 0
  }

  function NullItemsAll(cs: seq<Condition>): nat {
    if cs == [] then 0 else NullItemsAll(cs[..|cs| - 1]) + NullItems(cs[|cs| - 1])
  }

  function Nones(items: seq<Option<string>>): nat {
    if items == [] then 0 else Nones(items[..|items| - 1]) + if items[|items| - 1].None? then 1 else 0
  }

  lemma {:induction false} CountKept(c: Condition, n: Names)
    requires Resolve(c, n).Some?
    ensures Count(Resolve(c, n).value) == ZemberekCount(c)
  {
    hide ResolveLeaf, ResolveAll, CountAll, ZemberekCounts;
    if c.AllOf? || c.AnyOf? {
      CountsKept(c.children, n);
    } else {
      CountOne(c);
    }
  }

  lemma {:induction false} CountsKept(cs: seq<Condition>, n: Names)
    requires ResolveAll(cs, n).Some?
    ensures CountAll(ResolveAll(cs, n).value) == ZemberekCounts(cs)
  {
    hide Count, ZemberekCount, Resolve;
    if cs != [] {
      var body, last := cs[..|cs| - 1], cs[|cs| - 1];
      CountsKept(body, n);
      CountKept(last, n);
      SumPush(ResolveAll(body, n).value, Resolve(last, n).value);
      if !last.AllOf? && !last.AnyOf? {
        CountOne(last);
      }
    }
  }

  lemma {:induction false} CountOne(c: Condition)
    requires !c.AllOf? && !c.AnyOf?
    ensures ZemberekCount(c) == 1
  {
  }

  lemma {:induction false} SumPush(ts: seq<Tree>, t: Tree)
    ensures CountAll(ts + [t]) == CountAll(ts) + Count(t)
    ensures NullsAll(ts + [t]) == NullsAll(ts) + Nulls(t)
  {
    assert (ts + [t])[..|ts|] == ts;
  }

  lemma {:induction false} LessIrreflexive(a: string)
    ensures !Less(a, a)
  {
    if a != "" {
      LessIrreflexive(a[1..]);
    }
  }

  lemma {:induction false} LessTransitive(a: string, b: string, c: string)
    requires Less(a, b) && Less(b, c)
    ensures Less(a, c)
  {
    if a != "" && a[0] == b[0] && b[0] == c[0] {
      LessTransitive(a[1..], b[1..], c[1..]);
    }
  }

  lemma {:induction false} SortedPairs(table: seq<string>, i: nat, j: nat)
    requires StrictlySorted(table) && i < j < |table|
    ensures Less(table[i], table[j])
    decreases j
  {
    hide Less;
    if i + 1 < j {
      SortedPairs(table, i, j - 1);
      LessTransitive(table[i], table[j - 1], table[j]);
    } else {
      assert Less(table[j - 1], table[j]);
    }
  }

  /** Positions in a sorted table follow the order of the names. */
  lemma PositionsFollowOrder(table: seq<string>, i: nat, j: nat)
    requires StrictlySorted(table) && i < |table| && j < |table|
    requires Less(table[i], table[j])
    ensures i < j
  {
    hide Less;
    if j < i {
      SortedPairs(table, j, i);
      LessTransitive(table[i], table[j], table[i]);
    }
    LessIrreflexive(table[i]);
  }

  /** A valid dictionary set resolves to a sorted list of positions. */
  lemma {:induction false} DictionarySetSorted(items: seq<Option<string>>, dictionary: seq<string>)
    requires StrictlySorted(dictionary) && |dictionary| <= U32_MAX && DictionarySetValid(items, dictionary)
    ensures NullablePositions(dictionary, items).Some?
    ensures NullableSorted(NullablePositions(dictionary, items).value, |dictionary|)
  {
    hide Less, StrictlySorted;
    forall i: nat | i < |items|
      ensures NullablePosition(dictionary, items[i]).Some?
    {
    }
    var ids := NullablePositions(dictionary, items).value;
    forall i: nat | 0 < i < |ids|
      ensures NullableOrder(ids[i - 1], ids[i])
    {
      assert ItemOrder(items[i - 1], items[i]);
      if items[i].Some? {
        PositionsFollowOrder(dictionary, ids[i - 1], ids[i]);
      }
    }
  }

  lemma {:induction false} NonesAreMarkers(items: seq<Option<string>>, table: seq<string>)
    requires |table| <= U32_MAX && NullablePositions(table, items).Some?
    ensures NoneCount(NullablePositions(table, items).value) == Nones(items)
  {
    if items != [] {
      var body := NullablePositions(table, items[..|items| - 1]).value;
      NonesAreMarkers(items[..|items| - 1], table);
      assert NullablePositions(table, items).value[..|body|] == body;
    }
  }

  lemma {:induction false} PowerOfCount()
    ensures Power(ROOT_ATTRIBUTE_COUNT) == ROOT_ATTRIBUTE_LIMIT
  {
    assert Power(4) == 16;
    assert Power(8) == 256;
    assert Power(12) == 4096;
    assert Power(16) == 65536;
    assert Power(20) == 1048576;
    assert Power(24) == 16777216;
    assert Power(28) == 268435456;
  }

  /** What resolution keeps: the null sentinels, whether all counts fit, and validity. */
  ghost predicate Faithful(t: Tree, c: Condition, n: Names) {
    && Nulls(t) == NullItems(c)
    && (Encodable(t) <==> CountsFit(c))
    && (Valid(c, n) && CountsFit(c) ==> InRange(t, n.Sizes()))
  }

  ghost predicate LeafFaithful(t: Tree, nulls: nat, fits: bool, valid: bool, n: Names) {
    Nulls(t) == nulls && (Encodable(t) <==> fits) && (valid && fits ==> InRange(t, n.Sizes()))
  }

  lemma NamedResolved(opcode: byte, table: seq<string>, name: string, n: Names)
    requires ShapeOf(opcode, n.Sizes()) == Some(SmallBelow(|table|)) && Named(opcode, table, name).Some?
    ensures LeafFaithful(Named(opcode, table, name).value, 0, true, true, n)
  {
    hide ShapeOf;
  }

  lemma SingleResolved(opcode: byte, table: seq<string>, name: string, n: Names)
    requires |table| <= U32_MAX
    requires ShapeOf(opcode, n.Sizes()) == Some(WordBelow(|table|)) && Single(opcode, table, name).Some?
    ensures LeafFaithful(Single(opcode, table, name).value, 0, true, true, n)
  {
    hide ShapeOf;
  }

  lemma ManyResolved(opcode: byte, table: seq<string>, names: seq<string>, n: Names)
    requires |table| <= U32_MAX && opcode !in {0x16, 0x17}
    requires ShapeOf(opcode, n.Sizes()) == Some(ListBelow(|table|)) && Many(opcode, table, names).Some?
    ensures LeafFaithful(Many(opcode, table, names).value, 0, |names| <= U16_MAX, true, n)
  {
    hide ShapeOf;
    var ids := Positions(table, names).value;
    assert forall i: nat | i < |ids| :: ids[i] <= U32_MAX;
  }

  lemma BareResolved(opcode: byte, n: Names)
    requires ShapeOf(opcode, n.Sizes()) == Some(Bare)
    ensures LeafFaithful(Leaf(opcode, NoOperand), 0, true, true, n)
  {
    hide ShapeOf;
  }

  lemma LeafResolved(c: Condition, n: Names)
    requires n.Valid() && IsLeaf(c) && ResolveLeaf(c, n).Some?
    ensures Faithful(ResolveLeaf(c, n).value, c, n)
  {
    hide Faithful;
    if IsFeature(c) {
      FeatureResolved(c, n);
    } else if IsState(c) {
      StateResolved(c, n);
    } else {
      MorphemeResolved(c, n);
    }
  }

  predicate IsFeature(c: Condition) {
    || c.HasRootAttribute? || c.HasAnyRootAttribute? || c.HasPhoneticAttribute? || c.DictionaryItemIs?
    || c.RootPrimaryPosIs? || c.SecondaryPosIs? || c.DictionaryItemIsAny? || c.DictionaryItemIsNone?
    || c.HasAnySuffixSurface? || c.HasTail? || c.HasNoTail?
  }

  predicate IsState(c: Condition) {
    || c.PreviousStateIs? || c.PreviousStateIsNot? || c.CurrentStateIs? || c.CurrentStateIsNot? || c.LastDerivationIs?
    || c.HasDerivation? || c.LastDerivationIsAny? || c.CurrentGroupContainsAny? || c.PreviousGroupContains?
    || c.PreviousStateIsAny?
  }

  lemma FeatureResolved(c: Condition, n: Names)
    requires n.Valid() && IsFeature(c) && ResolveLeaf(c, n).Some?
    ensures Faithful(ResolveLeaf(c, n).value, c, n)
  {
    hide Named, Single, DictionarySet, Attributes, Nulls, Encodable, InRange, Known, Nones, DictionarySetValid, StrictlySorted;
    match c
    case HasRootAttribute(attribute) => NamedResolved(0x10, n.rootAttributes, attribute, n);
    case HasAnyRootAttribute(attributes) => AttributesResolved(attributes, n);
    case HasPhoneticAttribute(attribute) => NamedResolved(0x12, n.phoneticAttributes, attribute, n);
    case DictionaryItemIs(item) => SingleResolved(0x13, n.dictionary, item, n);
    case RootPrimaryPosIs(pos) => NamedResolved(0x14, n.primaryPos, pos, n);
    case SecondaryPosIs(pos) => NamedResolved(0x15, n.secondaryPos, pos, n);
    case DictionaryItemIsAny(items) => DictionarySetResolved(0x16, items, n);
    case DictionaryItemIsNone(items) => DictionarySetResolved(0x17, items, n);
    case HasAnySuffixSurface => BareResolved(0x18, n);
    case HasTail => BareResolved(0x19, n);
    case HasNoTail => BareResolved(0x1a, n);
  }

  lemma MorphemeResolved(c: Condition, n: Names)
    requires n.Valid() && IsLeaf(c) && !IsFeature(c) && !IsState(c) && ResolveLeaf(c, n).Some?
    ensures Faithful(ResolveLeaf(c, n).value, c, n)
  {
    hide Single, Many, Nulls, Encodable, InRange, Known, StrictlySorted;
    match c
    case HasTailSequence(morphemes) => ManyResolved(0x1b, n.morphemes, morphemes, n);
    case ContainsMorphemeSequence(morphemes) => ManyResolved(0x1c, n.morphemes, morphemes, n);
    case CurrentMorphemeIs(morpheme) => SingleResolved(0x1d, n.morphemes, morpheme, n);
    case PreviousMorphemeIs(morpheme) => SingleResolved(0x1e, n.morphemes, morpheme, n);
    case RootSurfaceIs(surface) => SingleResolved(0x21, n.strings, surface, n);
    case RootSurfaceIsAny(surfaces) => ManyResolved(0x22, n.strings, surfaces, n);
    case PreviousGroupContainsMorpheme(morphemes) => ManyResolved(0x2a, n.morphemes, morphemes, n);
    case NoSurfaceAfterDerivation => BareResolved(0x2b, n);
    case ContainsMorpheme(morphemes) => ManyResolved(0x2c, n.morphemes, morphemes, n);
    case PreviousMorphemeIsAny(morphemes) => ManyResolved(0x2d, n.morphemes, morphemes, n);
    case CurrentMorphemeIsAny(morphemes) => ManyResolved(0x2e, n.morphemes, morphemes, n);
  }

  lemma StateResolved(c: Condition, n: Names)
    requires n.Valid() && IsState(c) && ResolveLeaf(c, n).Some?
    ensures Faithful(ResolveLeaf(c, n).value, c, n)
  {
    hide Faithful, ResolveLeaf;
    if c.LastDerivationIsAny? || c.CurrentGroupContainsAny? || c.PreviousGroupContains? || c.PreviousStateIsAny? {
      StatesResolved(c, n);
    } else {
      OneStateResolved(c, n);
    }
  }

  lemma StatesResolved(c: Condition, n: Names)
    requires n.Valid() && IsState(c) && ResolveLeaf(c, n).Some?
    requires c.LastDerivationIsAny? || c.CurrentGroupContainsAny? || c.PreviousGroupContains? || c.PreviousStateIsAny?
    ensures Faithful(ResolveLeaf(c, n).value, c, n)
  {
    hide Single, Many, Nulls, Encodable, InRange, Known, StrictlySorted;
    match c
    case LastDerivationIsAny(states) => ManyResolved(0x27, n.states, states, n);
    case CurrentGroupContainsAny(states) => ManyResolved(0x28, n.states, states, n);
    case PreviousGroupContains(states) => ManyResolved(0x29, n.states, states, n);
    case PreviousStateIsAny(states) => ManyResolved(0x2f, n.states, states, n);
  }

  lemma OneStateResolved(c: Condition, n: Names)
    requires n.Valid() && IsState(c) && ResolveLeaf(c, n).Some?
    requires c.PreviousStateIs? || c.PreviousStateIsNot? || c.CurrentStateIs? || c.CurrentStateIsNot?
      || c.LastDerivationIs? || c.HasDerivation?
    ensures Faithful(ResolveLeaf(c, n).value, c, n)
  {
    hide Single, Many, Nulls, Encodable, InRange, Known, StrictlySorted;
    match c
    case PreviousStateIs(state) => SingleResolved(0x1f, n.states, state, n);
    case PreviousStateIsNot(state) => SingleResolved(0x20, n.states, state, n);
    case CurrentStateIs(state) => SingleResolved(0x23, n.states, state, n);
    case CurrentStateIsNot(state) => SingleResolved(0x24, n.states, state, n);
    case LastDerivationIs(state) => SingleResolved(0x25, n.states, state, n);
    case HasDerivation => BareResolved(0x26, n);
  }

  lemma AttributesResolved(attributes: seq<string>, n: Names)
    requires n.Valid() && Attributes(0x11, n.rootAttributes, attributes).Some?
    ensures LeafFaithful(Attributes(0x11, n.rootAttributes, attributes).value, 0, true, true, n)
  {
    hide StrictlySorted, Power, Bits;
    BitsAreSet(n.rootAttributes, attributes, 0);
    PowerOfCount();
  }

  lemma {:induction false} DictionarySetResolved(opcode: byte, items: seq<Option<string>>, n: Names)
    requires n.Valid() && opcode in {0x16, 0x17}
    requires DictionarySet(opcode, n.dictionary, items).Some?
    ensures LeafFaithful(
      DictionarySet(opcode, n.dictionary, items).value, Nones(items), |items| <= U16_MAX,
      DictionarySetValid(items, n.dictionary), n)
  {
    hide NoneCount, Nones, DictionarySetValid, StrictlySorted, NullableSorted, NullablePositions, ShapeOf;
    NonesAreMarkers(items, n.dictionary);
    ItemsEncodable(items, n.dictionary);
    if DictionarySetValid(items, n.dictionary) {
      DictionarySetSorted(items, n.dictionary);
    }
    NullableShape(opcode, n);
  }

  lemma NullableShape(opcode: byte, n: Names)
    requires opcode in {0x16, 0x17}
    ensures ShapeOf(opcode, n.Sizes()) == Some(NullableBelow(|n.dictionary|))
  {
  }

  lemma {:induction false} ItemsEncodable(items: seq<Option<string>>, table: seq<string>)
    requires |table| <= U32_MAX && NullablePositions(table, items).Some?
    ensures OperandEncodable(List(NullablePositions(table, items).value)) <==> |items| <= U16_MAX
  {
    var ids := NullablePositions(table, items).value;
    forall i: nat | i < |ids|
      ensures ids[i] <= U32_MAX
    {
      assert ids[i] == NullablePosition(table, items[i]).value;
    }
  }

  lemma {:induction false} ResolveAllItems(cs: seq<Condition>, n: Names)
    ensures ResolveAll(cs, n).Some? <==> forall i: nat | i < |cs| :: Resolve(cs[i], n).Some?
    ensures ResolveAll(cs, n).Some? ==>
      forall i: nat | i < |cs| :: Resolve(cs[i], n).Some? && ResolveAll(cs, n).value[i] == Resolve(cs[i], n).value
  {
    hide Resolve;
    if cs != [] {
      ResolveAllItems(cs[..|cs| - 1], n);
    }
  }

  /** Resolution keeps the null sentinels and the validity of a whole condition, and a
      condition can be written exactly when all its counts fit. */
  lemma {:induction false} Resolved(c: Condition, n: Names)
    requires n.Valid() && Resolve(c, n).Some?
    ensures Faithful(Resolve(c, n).value, c, n)
  {
    hide ResolveLeaf, ResolveAll, StrictlySorted;
    if c.AllOf? || c.AnyOf? {
      ResolvedAll(c.children, n);
      CombinedFaithful(c, ResolveAll(c.children, n).value, n);
    } else if c.Negation? {
      Resolved(c.child, n);
    } else {
      LeafResolved(c, n);
    }
  }

  lemma FaithfulNulls(t: Tree, c: Condition, n: Names)
    requires Faithful(t, c, n)
    ensures Nulls(t) == NullItems(c)
  {
    hide Nulls, NullItems, Encodable, InRange, Valid, CountsFit;
  }

  lemma {:induction false} ResolvedAll(cs: seq<Condition>, n: Names)
    requires n.Valid() && ResolveAll(cs, n).Some?
    ensures NullsAll(ResolveAll(cs, n).value) == NullItemsAll(cs)
    ensures forall i: nat | i < |cs| :: Faithful(ResolveAll(cs, n).value[i], cs[i], n)
  {
    hide Resolve, Nulls, NullItems, Faithful, Names.Valid;
    if cs != [] {
      var body, last := cs[..|cs| - 1], cs[|cs| - 1];
      ResolvedAll(body, n);
      Resolved(last, n);
      FaithfulNulls(Resolve(last, n).value, last, n);
      SumPush(ResolveAll(body, n).value, Resolve(last, n).value);
      forall i: nat | i < |cs|
        ensures Faithful(ResolveAll(cs, n).value[i], cs[i], n)
      {
        if i < |body| {
          assert Faithful(ResolveAll(body, n).value[i], body[i], n);
        }
      }
    }
  }

  lemma {:induction false} CombinedFaithful(c: Condition, ts: seq<Tree>, n: Names)
    requires (c.AllOf? || c.AnyOf?) && |ts| == |c.children|
    requires NullsAll(ts) == NullItemsAll(c.children)
    requires forall i: nat | i < |ts| :: Faithful(ts[i], c.children[i], n)
    ensures Faithful(if c.AllOf? then And(ts) else Or(ts), c, n)
  {
    var cs := c.children;
    var t := if c.AllOf? then And(ts) else Or(ts);
    assert AllEncodable(ts) <==> forall i: nat | i < |cs| :: CountsFit(cs[i]) by {
      hide Encodable, CountsFit, Valid, InRange, Nulls, NullItems;
      forall i: nat | i < |ts|
        ensures Encodable(ts[i]) <==> CountsFit(cs[i])
      {
        assert Faithful(ts[i], cs[i], n);
      }
    }
    assert Nulls(t) == NullItems(c);
    assert CountsFit(c) <==> |cs| <= U16_MAX && forall i: nat | i < |cs| :: CountsFit(cs[i]);
    assert Encodable(t) <==> CountsFit(c);
    if Valid(c, n) && CountsFit(c) {
      forall i: nat | i < |ts|
        ensures InRange(ts[i], n.Sizes())
      {
        assert Faithful(ts[i], cs[i], n) && Valid(cs[i], n) && CountsFit(cs[i]);
      }
      assert InRange(t, n.Sizes());
    }
  }
}
