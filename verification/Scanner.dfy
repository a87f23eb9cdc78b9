/** The lossless scanner: grouping of classified scalars into lexical units. */
module Scanner {
  import opened Wrappers
  import opened Bytes
  import opened Utf8
  import opened LexicalClasses

  datatype Unit = Unit(start: nat, end: nat, kind: Kind)

  const ZERO_WIDTH_JOINER := 0x200D

  predicate IsWordConnector(value: int) {
    value == '\'' as int || value == 0x2019 || value == '-' as int || value == 0x2010 || value == 0x2011
  }

  predicate IsNumberSuffixConnector(value: int) {
    value == '\'' as int || value == 0x2019
  }

  predicate IsNumberSeparator(value: int) {
    || value == '.' as int || value == ',' as int || value == ':' as int || value == '/' as int || value == '-' as int
    || value == 0x066B || value == 0x066C
  }

  // ------------------------------------------------------------ specification

  /** The position behind a connector at `index`, if a scalar of one of the kinds follows it. */
  function BehindConnector(u: Properties, raw: seq<byte>, index: nat, isConnector: int -> bool, kinds: set<Kind>)
    : (behind: Option<nat>)
    ensures behind.Some? ==> index < behind.value < |raw|
  {
    var scalar := ScalarAt(raw, index);
    if scalar.None? || !isConnector(scalar.value.0) then None
    else
      var after := index + scalar.value.1;
      if after < |raw| && Classify(u, raw, after).kind in kinds then Some(after) else None
  }

  /** How far a unit of the given kind grows at once, `None` where it cannot grow in kind. */
  function Advance(u: Properties, raw: seq<byte>, index: nat, kind: Kind): (next: Option<nat>)
    requires index < |raw|
    ensures next.Some? ==> index < next.value <= |raw|
  {
    var c := Classify(u, raw, index);
    match kind
    case Word =>
      if c.kind in {Word, Number} then Some(index + c.width)
      else BehindConnector(u, raw, index, IsWordConnector, {Word, Number})
    case Number =>
      if c.kind == Number then Some(index + c.width)
      else BehindConnector(u, raw, index, IsNumberSeparator, {Number})
    case Symbol =>
      if c.kind == Symbol then Some(index + c.width)
      else
        var after := index + c.width;
        var scalar := ScalarAt(raw, index);
        if scalar.Some? && scalar.value.0 == ZERO_WIDTH_JOINER && after < |raw| then
          var joined := Classify(u, raw, after);
          if joined.kind == Symbol then Some(after + joined.width) else None
        else None
    case _ => if c.kind == kind then Some(index + c.width) else None
  }

  /** The end of a unit of the given kind that reaches up to `index`. A number that a suffix
      follows goes on as a word. */
  function End(u: Properties, raw: seq<byte>, index: nat, kind: Kind): (end: nat)
    requires index <= |raw|
    ensures index <= end <= |raw|
    decreases |raw| - index
  {
    if index == |raw| then index
    else
      var next := Advance(u, raw, index, kind);
      if next.Some? then End(u, raw, next.value, kind)
      else if kind == Number then
        var suffix := BehindConnector(u, raw, index, IsNumberSuffixConnector, {Word});
        if suffix.Some? then End(u, raw, suffix.value, Word) else index
      else index
  }

  /** The unit that starts at `index`. */
  function UnitAt(u: Properties, raw: seq<byte>, index: nat): (unit: Unit)
    requires index < |raw|
    ensures unit.start == index < unit.end <= |raw|
  {
    var c := Classify(u, raw, index);
    Unit(index, End(u, raw, index + c.width, c.kind), c.kind)
  }

  /** The units of the bytes from `index` on. */
  function Units(u: Properties, raw: seq<byte>, index: nat): seq<Unit>
    requires index <= |raw|
    decreases |raw| - index
  {
    if index == |raw| then []
    else
      var unit := UnitAt(u, raw, index);
      [unit] + Units(u, raw, unit.end)
  }

  // -------------------------------------------------------------- what is kept

  /** The units tile the bytes from `index` on without gaps, none of them empty. */
  predicate Tiles(units: seq<Unit>, index: nat, end: nat) {
    if units == [] then index == end
    else units[0].start == index < units[0].end && Tiles(units[1..], units[0].end, end)
  }

  lemma {:induction false} UnitsTile(u: Properties, raw: seq<byte>, index: nat)
    requires index <= |raw|
    ensures Tiles(Units(u, raw, index), index, |raw|)
    decreases |raw| - index
  {
    hide UnitAt;
    if index < |raw| {
      var unit := UnitAt(u, raw, index);
      UnitsTile(u, raw, unit.end);
      assert Units(u, raw, index)[1..] == Units(u, raw, unit.end);
    }
  }

  /** Tiling, unit by unit. */
  lemma {:induction false} TilesAdjoin(units: seq<Unit>, start: nat, end: nat)
    requires Tiles(units, start, end)
    ensures forall i: nat | i < |units| :: start <= units[i].start < units[i].end <= end
    ensures forall i: nat | 0 < i < |units| :: units[i - 1].end == units[i].start
    ensures if units == [] then start == end else units[0].start == start && units[|units| - 1].end == end
    ensures start <= end
  {
    if units != [] {
      var rest := units[1..];
      TilesAdjoin(rest, units[0].end, end);
      assert units == [units[0]] + rest;
      forall i: nat | 0 < i < |units|
        ensures units[i - 1].end == units[i].start
      {
        if i > 1 {
          assert rest[i - 1 - 1].end == rest[i - 1].start;
        }
      }
    }
  }

  /** A unit ends where a different kind begins. */
  lemma {:induction false} EndChangesKind(u: Properties, raw: seq<byte>, index: nat, kind: Kind)
    requires index <= |raw|
    ensures var end := End(u, raw, index, kind);
      end < |raw| ==> Classify(u, raw, end).kind != kind && (kind == Word ==> Classify(u, raw, end).kind != Number)
    decreases |raw| - index
  {
    hide Classify, BehindConnector;
    if index < |raw| {
      var next := Advance(u, raw, index, kind);
      if next.Some? {
        EndChangesKind(u, raw, next.value, kind);
      } else if kind == Number {
        var suffix := BehindConnector(u, raw, index, IsNumberSuffixConnector, {Word});
        if suffix.Some? {
          EndChangesKind(u, raw, suffix.value, Word);
        }
      }
    }
  }

  predicate KindsDiffer(units: seq<Unit>) {
    forall i: nat | 0 < i < |units| :: units[i - 1].kind != units[i].kind
  }

  lemma KindsDifferPush(unit: Unit, rest: seq<Unit>)
    requires KindsDiffer(rest) && (rest != [] ==> rest[0].kind != unit.kind)
    ensures KindsDiffer([unit] + rest)
  {
    var units := [unit] + rest;
    forall i: nat | 0 < i < |units|
      ensures units[i - 1].kind != units[i].kind
    {
      assert units[i] == rest[i - 1];
      if i > 1 {
        assert rest[i - 1 - 1].kind != rest[i - 1].kind;
      }
    }
  }

  /** Adjacent units never share a kind. */
  lemma {:induction false} AdjacentKindsDiffer(u: Properties, raw: seq<byte>, index: nat)
    requires index <= |raw|
    ensures KindsDiffer(Units(u, raw, index))
    decreases |raw| - index
  {
    hide Classify, End, KindsDiffer;
    if index < |raw| {
      var c := Classify(u, raw, index);
      var unit := UnitAt(u, raw, index);
      AdjacentKindsDiffer(u, raw, unit.end);
      EndChangesKind(u, raw, index + c.width, c.kind);
      KindsDifferPush(unit, Units(u, raw, unit.end));
    } else {
      NoKinds();
    }
  }

  lemma NoKinds()
    ensures KindsDiffer([])
  {
  }

  /** The bytes a unit grows by: text, or bytes at which no text starts; no backtick outside
      punctuation. */
  ghost predicate Fits(raw: seq<byte>, start: nat, end: nat, kind: Kind)
    requires start <= end <= |raw|
  {
    && (kind == Opaque ==> forall k: nat | start <= k < end :: !StartsScalar(raw, k))
    && (kind != Opaque ==> WellFormed(raw[start..end]))
    && (kind != Punctuation ==> forall k: nat | start <= k < end :: raw[k] != '`' as int)
  }

  lemma FitsConcat(raw: seq<byte>, start: nat, middle: nat, end: nat, kind: Kind)
    requires start <= middle <= end <= |raw|
    requires Fits(raw, start, middle, kind) && Fits(raw, middle, end, kind)
    ensures Fits(raw, start, end, kind)
  {
    hide WellFormed, StartsScalar;
    if kind != Opaque {
      WellFormedConcat(raw[start..middle], raw[middle..end]);
      assert raw[start..end] == raw[start..middle] + raw[middle..end];
    }
  }

  lemma ClassFits(u: Properties, raw: seq<byte>, index: nat)
    requires index < |raw|
    ensures var c := Classify(u, raw, index);
      Fits(raw, index, index + c.width, c.kind)
  {
    hide Classify, WellFormed, StartsScalar;
    ClassifyText(u, raw, index);
    if Classify(u, raw, index).kind != Punctuation {
      ClassifyBacktick(u, raw, index);
    }
  }

  /** A scalar that is no backtick fits every kind of text but punctuation. */
  lemma ScalarFits(raw: seq<byte>, index: nat, kind: Kind)
    requires ScalarAt(raw, index).Some? && ScalarAt(raw, index).value.0 != '`' as int
    requires kind != Opaque && kind != Punctuation
    ensures Fits(raw, index, index + ScalarAt(raw, index).value.1, kind)
  {
    hide DecodeAt, WellFormed, StartsScalar;
    if raw[index] < 0x80 {
      WellFormedAscii(raw[index..index + 1]);
    } else {
      DecodedText(raw, index);
      DecodedBytes(raw, index);
    }
  }

  lemma FitsOther(raw: seq<byte>, start: nat, end: nat, kind: Kind, other: Kind)
    requires start <= end <= |raw| && Fits(raw, start, end, kind)
    requires kind !in {Opaque, Punctuation} && other !in {Opaque, Punctuation}
    ensures Fits(raw, start, end, other)
  {
  }

  lemma ConnectorFits(u: Properties, raw: seq<byte>, index: nat, isConnector: int -> bool, kinds: set<Kind>, kind: Kind)
    requires kind !in {Opaque, Punctuation} && !isConnector('`' as int)
    requires BehindConnector(u, raw, index, isConnector, kinds).Some?
    ensures Fits(raw, index, BehindConnector(u, raw, index, isConnector, kinds).value, kind)
  {
    hide ScalarAt, Classify, Fits;
    ScalarFits(raw, index, kind);
  }

  lemma AdvanceFits(u: Properties, raw: seq<byte>, index: nat, kind: Kind)
    requires index < |raw| && Advance(u, raw, index, kind).Some?
    ensures Fits(raw, index, Advance(u, raw, index, kind).value, kind)
  {
    hide Classify, ScalarAt, Fits, BehindConnector;
    var c := Classify(u, raw, index);
    ClassFits(u, raw, index);
    if kind == Word && c.kind !in {Word, Number} {
      ConnectorFits(u, raw, index, IsWordConnector, {Word, Number}, Word);
    } else if kind == Word {
      FitsOther(raw, index, index + c.width, c.kind, Word);
    } else if kind == Number && c.kind != Number {
      ConnectorFits(u, raw, index, IsNumberSeparator, {Number}, Number);
    } else if kind == Symbol && c.kind != Symbol {
      JoinerFits(u, raw, index);
    }
  }

  lemma JoinerFits(u: Properties, raw: seq<byte>, index: nat)
    requires index < |raw| && Classify(u, raw, index).kind != Symbol && Advance(u, raw, index, Symbol).Some?
    ensures Fits(raw, index, Advance(u, raw, index, Symbol).value, Symbol)
  {
    hide DecodeAt, Fits;
    var c := Classify(u, raw, index);
    assert ScalarAt(raw, index) == Some((ZERO_WIDTH_JOINER, c.width));
    ScalarFits(raw, index, Symbol);
    ClassFits(u, raw, index + c.width);
    FitsConcat(raw, index, index + c.width, Advance(u, raw, index, Symbol).value, Symbol);
  }

  lemma {:induction false} EndFits(u: Properties, raw: seq<byte>, index: nat, kind: Kind)
    requires index <= |raw|
    ensures Fits(raw, index, End(u, raw, index, kind), kind)
    decreases |raw| - index
  {
    hide Advance, BehindConnector, Fits, IsNumberSuffixConnector;
    if index == |raw| || (Advance(u, raw, index, kind).None? && kind != Number) {
      EmptyFits(raw, index, kind);
    } else {
      var next := Advance(u, raw, index, kind);
      if next.Some? {
        AdvanceFits(u, raw, index, kind);
        EndFits(u, raw, next.value, kind);
        FitsConcat(raw, index, next.value, End(u, raw, index, kind), kind);
      } else {
        SuffixFits(u, raw, index);
      }
    }
  }

  lemma EmptyFits(raw: seq<byte>, index: nat, kind: Kind)
    requires index <= |raw|
    ensures Fits(raw, index, index, kind)
  {
    WellFormedEmpty();
  }

  lemma {:induction false} SuffixFits(u: Properties, raw: seq<byte>, index: nat)
    requires index < |raw| && Advance(u, raw, index, Number).None?
    ensures Fits(raw, index, End(u, raw, index, Number), Number)
    decreases |raw| - index, 0
  {
    hide Advance, BehindConnector, Fits;
    var suffix := BehindConnector(u, raw, index, IsNumberSuffixConnector, {Word});
    if suffix.Some? {
      ConnectorFits(u, raw, index, IsNumberSuffixConnector, {Word}, Number);
      EndFits(u, raw, suffix.value, Word);
      var end := End(u, raw, suffix.value, Word);
      FitsOther(raw, suffix.value, end, Word, Number);
      FitsConcat(raw, index, suffix.value, end, Number);
    } else {
      EmptyFits(raw, index, Number);
    }
  }

  /** Every unit is well-formed text, or consists of bytes at which no text starts. */
  lemma {:induction false} UnitsFit(u: Properties, raw: seq<byte>, index: nat)
    requires index <= |raw|
    ensures forall unit | unit in Units(u, raw, index) ::
      index <= unit.start <= unit.end <= |raw| && Fits(raw, unit.start, unit.end, unit.kind)
    decreases |raw| - index
  {
    hide Classify, End, Fits;
    if index < |raw| {
      var c := Classify(u, raw, index);
      var unit := UnitAt(u, raw, index);
      ClassFits(u, raw, index);
      EndFits(u, raw, index + c.width, c.kind);
      FitsConcat(raw, index, index + c.width, unit.end, c.kind);
      UnitsFit(u, raw, unit.end);
      assert Units(u, raw, index) == [unit] + Units(u, raw, unit.end);
    }
  }

  /** The hint the tracker accumulates: a punctuation unit holds a backtick. */
  predicate HasBacktick(raw: seq<byte>, units: seq<Unit>)
    requires forall unit | unit in units :: unit.start <= unit.end <= |raw|
  {
    if units == [] then false
    else
      var last := units[|units| - 1];
      || HasBacktick(raw, units[..|units| - 1])
      || (last.kind == Punctuation && '`' as int in raw[last.start..last.end])
  }

  lemma {:induction false} HasBacktickIn(raw: seq<byte>, units: seq<Unit>)
    requires forall unit | unit in units :: unit.start <= unit.end <= |raw|
    ensures HasBacktick(raw, units)
       <==> exists unit :: unit in units && unit.kind == Punctuation && '`' as int in raw[unit.start..unit.end]
  {
    if units != [] {
      var body, last := units[..|units| - 1], units[|units| - 1];
      HasBacktickIn(raw, body);
      assert units == body + [last];
    }
  }

  lemma {:induction false} TilesCover(units: seq<Unit>, index: nat, end: nat, k: nat)
    requires Tiles(units, index, end) && index <= k < end
    ensures exists unit :: unit in units && unit.start <= k < unit.end
    decreases |units|
  {
    if k < units[0].end {
      assert units[0] in units;
    } else {
      TilesCover(units[1..], units[0].end, end, k);
      var unit :| unit in units[1..] && unit.start <= k < unit.end;
      assert unit in units;
    }
  }

  /** The backtick hint is exact, so skipping the search for code spans without it is safe. */
  lemma {:induction false} BacktickExact(u: Properties, raw: seq<byte>)
    ensures forall unit | unit in Units(u, raw, 0) :: unit.start <= unit.end <= |raw|
    ensures HasBacktick(raw, Units(u, raw, 0)) <==> '`' as int in raw
  {
    hide Units, HasBacktick;
    var units := Units(u, raw, 0);
    UnitsFit(u, raw, 0);
    UnitsTile(u, raw, 0);
    HasBacktickIn(raw, units);
    if '`' as int in raw {
      var k: nat :| k < |raw| && raw[k] == '`' as int;
      TilesCover(units, 0, |raw|, k);
      var unit :| unit in units && unit.start <= k < unit.end;
      assert Fits(raw, unit.start, unit.end, unit.kind);
      assert raw[unit.start..unit.end][k - unit.start] == raw[k];
    }
  }

  /** The simple form of a run: scalars of one kind. */
  function SameKindEnd(u: Properties, raw: seq<byte>, index: nat, target: Kind): (end: nat)
    requires index <= |raw|
    ensures index <= end <= |raw|
    decreases |raw| - index
  {
    if index == |raw| then index
    else
      var c := Classify(u, raw, index);
      if c.kind == target then SameKindEnd(u, raw, index + c.width, target) else index
  }

  lemma {:induction false} SimpleEnd(u: Properties, raw: seq<byte>, index: nat, kind: Kind)
    requires index <= |raw| && kind !in {Word, Number, Symbol}
    ensures End(u, raw, index, kind) == SameKindEnd(u, raw, index, kind)
    decreases |raw| - index
  {
    hide Classify;
    if index < |raw| && Classify(u, raw, index).kind == kind {
      SimpleEnd(u, raw, index + Classify(u, raw, index).width, kind);
    }
  }
}
