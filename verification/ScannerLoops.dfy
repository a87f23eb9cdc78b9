/** The scanner's loops, with their shortcuts for ASCII, against the grouping they implement. */
module ScannerLoops {
  import opened Wrappers
  import opened Bytes
  import opened LexicalClasses
  import opened Scanner
  import LosslessFormat

  // ------------------------------------------------- what the shortcuts rely on

  lemma AsciiKinds(u: Properties, raw: seq<byte>, index: nat)
    requires index < |raw| && raw[index] < 0x80
    ensures var b, c := raw[index], Classify(u, raw, index);
      && (c.kind == Word <==> IsAsciiAlphabetic(b) || b == '_' as int)
      && (c.kind == Number <==> IsAsciiDigit(b))
      && (c.kind == Whitespace <==> IsBlank(b))
      && (c.kind == LineBreak <==> b == 0x0D || b == 0x0A)
      && (c.kind == Control <==> (b < 0x20 && !IsBlank(b) && b != 0x0D && b != 0x0A) || b == 0x7F)
      && (c.kind == Punctuation <==> IsAsciiPunctuation(b) && !(IsOperatorStart(b) && OperatorWidth(raw, index) > 0))
      && c.kind != Opaque
      && (c.kind in {Word, Number, Whitespace, Control, Punctuation} ==> c.width == 1)
      && (c.kind == LineBreak ==>
        c.width == if b == 0x0D && index + 1 < |raw| && raw[index + 1] == 0x0A then 2 else 1)
  {
    hide LongOperator, ShortOperator;
  }

  lemma AsciiScalar(raw: seq<byte>, index: nat)
    requires index < |raw| && raw[index] < 0x80
    ensures ScalarAt(raw, index) == Some((raw[index] as int, 1))
  {
  }

  // ----------------------------------------------------------------- the runs

  method ConsumeSameKindGeneric(u: Properties, raw: seq<byte>, start: nat, target: Kind) returns (index: nat)
    requires start <= |raw|
    ensures index == SameKindEnd(u, raw, start, target)
  {
    hide Classify;
    index := start;
    while index < |raw|
      invariant index <= |raw|
      invariant SameKindEnd(u, raw, index, target) == SameKindEnd(u, raw, start, target)
    {
      var c := Classify(u, raw, index);
      if c.kind != target {
        break;
      }
      index := index + c.width;
    }
  }

  method ConsumeWhitespaceRun(u: Properties, raw: seq<byte>, start: nat) returns (index: nat)
    requires start <= |raw|
    ensures index == SameKindEnd(u, raw, start, Whitespace)
  {
    hide Classify;
    index := start;
    while index < |raw|
      invariant index <= |raw|
      invariant SameKindEnd(u, raw, index, Whitespace) == SameKindEnd(u, raw, start, Whitespace)
    {
      var b := raw[index];
      var width := 1;
      if b < 0x80 {
        AsciiKinds(u, raw, index);
        if !IsBlank(b) {
          break;
        }
      } else {
        var c := Classify(u, raw, index);
        if c.kind != Whitespace {
          break;
        }
        width := c.width;
      }
      index := index + width;
    }
  }

  method ConsumeLineBreakRun(u: Properties, raw: seq<byte>, start: nat) returns (index: nat)
    requires start <= |raw|
    ensures index == SameKindEnd(u, raw, start, LineBreak)
  {
    hide Classify;
    index := start;
    while index < |raw|
      invariant index <= |raw|
      invariant SameKindEnd(u, raw, index, LineBreak) == SameKindEnd(u, raw, start, LineBreak)
    {
      var b := raw[index];
      var width := 1;
      if b < 0x80 {
        AsciiKinds(u, raw, index);
      }
      if b == 0x0D {
        if index + 1 < |raw| && raw[index + 1] == 0x0A {
          width := 2;
        }
      } else if b == 0x0A {
      } else if b < 0x80 {
        break;
      } else {
        var c := Classify(u, raw, index);
        if c.kind != LineBreak {
          break;
        }
        width := c.width;
      }
      index := index + width;
    }
  }

  method ConsumeControlRun(u: Properties, raw: seq<byte>, start: nat) returns (index: nat)
    requires start <= |raw|
    ensures index == SameKindEnd(u, raw, start, Control)
  {
    hide Classify;
    index := start;
    while index < |raw|
      invariant index <= |raw|
      invariant SameKindEnd(u, raw, index, Control) == SameKindEnd(u, raw, start, Control)
    {
      var b := raw[index];
      var width := 1;
      if b < 0x80 {
        AsciiKinds(u, raw, index);
        if !((b < 0x20 && b != 0x0D && b != 0x0A && !IsBlank(b)) || b == 0x7F) {
          break;
        }
      } else {
        var c := Classify(u, raw, index);
        if c.kind != Control {
          break;
        }
        width := c.width;
      }
      index := index + width;
    }
  }

  method ConsumePunctuationRun(u: Properties, raw: seq<byte>, start: nat) returns (index: nat)
    requires start <= |raw|
    ensures index == SameKindEnd(u, raw, start, Punctuation)
  {
    hide Classify, OperatorWidth, IsAsciiPunctuation, IsOperatorStart;
    index := start;
    while index < |raw|
      invariant index <= |raw|
      invariant SameKindEnd(u, raw, index, Punctuation) == SameKindEnd(u, raw, start, Punctuation)
    {
      var b := raw[index];
      var width := 1;
      if b < 0x80 {
        AsciiKinds(u, raw, index);
        if IsOperatorStart(b) && OperatorWidth(raw, index) > 0 {
          break;
        }
        if !IsAsciiPunctuation(b) {
          break;
        }
      } else {
        var c := Classify(u, raw, index);
        if c.kind != Punctuation {
          break;
        }
        width := c.width;
      }
      index := index + width;
    }
  }

  /** Symbols, and symbols behind a zero-width joiner. */
  method ConsumeSymbolRun(u: Properties, raw: seq<byte>, start: nat) returns (index: nat)
    requires start <= |raw|
    ensures index == End(u, raw, start, Symbol)
  {
    hide Classify, ClassifyAscii, OperatorWidth, IsOperatorStart, ScalarAt;
    index := start;
    while index < |raw|
      invariant index <= |raw|
      invariant End(u, raw, index, Symbol) == End(u, raw, start, Symbol)
    {
      var b := raw[index];
      var width;
      if b < 0x80 {
        AsciiScalar(raw, index);
        AsciiClassify(u, raw, index);
        if IsOperatorStart(b) && OperatorWidth(raw, index) > 0 {
          width := OperatorWidth(raw, index);
        } else {
          var c := ClassifyAscii(raw, index);
          if c.kind != Symbol {
            break;
          }
          width := c.width;
        }
      } else {
        var c := Classify(u, raw, index);
        var scalar := ScalarAt(raw, index);
        if c.kind == Symbol {
          width := c.width;
        } else if scalar.Some? && scalar.value.0 == ZERO_WIDTH_JOINER {
          var afterJoiner := index + c.width;
          if afterJoiner >= |raw| {
            break;
          }
          var next := Classify(u, raw, afterJoiner);
          if next.kind != Symbol {
            break;
          }
          width := c.width + next.width;
        } else {
          break;
        }
      }
      index := index + width;
    }
  }

  lemma AsciiClassify(u: Properties, raw: seq<byte>, index: nat)
    requires index < |raw| && raw[index] < 0x80
    ensures Classify(u, raw, index) ==
      if IsOperatorStart(raw[index]) && OperatorWidth(raw, index) > 0 then Class(Symbol, OperatorWidth(raw, index))
      else ClassifyAscii(raw, index)
  {
  }

  method ConsumeWord(u: Properties, raw: seq<byte>, start: nat) returns (index: nat)
    requires start <= |raw|
    ensures index == End(u, raw, start, Word)
  {
    hide Classify, ScalarAt, BehindConnector;
    index := start;
    while index < |raw|
      invariant index <= |raw|
      invariant End(u, raw, index, Word) == End(u, raw, start, Word)
    {
      var b := raw[index];
      if b < 0x80 {
        AsciiKinds(u, raw, index);
      }
      if b < 0x80 && IsWordByte(b) {
        index := index + 1;
        continue;
      }
      if b >= 0x80 {
        var c := Classify(u, raw, index);
        if c.kind in {Word, Number} {
          index := index + c.width;
          continue;
        }
      }
      NoConnector(u, raw, index, IsWordConnector, {Word, Number});
      if b == '\'' as int || b == '-' as int || b >= 0x80 {
        var connector := ConnectorWidth(raw, index, IsWordConnector);
        if connector > 0 {
          var afterConnector := index + connector;
          if afterConnector < |raw| {
            var goesOn := IsWordOrNumberAt(u, raw, afterConnector);
            if goesOn {
              index := afterConnector;
              continue;
            }
          }
        }
      }
      break;
    }
  }

  /** What the checks on a connector have to establish. */
  lemma NoConnector(u: Properties, raw: seq<byte>, index: nat, isConnector: int -> bool, kinds: set<Kind>)
    requires index < |raw|
    ensures var width := if ScalarAt(raw, index).Some? && isConnector(ScalarAt(raw, index).value.0)
                         then ScalarAt(raw, index).value.1 else 0;
      BehindConnector(u, raw, index, isConnector, kinds)
      == if width > 0 && index + width < |raw| && Classify(u, raw, index + width).kind in kinds
         then Some(index + width) else None
    ensures raw[index] < 0x80 ==> ScalarAt(raw, index) == Some((raw[index] as int, 1))
  {
  }

  /** The width of the scalar at a position if it is a connector, else 0. */
  method ConnectorWidth(raw: seq<byte>, index: nat, isConnector: int -> bool) returns (width: nat)
    ensures width
         == if ScalarAt(raw, index).Some? && isConnector(ScalarAt(raw, index).value.0)
            then ScalarAt(raw, index).value.1 else 0
  {
    var scalar := ScalarAt(raw, index);
    if scalar.Some? && isConnector(scalar.value.0) {
      return scalar.value.1;
    }
    return 0;
  }

  method IsWordOrNumberAt(u: Properties, raw: seq<byte>, index: nat) returns (yes: bool)
    requires index < |raw|
    ensures yes == (Classify(u, raw, index).kind in {Word, Number})
  {
    var b := raw[index];
    if b < 0x80 {
      AsciiKinds(u, raw, index);
      return IsWordByte(b);
    }
    return Classify(u, raw, index).kind in {Word, Number};
  }

  method IsNumberAt(u: Properties, raw: seq<byte>, index: nat) returns (yes: bool)
    requires index < |raw|
    ensures yes == (Classify(u, raw, index).kind in {Number})
  {
    var b := raw[index];
    if b < 0x80 {
      AsciiKinds(u, raw, index);
      return IsAsciiDigit(b);
    }
    return Classify(u, raw, index).kind == Number;
  }

  method IsWordAt(u: Properties, raw: seq<byte>, index: nat) returns (yes: bool)
    requires index < |raw|
    ensures yes == (Classify(u, raw, index).kind in {Word})
  {
    var b := raw[index];
    if b < 0x80 {
      AsciiKinds(u, raw, index);
      return IsAsciiAlphabetic(b) || b == '_' as int;
    }
    return Classify(u, raw, index).kind == Word;
  }

  method ConsumeNumber(u: Properties, raw: seq<byte>, start: nat) returns (index: nat)
    requires start <= |raw|
    ensures index == End(u, raw, start, Number)
  {
    hide Classify, ScalarAt, BehindConnector;
    index := start;
    while index < |raw|
      invariant index <= |raw|
      invariant End(u, raw, index, Number) == End(u, raw, start, Number)
    {
      var b := raw[index];
      if b < 0x80 {
        AsciiKinds(u, raw, index);
      }
      if b < 0x80 && IsAsciiDigit(b) {
        index := index + 1;
        continue;
      }
      if b >= 0x80 {
        var c := Classify(u, raw, index);
        if c.kind == Number {
          index := index + c.width;
          continue;
        }
      }
      var number := NumberBehindSeparator(u, raw, index);
      if number.Some? {
        index := number.value;
        continue;
      }
      var suffix := SuffixBehindConnector(u, raw, index);
      if suffix.Some? {
        index := ConsumeWord(u, raw, suffix.value);
        return;
      }
      break;
    }
  }

  /** Where a number goes on behind a separator. */
  method NumberBehindSeparator(u: Properties, raw: seq<byte>, index: nat) returns (behind: Option<nat>)
    requires index < |raw|
    ensures behind == BehindConnector(u, raw, index, IsNumberSeparator, {Number})
  {
    hide Classify, ScalarAt, BehindConnector;
    var b := raw[index];
    NoConnector(u, raw, index, IsNumberSeparator, {Number});
    if b as char in {'.', ',', ':', '/', '-'} || b >= 0x80 {
      var separator := ConnectorWidth(raw, index, IsNumberSeparator);
      if separator > 0 {
        var afterSeparator := index + separator;
        if afterSeparator < |raw| {
          var goesOn := IsNumberAt(u, raw, afterSeparator);
          if goesOn {
            return Some(afterSeparator);
          }
        }
      }
    }
    return None;
  }

  /** Where the suffix of a number starts behind an apostrophe. */
  method SuffixBehindConnector(u: Properties, raw: seq<byte>, index: nat) returns (behind: Option<nat>)
    requires index < |raw|
    ensures behind == BehindConnector(u, raw, index, IsNumberSuffixConnector, {Word})
  {
    hide Classify, ScalarAt, BehindConnector;
    var b := raw[index];
    NoConnector(u, raw, index, IsNumberSuffixConnector, {Word});
    if b == '\'' as int || b >= 0x80 {
      var connector := ConnectorWidth(raw, index, IsNumberSuffixConnector);
      if connector > 0 {
        var afterConnector := index + connector;
        if afterConnector < |raw| {
          var suffix := IsWordAt(u, raw, afterConnector);
          if suffix {
            return Some(afterConnector);
          }
        }
      }
    }
    return None;
  }

  method ConsumeSameKind(u: Properties, raw: seq<byte>, start: nat, target: Kind) returns (index: nat)
    requires start <= |raw| && target != Word && target != Number
    ensures index == End(u, raw, start, target)
  {
    hide End, SameKindEnd;
    match target {
      case Whitespace => index := ConsumeWhitespaceRun(u, raw, start);
      case LineBreak => index := ConsumeLineBreakRun(u, raw, start);
      case Control => index := ConsumeControlRun(u, raw, start);
      case Punctuation => index := ConsumePunctuationRun(u, raw, start);
      case Symbol => index := ConsumeSymbolRun(u, raw, start);
      case Opaque => index := ConsumeSameKindGeneric(u, raw, start, target);
    }
    if target != Symbol {
      SimpleEnd(u, raw, start, target);
    }
  }

  /** One step of every scanning loop. */
  method ScanUnit(u: Properties, raw: seq<byte>, start: nat) returns (unit: Unit)
    requires start < |raw|
    ensures unit == UnitAt(u, raw, start)
  {
    hide End, Classify;
    var c := Classify(u, raw, start);
    var index := start + c.width;
    match c.kind {
      case Word => index := ConsumeWord(u, raw, index);
      case Number => index := ConsumeNumber(u, raw, index);
      case _ => index := ConsumeSameKind(u, raw, index, c.kind);
    }
    unit := Unit(start, index, c.kind);
  }

  // ------------------------------------------------------------- the scanners

  /** The part of the code hint tracker that decides whether explicit code spans are searched. */
  class CodeHintTracker {
    var hasBacktick: bool

    constructor ()
      ensures !hasBacktick
    {
      hasBacktick := false;
    }

    method Observe(kind: Kind, bytes: seq<byte>)
      modifies this
      ensures hasBacktick == (old(hasBacktick) || (kind == Punctuation && '`' as int in bytes))
    {
      if kind == LineBreak {
        return;
      }
      if kind == Whitespace {
        return;
      }
      if kind == Punctuation && '`' as int in bytes {
        hasBacktick := true;
      }
    }
  }

  lemma {:induction false} HasBacktickPush(raw: seq<byte>, units: seq<Unit>, unit: Unit)
    requires forall v | v in units :: v.start <= v.end <= |raw|
    requires unit.start <= unit.end <= |raw|
    ensures HasBacktick(raw, units + [unit])
         == (HasBacktick(raw, units) || (unit.kind == Punctuation && '`' as int in raw[unit.start..unit.end]))
  {
    assert (units + [unit])[..|units|] == units;
  }

  /** The scan into parallel lists of spans and kinds; the units are those of the grouping. */
  method ScanCompact(u: Properties, raw: seq<byte>)
    returns (spans: seq<(nat, nat)>, kinds: seq<Kind>, hasBacktick: bool)
    ensures |spans| == |kinds| && Zip(spans, kinds) == Units(u, raw, 0)
    ensures hasBacktick == ('`' as int in raw)
  {
    hide UnitAt, HasBacktick;
    spans, kinds := [], [];
    var tracker := new CodeHintTracker();
    var index := 0;
    ghost var units: seq<Unit> := [];
    NoBacktick(raw);
    while index < |raw|
      invariant index <= |raw|
      invariant |spans| == |kinds| && Zip(spans, kinds) == units
      invariant units + Units(u, raw, index) == Units(u, raw, 0)
      invariant forall v | v in units :: v.start <= v.end <= |raw|
      invariant tracker.hasBacktick == HasBacktick(raw, units)
    {
      var unit := ScanUnit(u, raw, index);
      UnitsStep(u, raw, units, index);
      HasBacktickPush(raw, units, unit);
      tracker.Observe(unit.kind, raw[index..unit.end]);
      ZipPush(spans, kinds, unit);
      spans, kinds := spans + [(index, unit.end)], kinds + [unit.kind];
      units := units + [unit];
      index := unit.end;
    }
    BacktickExact(u, raw);
    hasBacktick := tracker.hasBacktick;
  }

  lemma {:induction false} NoBacktick(raw: seq<byte>)
    ensures !HasBacktick(raw, [])
  {
  }

  function Zip(spans: seq<(nat, nat)>, kinds: seq<Kind>): seq<Unit>
    requires |spans| == |kinds|
  {
    seq(|spans|, i requires 0 <= i < |spans| && |spans| == |kinds| => Unit(spans[i].0, spans[i].1, kinds[i]))
  }

  lemma ZipPush(spans: seq<(nat, nat)>, kinds: seq<Kind>, unit: Unit)
    requires |spans| == |kinds|
    ensures Zip(spans + [(unit.start, unit.end)], kinds + [unit.kind]) == Zip(spans, kinds) + [unit]
  {
  }

  lemma {:induction false} UnitsStep(u: Properties, raw: seq<byte>, before: seq<Unit>, index: nat)
    requires index < |raw|
    ensures var unit := UnitAt(u, raw, index);
      before + Units(u, raw, index) == (before + [unit]) + Units(u, raw, unit.end)
  {
    hide UnitAt;
  }

  /** The scan into units, with the checks it makes of its own result. */
  method Scan(u: Properties, raw: seq<byte>) returns (result: Option<(seq<Unit>, bool)>)
    ensures result == Some((Units(u, raw, 0), '`' as int in raw))
  {
    hide Units, SurfacesValid;
    var spans, kinds, hasBacktick := ScanCompact(u, raw);
    UnitsTile(u, raw, 0);
    SpansOfTiles(spans, kinds, |raw|);
    var document := LosslessFormat.LosslessDocument(raw, Surfaces(spans));
    var ok := ValidateScan(document, kinds);
    result := if ok then Some((Zip(spans, kinds), hasBacktick)) else None;
  }

  /** Units without cuts on the spans. */
  function Surfaces(spans: seq<(nat, nat)>): (units: seq<LosslessFormat.SurfaceUnit>)
    ensures |units| == |spans|
  {
    seq(|spans|, i requires 0 <= i < |spans| => LosslessFormat.SurfaceUnit(spans[i].0, spans[i].1, []))
  }

  function SpansOf(units: seq<LosslessFormat.SurfaceUnit>): (spans: seq<(nat, nat)>)
    ensures |spans| == |units|
  {
    seq(|units|, i requires 0 <= i < |units| => (units[i].start, units[i].end))
  }

  /** Every span starts where the one before ended, and the last one ends with the document. */
  predicate Contiguous(spans: seq<(nat, nat)>, length: nat) {
    && (forall i: nat | 0 < i < |spans| :: spans[i].0 == spans[i - 1].1)
    && if spans == [] then length == 0 else spans[0].0 == 0 && spans[|spans| - 1].1 == length
  }

  predicate SurfacesValid(spans: seq<(nat, nat)>, length: nat) {
    LosslessFormat.UnitsValid(Surfaces(spans), length)
  }

  lemma SpansOfTiles(spans: seq<(nat, nat)>, kinds: seq<Kind>, length: nat)
    requires |spans| == |kinds| && Tiles(Zip(spans, kinds), 0, length)
    ensures Contiguous(spans, length) && SurfacesValid(spans, length) && SpansOf(Surfaces(spans)) == spans
    ensures forall i: nat | i < |spans| :: spans[i].0 <= spans[i].1
  {
    var units := Zip(spans, kinds);
    TilesAdjoin(units, 0, length);
    forall i: nat | i < |spans|
      ensures 0 <= spans[i].0 < spans[i].1 <= length && (i > 0 ==> spans[i].0 == spans[i - 1].1)
    {
      assert units[i].start == spans[i].0 && units[i].end == spans[i].1;
      assert i > 0 ==> units[i - 1].end == units[i].start;
    }
  }

  /** The checks of a scan: a valid lossless document, one kind for each unit, and contiguous units. */
  method ValidateScan(document: LosslessFormat.LosslessDocument, kinds: seq<Kind>) returns (ok: bool)
    requires forall i: nat | i < |document.units| :: document.units[i].start <= document.units[i].end
    ensures ok <==>
      && LosslessFormat.UnitsValid(document.units, |document.raw|) && |kinds| == |document.units|
      && Contiguous(SpansOf(document.units), |document.raw|)
  {
    hide LosslessFormat.UnitsValid;
    var valid := LosslessFormat.ValidateDocument(document);
    if !valid {
      return false;
    }
    ok := ValidateCoverage(SpansOf(document.units), kinds, |document.raw|);
  }

  /** One kind for each span, and contiguous spans. */
  method ValidateCoverage(spans: seq<(nat, nat)>, kinds: seq<Kind>, length: nat) returns (ok: bool)
    ensures ok <==> |spans| == |kinds| && Contiguous(spans, length)
  {
    if |spans| != |kinds| {
      return false;
    }
    var expected := 0;
    for i := 0 to |spans|
      invariant Contiguous(spans[..i], expected)
    {
      if spans[i].0 != expected {
        StartsElsewhere(spans, i, expected, length);
        return false;
      }
      expected := spans[i].1;
    }
    assert spans[..|spans|] == spans;
    ok := expected == length;
  }

  lemma StartsElsewhere(spans: seq<(nat, nat)>, i: nat, expected: nat, length: nat)
    requires i < |spans| && Contiguous(spans[..i], expected) && spans[i].0 != expected
    ensures !Contiguous(spans, length)
  {
    if i > 0 {
      assert spans[..i][i - 1].1 == expected;
      assert spans[i].0 != spans[i - 1].1;
    }
  }

  /** The streaming scanner. */
  class LexicalSpanIter {
    const u: Properties
    const raw: seq<byte>
    var index: nat

    constructor (u: Properties, raw: seq<byte>)
      ensures this.u == u && this.raw == raw && index == 0
    {
      this.u, this.raw := u, raw;
      index := 0;
    }

    /** The units that are still to come. */
    ghost function Remaining(): seq<Unit>
      requires index <= |raw|
      reads this
    {
      Units(u, raw, index)
    }

    method Next() returns (unit: Option<Unit>)
      requires index <= |raw|
      modifies this
      ensures index <= |raw|
      ensures unit.None? <==> old(Remaining()) == []
      ensures unit.Some? ==> old(Remaining()) == [unit.value] + Remaining()
      ensures unit.None? ==> index == old(index)
    {
      if index >= |raw| {
        return None;
      }
      var next := ScanUnit(u, raw, index);
      index := next.end;
      return Some(next);
    }
  }

  /** The streaming scanner that also tracks hints. */
  class HintedLexicalSpanIter {
    const u: Properties
    const raw: seq<byte>
    const tracker: CodeHintTracker
    var index: nat
    ghost var yielded: seq<Unit>

    ghost predicate Valid()
      reads this, tracker
    {
      && index <= |raw|
      && yielded + Units(u, raw, index) == Units(u, raw, 0)
      && (forall v | v in yielded :: v.start <= v.end <= |raw|)
      && tracker.hasBacktick == HasBacktick(raw, yielded)
    }

    constructor (u: Properties, raw: seq<byte>)
      ensures Valid() && fresh(tracker) && this.u == u && this.raw == raw && yielded == []
    {
      this.u, this.raw := u, raw;
      tracker := new CodeHintTracker();
      index, yielded := 0, [];
      new;
    }

    method Next() returns (unit: Option<Unit>)
      requires Valid()
      modifies this, tracker
      ensures Valid()
      ensures unit.None? <==> old(index) == |raw|
      ensures yielded == old(yielded) + if unit.Some? then [unit.value] else []
    {
      hide UnitAt, HasBacktick;
      if index >= |raw| {
        return None;
      }
      var next := ScanUnit(u, raw, index);
      UnitsStep(u, raw, yielded, index);
      HasBacktickPush(raw, yielded, next);
      tracker.Observe(next.kind, raw[index..next.end]);
      yielded := yielded + [next];
      index := next.end;
      return Some(next);
    }

    /** Once drained, the iterator has yielded the units of the scan and its hint is exact. */
    method IntoHints() returns (hasBacktick: bool)
      requires Valid() && index == |raw|
      ensures yielded == Units(u, raw, 0)
      ensures hasBacktick == ('`' as int in raw)
    {
      hide HasBacktick, UnitAt;
      BacktickExact(u, raw);
      assert yielded + [] == yielded;
      hasBacktick := tracker.hasBacktick;
    }
  }
}
