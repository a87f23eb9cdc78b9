/** Where the units of the scanner end, told from the bytes. */
module UnitEnds {
  import opened Wrappers
  import opened Bytes
  import opened Utf8
  import opened LexicalClasses
  import opened Scanner

  predicate Stands(raw: seq<byte>, k: nat, code: seq<byte>) {
    k + |code| <= |raw| && raw[k..k + |code|] == code
  }

  /** An apostrophe, a right single quotation mark, a hyphen-minus, a hyphen or a non-breaking hyphen. */
  predicate JoinsWords(code: seq<byte>) {
    code == [0x27] || code == [0xE2, 0x80, 0x99] || code == [0x2D] || code == [0xE2, 0x80, 0x90] || code == [0xE2, 0x80, 0x91]
  }

  /** A full stop, a comma, a colon, a slash, a hyphen-minus or one of the two Arabic separators. */
  predicate JoinsNumbers(code: seq<byte>) {
    || code == [0x2E] || code == [0x2C] || code == [0x3A] || code == [0x2F] || code == [0x2D]
    || code == [0xD9, 0xAB] || code == [0xD9, 0xAC]
  }

  /** An apostrophe or a right single quotation mark, before the suffix of a number. */
  predicate JoinsSuffix(code: seq<byte>) {
    code == [0x27] || code == [0xE2, 0x80, 0x99]
  }

  predicate KindIn(u: Properties, raw: seq<byte>, k: nat, kinds: set<Kind>) {
    k < |raw| && Classify(u, raw, k).kind in kinds
  }

  function Behind(u: Properties, raw: seq<byte>, k: nat): nat
    requires k < |raw|
  {
    k + Classify(u, raw, k).width
  }

  /** A word that reaches `k` goes on to `next`. */
  ghost predicate WordGrows(u: Properties, raw: seq<byte>, k: nat, next: nat) {
    if KindIn(u, raw, k, {Word, Number}) then next == Behind(u, raw, k)
    else exists code :: JoinsWords(code) && Stands(raw, k, code) && next == k + |code| && KindIn(u, raw, next, {Word, Number})
  }

  ghost predicate NumberGrows(u: Properties, raw: seq<byte>, k: nat, next: nat) {
    if KindIn(u, raw, k, {Number}) then next == Behind(u, raw, k)
    else exists code :: JoinsNumbers(code) && Stands(raw, k, code) && next == k + |code| && KindIn(u, raw, next, {Number})
  }

  /** Behind the suffix mark a number goes on as a word. */
  ghost predicate TakesSuffix(u: Properties, raw: seq<byte>, k: nat, next: nat) {
    && !KindIn(u, raw, k, {Number})
    && exists code :: JoinsSuffix(code) && Stands(raw, k, code) && next == k + |code| && KindIn(u, raw, next, {Word})
  }

  /** Symbols are held together by a zero-width joiner. */
  ghost predicate SymbolGrows(u: Properties, raw: seq<byte>, k: nat, next: nat) {
    if KindIn(u, raw, k, {Symbol}) then next == Behind(u, raw, k)
    else Stands(raw, k, [0xE2, 0x80, 0x8D]) && KindIn(u, raw, k + 3, {Symbol}) && next == Behind(u, raw, k + 3)
  }

  /** A run of the kind that reaches `k` goes on to `next`, as a run of the kind `as_`. */
  ghost predicate Grows(u: Properties, raw: seq<byte>, kind: Kind, k: nat, as_: Kind, next: nat) {
    match kind
    case Word => as_ == Word && WordGrows(u, raw, k, next)
    case Number => (as_ == Number && NumberGrows(u, raw, k, next)) || (as_ == Word && TakesSuffix(u, raw, k, next))
    case Symbol => as_ == Symbol && SymbolGrows(u, raw, k, next)
    case _ => as_ == kind && KindIn(u, raw, k, {kind}) && next == Behind(u, raw, k)
  }

  /** A unit reaches from its first scalar over the stops to its end, and cannot go on there. */
  ghost predicate Reaches(u: Properties, raw: seq<byte>, kind: Kind, from: nat, stops: seq<(Kind, nat)>, end: nat) {
    && |stops| > 0 && stops[0] == (kind, from) && stops[|stops| - 1].1 == end
    && (forall i: nat | 0 < i < |stops| :: Grows(u, raw, stops[i - 1].0, stops[i - 1].1, stops[i].0, stops[i].1))
    && Stuck(u, raw, stops[|stops| - 1].0, end)
  }

  ghost predicate Stuck(u: Properties, raw: seq<byte>, kind: Kind, end: nat) {
    forall as_: Kind, next: nat :: !Grows(u, raw, kind, end, as_, next)
  }

  // ------------------------------------------------------------ scalars and their bytes

  lemma AsciiStands(raw: seq<byte>, k: nat, b: byte)
    requires b < 0x80
    ensures ScalarAt(raw, k) == Some((b as int, 1)) <==> Stands(raw, k, [b])
  {
    if k < |raw| {
      assert raw[k..k + 1] == [raw[k]];
    }
  }

  lemma FirstIsLong(value: int)
    requires IsScalar(value) && value >= 0x80
    ensures Utf8.Encode(value)[0] >= 0xC0
  {
  }

  lemma ScalarStands(raw: seq<byte>, k: nat, value: int)
    requires IsScalar(value) && value >= 0x80
    ensures ScalarAt(raw, k) == Some((value, |Utf8.Encode(value)|)) <==> Stands(raw, k, Utf8.Encode(value))
    ensures (exists width: nat :: ScalarAt(raw, k) == Some((value, width))) ==> Stands(raw, k, Utf8.Encode(value))
  {
    hide Utf8.Encode, DecodeAt;
    FirstIsLong(value);
    if Stands(raw, k, Utf8.Encode(value)) {
      DecodeComplete(raw, k, value);
      EncodedFirst(raw, k, value);
    }
    if k < |raw| && raw[k] >= 0x80 && DecodeAt(raw, k).Some? {
      DecodeSound(raw, k);
    }
  }

  lemma MarkBytes()
    ensures Utf8.Encode(0x2019) == [0xE2, 0x80, 0x99] && Utf8.Encode(0x2010) == [0xE2, 0x80, 0x90]
    ensures Utf8.Encode(0x2011) == [0xE2, 0x80, 0x91] && Utf8.Encode(0x200D) == [0xE2, 0x80, 0x8D]
    ensures Utf8.Encode(0x066B) == [0xD9, 0xAB] && Utf8.Encode(0x066C) == [0xD9, 0xAC]
  {
  }

  lemma WordConnectors(raw: seq<byte>, k: nat)
    ensures ScalarAt(raw, k).Some? && IsWordConnector(ScalarAt(raw, k).value.0) ==>
      exists code :: JoinsWords(code) && Stands(raw, k, code) && |code| == ScalarAt(raw, k).value.1
    ensures forall code | JoinsWords(code) && Stands(raw, k, code) ::
      ScalarAt(raw, k).Some? && IsWordConnector(ScalarAt(raw, k).value.0) && ScalarAt(raw, k).value.1 == |code|
  {
    hide ScalarAt;
    MarkBytes();
    AsciiStands(raw, k, 0x27);
    AsciiStands(raw, k, 0x2D);
    ScalarStands(raw, k, 0x2019);
    ScalarStands(raw, k, 0x2010);
    ScalarStands(raw, k, 0x2011);
    AsciiWidth(raw, k);
    if ScalarAt(raw, k).Some? && IsWordConnector(ScalarAt(raw, k).value.0) {
      var v := ScalarAt(raw, k).value.0;
      var code := if v < 0x80 then [v] else Utf8.Encode(v);
      assert JoinsWords(code) && Stands(raw, k, code);
    }
  }

  lemma AsciiWidth(raw: seq<byte>, k: nat)
    ensures ScalarAt(raw, k).Some? && ScalarAt(raw, k).value.0 < 0x80 ==> ScalarAt(raw, k).value.1 == 1
  {
    if ScalarAt(raw, k).Some? && raw[k] >= 0x80 {
      DecodeSound(raw, k);
    }
  }

  lemma NumberConnectors(raw: seq<byte>, k: nat)
    ensures ScalarAt(raw, k).Some? && IsNumberSeparator(ScalarAt(raw, k).value.0) ==>
      exists code :: JoinsNumbers(code) && Stands(raw, k, code) && |code| == ScalarAt(raw, k).value.1
    ensures forall code | JoinsNumbers(code) && Stands(raw, k, code) ::
      ScalarAt(raw, k).Some? && IsNumberSeparator(ScalarAt(raw, k).value.0) && ScalarAt(raw, k).value.1 == |code|
  {
    hide ScalarAt;
    MarkBytes();
    AsciiStands(raw, k, 0x2E);
    AsciiStands(raw, k, 0x2C);
    AsciiStands(raw, k, 0x3A);
    AsciiStands(raw, k, 0x2F);
    AsciiStands(raw, k, 0x2D);
    ScalarStands(raw, k, 0x066B);
    ScalarStands(raw, k, 0x066C);
    AsciiWidth(raw, k);
    if ScalarAt(raw, k).Some? && IsNumberSeparator(ScalarAt(raw, k).value.0) {
      var v := ScalarAt(raw, k).value.0;
      var code := if v < 0x80 then [v] else Utf8.Encode(v);
      assert JoinsNumbers(code) && Stands(raw, k, code);
    }
  }

  lemma SuffixConnectors(raw: seq<byte>, k: nat)
    ensures ScalarAt(raw, k).Some? && IsNumberSuffixConnector(ScalarAt(raw, k).value.0) ==>
      exists code :: JoinsSuffix(code) && Stands(raw, k, code) && |code| == ScalarAt(raw, k).value.1
    ensures forall code | JoinsSuffix(code) && Stands(raw, k, code) ::
      ScalarAt(raw, k).Some? && IsNumberSuffixConnector(ScalarAt(raw, k).value.0) && ScalarAt(raw, k).value.1 == |code|
  {
    hide ScalarAt;
    MarkBytes();
    AsciiStands(raw, k, 0x27);
    ScalarStands(raw, k, 0x2019);
    AsciiWidth(raw, k);
    if ScalarAt(raw, k).Some? && IsNumberSuffixConnector(ScalarAt(raw, k).value.0) {
      var v := ScalarAt(raw, k).value.0;
      var code := if v < 0x80 then [v] else Utf8.Encode(v);
      assert JoinsSuffix(code) && Stands(raw, k, code);
    }
  }

  lemma JoinerStands(raw: seq<byte>, k: nat)
    ensures ScalarAt(raw, k).Some? && ScalarAt(raw, k).value.0 == ZERO_WIDTH_JOINER <==> Stands(raw, k, [0xE2, 0x80, 0x8D])
    ensures Stands(raw, k, [0xE2, 0x80, 0x8D]) ==> ScalarAt(raw, k).value.1 == 3
  {
    hide ScalarAt;
    MarkBytes();
    ScalarStands(raw, k, 0x200D);
  }

  // ------------------------------------------------------------ one step

  lemma WordStep(u: Properties, raw: seq<byte>, k: nat, next: nat)
    requires k < |raw|
    ensures Advance(u, raw, k, Word) == Some(next) <==> WordGrows(u, raw, k, next)
  {
    hide ScalarAt, Classify, IsWordConnector, JoinsWords, Stands;
    WordConnectors(raw, k);
  }

  lemma NumberStep(u: Properties, raw: seq<byte>, k: nat, next: nat)
    requires k < |raw|
    ensures Advance(u, raw, k, Number) == Some(next) <==> NumberGrows(u, raw, k, next)
  {
    hide ScalarAt, Classify, IsNumberSeparator, JoinsNumbers, Stands;
    NumberConnectors(raw, k);
  }

  lemma SuffixStep(u: Properties, raw: seq<byte>, k: nat, next: nat)
    requires k < |raw| && !KindIn(u, raw, k, {Number})
    ensures BehindConnector(u, raw, k, IsNumberSuffixConnector, {Word}) == Some(next) <==> TakesSuffix(u, raw, k, next)
  {
    hide ScalarAt, Classify, IsNumberSuffixConnector, JoinsSuffix, Stands;
    SuffixConnectors(raw, k);
  }

  lemma SymbolStep(u: Properties, raw: seq<byte>, k: nat, next: nat)
    requires k < |raw|
    ensures Advance(u, raw, k, Symbol) == Some(next) <==> SymbolGrows(u, raw, k, next)
  {
    hide ScalarAt, DecodeAt, Stands, ClassifyAscii, ScalarKind;
    JoinerStands(raw, k);
    JoinerWidth(u, raw, k);
  }

  lemma JoinerWidth(u: Properties, raw: seq<byte>, k: nat)
    requires k < |raw|
    ensures ScalarAt(raw, k).Some? && ScalarAt(raw, k).value.0 >= 0x80 ==> Classify(u, raw, k).width == ScalarAt(raw, k).value.1
  {
  }

  /** No bytes at the end to go on with. */
  lemma AtEnd(u: Properties, raw: seq<byte>, kind: Kind)
    ensures Stuck(u, raw, kind, |raw|)
  {
    hide Classify;
    forall as_: Kind, next: nat
      ensures !Grows(u, raw, kind, |raw|, as_, next)
    {
      forall code: seq<byte> | Stands(raw, |raw|, code)
        ensures code == []
      {
      }
    }
  }

  lemma StandsFirst(raw: seq<byte>, k: nat, code: seq<byte>)
    requires Stands(raw, k, code) && code != []
    ensures raw[k] == code[0]
  {
    assert raw[k..k + |code|][0] == raw[k];
  }

  lemma NoSuffixAtSeparator(u: Properties, raw: seq<byte>, k: nat, next: nat, other: nat)
    requires NumberGrows(u, raw, k, next)
    ensures !TakesSuffix(u, raw, k, other)
  {
    hide Classify, Stands;
    if !KindIn(u, raw, k, {Number}) {
      var code :| JoinsNumbers(code) && Stands(raw, k, code) && next == k + |code| && KindIn(u, raw, next, {Number});
      StandsFirst(raw, k, code);
      forall mark | JoinsSuffix(mark)
        ensures !Stands(raw, k, mark)
      {
        if Stands(raw, k, mark) {
          StandsFirst(raw, k, mark);
        }
      }
    }
  }

  /** One step of the grouping: growing in kind, or a number taking its suffix. */
  function Step(u: Properties, raw: seq<byte>, k: nat, kind: Kind): Option<(Kind, nat)>
    requires k < |raw|
  {
    var next := Advance(u, raw, k, kind);
    if next.Some? then Some((kind, next.value))
    else if kind == Number then
      var suffix := BehindConnector(u, raw, k, IsNumberSuffixConnector, {Word});
      if suffix.Some? then Some((Word, suffix.value)) else None
    else None
  }

  lemma StepIs(u: Properties, raw: seq<byte>, k: nat, kind: Kind, as_: Kind, next: nat)
    requires k < |raw|
    ensures Step(u, raw, k, kind) == Some((as_, next)) <==> Grows(u, raw, kind, k, as_, next)
  {
    hide ScalarAt, Classify, BehindConnector, WordGrows, NumberGrows, SymbolGrows, TakesSuffix, Advance;
    if kind == Word {
      WordStep(u, raw, k, next);
    } else if kind == Number {
      NumberStepIs(u, raw, k, as_, next);
    } else if kind == Symbol {
      SymbolStep(u, raw, k, next);
    } else {
      PlainStep(u, raw, k, kind, next);
    }
  }

  lemma PlainStep(u: Properties, raw: seq<byte>, k: nat, kind: Kind, next: nat)
    requires k < |raw| && kind !in {Word, Number, Symbol}
    ensures Advance(u, raw, k, kind) == Some(next) <==> KindIn(u, raw, k, {kind}) && next == Behind(u, raw, k)
  {
    hide Classify;
  }

  lemma NumberStepIs(u: Properties, raw: seq<byte>, k: nat, as_: Kind, next: nat)
    requires k < |raw|
    ensures Step(u, raw, k, Number) == Some((as_, next)) <==> Grows(u, raw, Number, k, as_, next)
  {
    hide ScalarAt, Classify, BehindConnector, WordGrows, NumberGrows, SymbolGrows, TakesSuffix, Advance;
    NumberStep(u, raw, k, next);
    if Advance(u, raw, k, Number).Some? {
      var at := Advance(u, raw, k, Number).value;
      NumberStep(u, raw, k, at);
      NoSuffixAtSeparator(u, raw, k, at, next);
    } else {
      NotANumber(u, raw, k);
      SuffixStep(u, raw, k, next);
    }
  }

  lemma NotANumber(u: Properties, raw: seq<byte>, k: nat)
    requires k < |raw| && Advance(u, raw, k, Number).None?
    ensures !KindIn(u, raw, k, {Number})
  {
    hide Classify, BehindConnector;
  }

  lemma {:induction false} EndIsReached(u: Properties, raw: seq<byte>, k: nat, kind: Kind) returns (stops: seq<(Kind, nat)>)
    requires k <= |raw|
    ensures Reaches(u, raw, kind, k, stops, End(u, raw, k, kind))
    decreases |raw| - k
  {
    hide Advance, BehindConnector, Grows, IsNumberSuffixConnector;
    if k == |raw| {
      AtEnd(u, raw, kind);
      return [(kind, k)];
    }
    var step := Step(u, raw, k, kind);
    if step.None? {
      forall as_: Kind, next: nat
        ensures !Grows(u, raw, kind, k, as_, next)
      {
        StepIs(u, raw, k, kind, as_, next);
      }
      return [(kind, k)];
    }
    var (as_, next) := step.value;
    StepIs(u, raw, k, kind, as_, next);
    var rest := EndIsReached(u, raw, next, as_);
    stops := [(kind, k)] + rest;
    forall i: nat | 0 < i < |stops|
      ensures Grows(u, raw, stops[i - 1].0, stops[i - 1].1, stops[i].0, stops[i].1)
    {
      if i > 1 {
        assert Grows(u, raw, rest[i - 1 - 1].0, rest[i - 1 - 1].1, rest[i - 1].0, rest[i - 1].1);
      }
    }
  }

  /** There is one way to go on, and one end. */
  lemma {:induction false} EndUnique(u: Properties, raw: seq<byte>, kind: Kind, k: nat, stops: seq<(Kind, nat)>, end: nat)
    requires k <= |raw| && Reaches(u, raw, kind, k, stops, end)
    ensures end == End(u, raw, k, kind)
    decreases |stops|
  {
    hide Advance, BehindConnector, Grows, IsNumberSuffixConnector;
    if |stops| == 1 {
      if k < |raw| && Step(u, raw, k, kind).Some? {
        StepIs(u, raw, k, kind, Step(u, raw, k, kind).value.0, Step(u, raw, k, kind).value.1);
      }
    } else {
      var as_, next := stops[1].0, stops[1].1;
      assert Grows(u, raw, stops[1 - 1].0, stops[1 - 1].1, stops[1].0, stops[1].1);
      if k == |raw| {
        AtEnd(u, raw, kind);
      } else {
        StepIs(u, raw, k, kind, as_, next);
        RestReaches(u, raw, kind, k, stops, end);
        EndUnique(u, raw, as_, next, stops[1..], end);
      }
    }
  }

  lemma RestReaches(u: Properties, raw: seq<byte>, kind: Kind, k: nat, stops: seq<(Kind, nat)>, end: nat)
    requires Reaches(u, raw, kind, k, stops, end) && |stops| > 1
    ensures Reaches(u, raw, stops[1].0, stops[1].1, stops[1..], end)
  {
    hide Grows, Stuck;
    var rest := stops[1..];
    forall i: nat | 0 < i < |rest|
      ensures Grows(u, raw, rest[i - 1].0, rest[i - 1].1, rest[i].0, rest[i].1)
    {
      assert Grows(u, raw, stops[i + 1 - 1].0, stops[i + 1 - 1].1, stops[i + 1].0, stops[i + 1].1);
    }
  }

  /** A unit takes its kind from its first scalar and reaches as far as it can. */
  ghost predicate Spelled(u: Properties, raw: seq<byte>, unit: Unit) {
    && unit.start < |raw| && unit.kind == Classify(u, raw, unit.start).kind
    && exists stops: seq<(Kind, nat)> :: Reaches(u, raw, unit.kind, Behind(u, raw, unit.start), stops, unit.end)
  }

  lemma {:induction false} UnitsAreSpelled(u: Properties, raw: seq<byte>, index: nat)
    requires index <= |raw|
    ensures forall unit | unit in Units(u, raw, index) :: Spelled(u, raw, unit)
    decreases |raw| - index
  {
    hide Classify, End, Reaches;
    if index < |raw| {
      var unit := UnitAt(u, raw, index);
      var stops := EndIsReached(u, raw, Behind(u, raw, index), unit.kind);
      UnitsAreSpelled(u, raw, unit.end);
      assert Units(u, raw, index) == [unit] + Units(u, raw, unit.end);
    }
  }

  lemma SpelledIsUnit(u: Properties, raw: seq<byte>, unit: Unit)
    requires Spelled(u, raw, unit)
    ensures unit.start < |raw| && unit == UnitAt(u, raw, unit.start)
  {
    hide Classify, End, Reaches;
    var stops: seq<(Kind, nat)> :| Reaches(u, raw, unit.kind, Behind(u, raw, unit.start), stops, unit.end);
    EndUnique(u, raw, unit.kind, Behind(u, raw, unit.start), stops, unit.end);
  }

  /** The units of the scanner are the only tiling with such units. */
  lemma {:induction false} SpelledUnique(u: Properties, raw: seq<byte>, index: nat, units: seq<Unit>)
    requires index <= |raw| && Tiles(units, index, |raw|) && forall unit | unit in units :: Spelled(u, raw, unit)
    ensures units == Units(u, raw, index)
    decreases |units|
  {
    hide Spelled, UnitAt;
    if units != [] {
      var rest := units[1..];
      assert units[0] in units;
      SpelledIsUnit(u, raw, units[0]);
      assert forall unit | unit in rest :: unit in units;
      SpelledUnique(u, raw, units[0].end, rest);
      assert units == [units[0]] + rest;
    }
  }

  predicate IsLetter(b: byte) {
    0x41 <= b <= 0x5A || 0x61 <= b <= 0x7A
  }

  /** ASCII letters, with apostrophes and hyphens that a letter follows. */
  predicate Compound(raw: seq<byte>) {
    && raw != [] && IsLetter(raw[0])
    && forall k: nat | k < |raw| ::
      IsLetter(raw[k]) || ((raw[k] == 0x27 || raw[k] == 0x2D) && k + 1 < |raw| && IsLetter(raw[k + 1]))
  }

  lemma LetterIsWord(u: Properties, raw: seq<byte>, k: nat)
    requires k < |raw|
    ensures IsLetter(raw[k]) ==> Classify(u, raw, k) == Class(Word, 1)
    ensures (raw[k] == 0x27 || raw[k] == 0x2D) && k + 1 < |raw| && IsLetter(raw[k + 1]) ==>
      Classify(u, raw, k).kind == Punctuation
  {
  }

  lemma {:induction false} CompoundEnd(u: Properties, raw: seq<byte>, k: nat)
    requires Compound(raw) && k <= |raw|
    ensures End(u, raw, k, Word) == |raw|
    decreases |raw| - k
  {
    hide Classify, ScalarAt, IsWordConnector;
    if k < |raw| {
      LetterIsWord(u, raw, k);
      if IsLetter(raw[k]) {
        CompoundEnd(u, raw, k + 1);
      } else {
        LetterIsWord(u, raw, k + 1);
        AsciiStands(raw, k, raw[k]);
        assert raw[k..k + 1] == [raw[k]];
        assert JoinsWords([raw[k]]) && Stands(raw, k, [raw[k]]);
        WordConnectors(raw, k);
        CompoundEnd(u, raw, k + 1);
      }
    }
  }

  /** So "Ankara'da" is one word. */
  lemma CompoundIsOneWord(u: Properties, raw: seq<byte>)
    requires Compound(raw)
    ensures Units(u, raw, 0) == [Unit(0, |raw|, Word)]
  {
    hide Classify, End;
    LetterIsWord(u, raw, 0);
    CompoundEnd(u, raw, 1);
    assert Units(u, raw, |raw|) == [];
  }
}
