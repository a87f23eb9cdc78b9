/** The scanner's classifier: the lexical kind of the scalar or operator at a byte position. */
module LexicalClasses {
  import opened Wrappers
  import opened Bytes
  import opened Utf8

  datatype Kind = Word | Number | Whitespace | LineBreak | Punctuation | Symbol | Control | Opaque

  /** The Unicode property tables, left open. */
  datatype Properties = Properties(
    isWhitespace: int -> bool, isControl: int -> bool, isNumeric: int -> bool, isAlphabetic: int -> bool)

  /** A kind and the number of bytes it was decided on. */
  datatype Class = Class(kind: Kind, width: nat)

  predicate IsAsciiAlphabetic(b: byte) {
    'A' as int <= b <= 'Z' as int || 'a' as int <= b <= 'z' as int
  }

  predicate IsAsciiDigit(b: byte) {
    '0' as int <= b <= '9' as int
  }

  predicate IsWordByte(b: byte) {
    IsAsciiAlphabetic(b) || IsAsciiDigit(b) || b == '_' as int
  }

  /** Space, tab, vertical tab and form feed. */
  predicate IsBlank(b: byte) {
    b == 0x20 || b == 0x09 || b == 0x0B || b == 0x0C
  }

  predicate IsAsciiPunctuation(b: byte) {
    b as char in {
      '.', ',', ';', ':', '!', '?', '\'', '"', '(', ')', '[', ']', '{', '}', '<', '>', '-', '/', '\\', '`'}
  }

  predicate IsOperatorStart(b: byte) {
    b as char in {'=', '!', '<', '>', '*', '/', '?', '-', ':', '&', '|', '+', '%', '^'}
  }

  predicate Pair(first: byte, second: byte, pair: string)
    requires |pair| == 2
  {
    first == pair[0] as int && second == pair[1] as int
  }

  /** The pairs that a third `=` extends. */
  predicate LongOperator(first: byte, second: byte) {
    || Pair(first, second, "==") || Pair(first, second, "!=") || Pair(first, second, "<<") || Pair(first, second, ">>")
    || Pair(first, second, "**") || Pair(first, second, "//") || Pair(first, second, "??")
  }

  predicate ShortOperator(first: byte, second: byte) {
    || Pair(first, second, "<=") || Pair(first, second, ">=") || Pair(first, second, "->") || Pair(first, second, "=>")
    || Pair(first, second, "::") || Pair(first, second, "&&") || Pair(first, second, "||") || Pair(first, second, "++")
    || Pair(first, second, "--") || Pair(first, second, "+=") || Pair(first, second, "-=") || Pair(first, second, "*=")
    || Pair(first, second, "/=") || Pair(first, second, "%=") || Pair(first, second, "&=") || Pair(first, second, "|=")
    || Pair(first, second, "^=") || Pair(first, second, "/*") || Pair(first, second, "*/") || Pair(first, second, "?.")
  }

  /** The width of the operator at a position, 0 if there is none. */
  function OperatorWidth(raw: seq<byte>, index: nat): (width: nat)
    ensures width == 0 || (2 <= width <= 3 && index + width <= |raw|)
  {
    if index + 1 >= |raw| then 0
    else if LongOperator(raw[index], raw[index + 1]) then
      if index + 2 < |raw| && raw[index + 2] == '=' as int then 3 else 2
    else if ShortOperator(raw[index], raw[index + 1]) then 2
    else 0
  }

  function ClassifyAscii(raw: seq<byte>, index: nat): (class_: Class)
    requires index < |raw|
    ensures 1 <= class_.width && index + class_.width <= |raw|
  {
    var b := raw[index];
    if b == 0x0D then
      if index + 1 < |raw| && raw[index + 1] == 0x0A then Class(LineBreak, 2) else Class(LineBreak, 1)
    else if b == 0x0A then Class(LineBreak, 1)
    else if IsBlank(b) then Class(Whitespace, 1)
    else if b < 0x20 || b == 0x7F then Class(Control, 1)
    else if IsAsciiAlphabetic(b) || b == '_' as int then Class(Word, 1)
    else if IsAsciiDigit(b) then Class(Number, 1)
    else if IsAsciiPunctuation(b) then Class(Punctuation, 1)
    else Class(Symbol, 1)
  }

  predicate IsCombiningMark(value: int) {
    || 0x0300 <= value <= 0x036F || 0x1AB0 <= value <= 0x1AFF || 0x1DC0 <= value <= 0x1DFF
    || 0x20D0 <= value <= 0x20FF || 0xFE20 <= value <= 0xFE2F
  }

  predicate IsUnicodePunctuation(value: int) {
    || 0x2000 <= value <= 0x206F || 0x2E00 <= value <= 0x2E7F || 0x3000 <= value <= 0x303F || 0xFE10 <= value <= 0xFE1F
    || 0xFE30 <= value <= 0xFE4F || 0xFF01 <= value <= 0xFF0F || 0xFF1A <= value <= 0xFF20 || 0xFF3B <= value <= 0xFF40
    || 0xFF5B <= value <= 0xFF65
  }

  function ScalarKind(u: Properties, value: int): (kind: Kind)
    ensures kind != Opaque
  {
    if value in {0x85, 0x2028, 0x2029} then LineBreak
    else if u.isWhitespace(value) then Whitespace
    else if u.isControl(value) then Control
    else if u.isNumeric(value) then Number
    else if u.isAlphabetic(value) || IsCombiningMark(value) then Word
    else if IsUnicodePunctuation(value) then Punctuation
    else Symbol
  }

  function Classify(u: Properties, raw: seq<byte>, index: nat): (class_: Class)
    requires index < |raw|
    ensures 1 <= class_.width && index + class_.width <= |raw|
  {
    if raw[index] < 0x80 then
      if IsOperatorStart(raw[index]) && OperatorWidth(raw, index) > 0 then Class(Symbol, OperatorWidth(raw, index))
      else ClassifyAscii(raw, index)
    else
      var decoded := DecodeAt(raw, index);
      if decoded.None? then Class(Opaque, 1)
      else
        DecodeSound(raw, index);
        Class(ScalarKind(u, decoded.value.0), decoded.value.1)
  }

  /** The scalar value and width at a position. */
  function ScalarAt(raw: seq<byte>, index: nat): (scalar: Option<(int, nat)>)
    ensures scalar.Some? ==> scalar.value.1 > 0 && index + scalar.value.1 <= |raw|
  {
    if index >= |raw| then None
    else if raw[index] < 0x80 then Some((raw[index] as int, 1))
    else
      var decoded := DecodeAt(raw, index);
      if decoded.None? then None
      else
        DecodeSound(raw, index);
        decoded
  }

  /** What the scanner steps over at once is text, or one byte at which no text starts. */
  lemma ClassifyText(u: Properties, raw: seq<byte>, index: nat)
    requires index < |raw|
    ensures var c := Classify(u, raw, index);
      if c.kind == Opaque then c.width == 1 && !StartsScalar(raw, index)
      else WellFormed(raw[index..index + c.width])
  {
    hide WellFormed, DecodeAt, EncodedAt, Encode;
    if raw[index] < 0x80 {
      AsciiClass(u, raw, index);
      WellFormedAscii(raw[index..index + Classify(u, raw, index).width]);
    } else if DecodeAt(raw, index).Some? {
      DecodedText(raw, index);
    } else {
      NotDecoded(raw, index);
    }
  }

  /** The bytes of an ASCII class are ASCII, and a backtick only occurs as punctuation. */
  lemma AsciiClass(u: Properties, raw: seq<byte>, index: nat)
    requires index < |raw| && raw[index] < 0x80
    ensures var c := Classify(u, raw, index);
      && c.kind != Opaque
      && (forall k | index <= k < index + c.width :: raw[k] < 0x80)
      && (c.kind != Punctuation ==> forall k | index <= k < index + c.width :: raw[k] != '`' as int)
  {
  }

  lemma DecodedText(raw: seq<byte>, index: nat)
    requires index < |raw| && DecodeAt(raw, index).Some?
    ensures var width := DecodeAt(raw, index).value.1;
      index + width <= |raw| && WellFormed(raw[index..index + width])
  {
    hide WellFormed, DecodeAt, Encode;
    DecodeSound(raw, index);
    WellFormedScalar(DecodeAt(raw, index).value.0);
  }

  lemma NotDecoded(raw: seq<byte>, index: nat)
    requires index < |raw| && raw[index] >= 0x80 && DecodeAt(raw, index).None?
    ensures !StartsScalar(raw, index)
  {
    hide DecodeAt, EncodedAt;
    forall value: int | IsScalar(value)
      ensures !EncodedAt(raw, index, value)
    {
      if EncodedAt(raw, index, value) {
        EncodedFirst(raw, index, value);
        if value >= 0x80 {
          DecodeComplete(raw, index, value);
        }
      }
    }
  }

  /** Every byte of a longer sequence lies beyond ASCII. */
  lemma DecodedBytes(raw: seq<byte>, index: nat)
    requires index < |raw| && DecodeAt(raw, index).Some?
    ensures var width := DecodeAt(raw, index).value.1;
      index + width <= |raw| && forall k | index <= k < index + width :: raw[k] >= 0x80
  {
    hide DecodeAt;
    DecodeSound(raw, index);
    var (value, width) := DecodeAt(raw, index).value;
    var code := raw[index..index + width];
    assert forall k | 0 <= k < width :: code[k] == raw[index + k] && Encode(value)[k] >= 0x80;
    assert forall k | index <= k < index + width :: raw[k] == code[k - index];
  }

  /** A backtick only occurs as punctuation. */
  lemma ClassifyBacktick(u: Properties, raw: seq<byte>, index: nat)
    requires index < |raw| && Classify(u, raw, index).kind != Punctuation
    ensures forall k | index <= k < index + Classify(u, raw, index).width :: raw[k] != '`' as int
  {
    hide DecodeAt;
    if raw[index] < 0x80 {
      AsciiClass(u, raw, index);
    } else if DecodeAt(raw, index).Some? {
      DecodedBytes(raw, index);
    }
  }
}
