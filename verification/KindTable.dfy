/** The kinds of scalars and operators as a table over the bytes. */
module KindTable {
  import opened Wrappers
  import opened Bytes
  import opened Utf8
  import opened LexicalClasses

  /** The ASCII text stands at the position. */
  predicate Reads(raw: seq<byte>, k: nat, text: string) {
    k + |text| <= |raw| && forall i: nat | i < |text| :: raw[k + i] == text[i] as int
  }

  predicate ReadsThreeLong(raw: seq<byte>, k: nat) {
    || Reads(raw, k, "===") || Reads(raw, k, "!==") || Reads(raw, k, "<<=") || Reads(raw, k, ">>=")
    || Reads(raw, k, "**=") || Reads(raw, k, "//=") || Reads(raw, k, "??=")
  }

  predicate ReadsTwoLong(raw: seq<byte>, k: nat) {
    || Reads(raw, k, "==") || Reads(raw, k, "!=") || Reads(raw, k, "<<") || Reads(raw, k, ">>") || Reads(raw, k, "**")
    || Reads(raw, k, "//") || Reads(raw, k, "??") || ReadsAssignment(raw, k) || ReadsOther(raw, k)
  }

  predicate ReadsAssignment(raw: seq<byte>, k: nat) {
    || Reads(raw, k, "<=") || Reads(raw, k, ">=") || Reads(raw, k, "+=") || Reads(raw, k, "-=") || Reads(raw, k, "*=")
    || Reads(raw, k, "/=") || Reads(raw, k, "%=") || Reads(raw, k, "&=") || Reads(raw, k, "|=") || Reads(raw, k, "^=")
  }

  predicate ReadsOther(raw: seq<byte>, k: nat) {
    || Reads(raw, k, "->") || Reads(raw, k, "=>") || Reads(raw, k, "::") || Reads(raw, k, "&&") || Reads(raw, k, "||")
    || Reads(raw, k, "++") || Reads(raw, k, "--") || Reads(raw, k, "/*") || Reads(raw, k, "*/") || Reads(raw, k, "?.")
  }

  lemma ReadsTwo(raw: seq<byte>, k: nat, text: string)
    requires |text| == 2
    ensures Reads(raw, k, text) <==> k + 1 < |raw| && raw[k] == text[0] as int && raw[k + 1] == text[1] as int
  {
  }

  lemma ReadsThree(raw: seq<byte>, k: nat, text: string)
    requires |text| == 3
    ensures Reads(raw, k, text)
       <==> k + 2 < |raw| && raw[k] == text[0] as int && raw[k + 1] == text[1] as int && raw[k + 2] == text[2] as int
  {
  }

  lemma LongOperators(raw: seq<byte>, k: nat)
    ensures ReadsThreeLong(raw, k) <==> k + 2 < |raw| && LongOperator(raw[k], raw[k + 1]) && raw[k + 2] == '=' as int
  {
    hide Reads;
    ReadsThree(raw, k, "===");
    ReadsThree(raw, k, "!==");
    ReadsThree(raw, k, "<<=");
    ReadsThree(raw, k, ">>=");
    ReadsThree(raw, k, "**=");
    ReadsThree(raw, k, "//=");
    ReadsThree(raw, k, "??=");
  }

  lemma Assignments(raw: seq<byte>, k: nat)
    ensures ReadsAssignment(raw, k) ==> k + 1 < |raw| && ShortOperator(raw[k], raw[k + 1])
    ensures k + 1 < |raw| && ShortOperator(raw[k], raw[k + 1]) && raw[k + 1] == '=' as int ==> ReadsAssignment(raw, k)
  {
    hide Reads;
    ReadsTwo(raw, k, "<=");
    ReadsTwo(raw, k, ">=");
    ReadsTwo(raw, k, "+=");
    ReadsTwo(raw, k, "-=");
    ReadsTwo(raw, k, "*=");
    ReadsTwo(raw, k, "/=");
    ReadsTwo(raw, k, "%=");
    ReadsTwo(raw, k, "&=");
    ReadsTwo(raw, k, "|=");
    ReadsTwo(raw, k, "^=");
  }

  lemma OtherOperators(raw: seq<byte>, k: nat)
    ensures ReadsOther(raw, k) ==> k + 1 < |raw| && ShortOperator(raw[k], raw[k + 1])
    ensures k + 1 < |raw| && ShortOperator(raw[k], raw[k + 1]) && raw[k + 1] != '=' as int ==> ReadsOther(raw, k)
  {
    hide Reads;
    ReadsTwo(raw, k, "->");
    ReadsTwo(raw, k, "=>");
    ReadsTwo(raw, k, "::");
    ReadsTwo(raw, k, "&&");
    ReadsTwo(raw, k, "||");
    ReadsTwo(raw, k, "++");
    ReadsTwo(raw, k, "--");
    ReadsTwo(raw, k, "/*");
    ReadsTwo(raw, k, "*/");
    ReadsTwo(raw, k, "?.");
  }

  lemma ShortOperators(raw: seq<byte>, k: nat)
    ensures ReadsTwoLong(raw, k) <==> k + 1 < |raw| && (LongOperator(raw[k], raw[k + 1]) || ShortOperator(raw[k], raw[k + 1]))
  {
    hide Reads, ReadsAssignment, ReadsOther, ShortOperator;
    Assignments(raw, k);
    OtherOperators(raw, k);
    ReadsTwo(raw, k, "==");
    ReadsTwo(raw, k, "!=");
    ReadsTwo(raw, k, "<<");
    ReadsTwo(raw, k, ">>");
    ReadsTwo(raw, k, "**");
    ReadsTwo(raw, k, "//");
    ReadsTwo(raw, k, "??");
  }

  /** The kind of a single ASCII byte by its code. */
  function ByteKind(b: byte): Kind {
    if b == 0x0A || b == 0x0D then LineBreak
    else if b == 0x20 || b == 0x09 || b == 0x0B || b == 0x0C then Whitespace
    else if b <= 0x1F || b == 0x7F then Control
    else if 0x41 <= b <= 0x5A || b == 0x5F || 0x61 <= b <= 0x7A then Word
    else if 0x30 <= b <= 0x39 then Number
    else if || 0x21 <= b <= 0x22 || 0x27 <= b <= 0x29 || 0x2C <= b <= 0x2F || 0x3A <= b <= 0x3C || 0x3E <= b <= 0x3F
            || 0x5B <= b <= 0x5D || b == 0x60 || b == 0x7B || b == 0x7D
    then Punctuation
    else Symbol
  }

  /** ASCII: the longest operator is one symbol, a carriage return takes a line feed with it, every
      other byte stands alone. */
  lemma AsciiTable(u: Properties, raw: seq<byte>, k: nat)
    requires k < |raw| && raw[k] < 0x80
    ensures Classify(u, raw, k) ==
      if ReadsThreeLong(raw, k) then Class(Symbol, 3)
      else if ReadsTwoLong(raw, k) then Class(Symbol, 2)
      else if raw[k] == 0x0D && k + 1 < |raw| && raw[k + 1] == 0x0A then Class(LineBreak, 2)
      else Class(ByteKind(raw[k]), 1)
  {
    hide ReadsThreeLong, ReadsTwoLong;
    LongOperators(raw, k);
    ShortOperators(raw, k);
    if k + 1 < |raw| && (LongOperator(raw[k], raw[k + 1]) || ShortOperator(raw[k], raw[k + 1])) {
      OperatorStarts(raw[k], raw[k + 1]);
    } else {
      hide LongOperator, ShortOperator;
      ByteTable(raw, k);
    }
  }

  lemma OperatorStarts(first: byte, second: byte)
    requires LongOperator(first, second) || ShortOperator(first, second)
    ensures IsOperatorStart(first)
  {
  }

  lemma ByteTable(raw: seq<byte>, k: nat)
    requires k < |raw| && raw[k] < 0x80
    ensures ClassifyAscii(raw, k) ==
      if raw[k] == 0x0D && k + 1 < |raw| && raw[k + 1] == 0x0A then Class(LineBreak, 2) else Class(ByteKind(raw[k]), 1)
  {
  }

  /** Beyond ASCII: by the value that is encoded; a byte at which no value is encoded is opaque. */
  lemma ScalarTable(u: Properties, raw: seq<byte>, k: nat, value: int)
    requires k < |raw| && raw[k] >= 0x80 && IsScalar(value)
    ensures EncodedAt(raw, k, value) ==>
      Classify(u, raw, k) == Class(
        if value == 0x85 || value == 0x2028 || value == 0x2029 then LineBreak
        else if u.isWhitespace(value) then Whitespace
        else if u.isControl(value) then Control
        else if u.isNumeric(value) then Number
        else if || u.isAlphabetic(value) || 0x300 <= value < 0x370 || 0x1AB0 <= value < 0x1B00 || 0x1DC0 <= value < 0x1E00
                || 0x20D0 <= value < 0x2100 || 0xFE20 <= value < 0xFE30 then Word
        else if || 0x2000 <= value < 0x2070 || 0x2E00 <= value < 0x2E80 || 0x3000 <= value < 0x3040
                || 0xFE10 <= value < 0xFE20 || 0xFE30 <= value < 0xFE50 || 0xFF01 <= value < 0xFF10
                || 0xFF1A <= value < 0xFF21 || 0xFF3B <= value < 0xFF41 || 0xFF5B <= value < 0xFF66 then Punctuation
        else Symbol,
        if value < 0x800 then 2 else if value < 0x1_0000 then 3 else 4)
    ensures !StartsScalar(raw, k) ==> Classify(u, raw, k) == Class(Opaque, 1)
  {
    hide DecodeAt, StartsScalar, Encode, EncodedAt;
    if EncodedAt(raw, k, value) {
      EncodedFirst(raw, k, value);
      EncodedWidth(value);
      DecodeComplete(raw, k, value);
    }
    if !StartsScalar(raw, k) && DecodeAt(raw, k).Some? {
      DecodeSound(raw, k);
      Starts(raw, k, DecodeAt(raw, k).value.0);
    }
  }

  lemma EncodedWidth(value: int)
    requires IsScalar(value)
    ensures |Encode(value)| == (if value < 0x80 then 1 else if value < 0x800 then 2 else if value < 0x1_0000 then 3 else 4)
    ensures Encode(value)[0] >= 0x80 ==> value >= 0x80
  {
  }

  lemma Starts(raw: seq<byte>, k: nat, value: int)
    requires IsScalar(value) && EncodedAt(raw, k, value)
    ensures StartsScalar(raw, k)
  {
  }
}
