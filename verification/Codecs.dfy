/** Codes built of other codes: two parts one behind the other, counted lists and strings. */
module Codecs {
  import opened Wrappers
  import opened Bytes
  import opened Utf8
  import opened Text
  import opened LexicalClasses

  // ------------------------------------------------------------------ two parts

  /** A code that is the code of one part followed by the code of another. */
  ghost predicate Splits<A, B, C(!new)>(encA: A -> seq<byte>, validA: A -> bool, left: C -> A,
                                        encB: B -> seq<byte>, validB: B -> bool, right: C -> B,
                                        encC: C -> seq<byte>, validC: C -> bool)
  {
    && (forall c | validC(c) :: validA(left(c)) && validB(right(c)) && encC(c) == encA(left(c)) + encB(right(c)))
    && (forall c, d | validC(c) && validC(d) && left(c) == left(d) && right(c) == right(d) :: c == d)
  }

  lemma PartsPrefixFree<A(!new), B(!new), C(!new)>(
    encA: A -> seq<byte>, validA: A -> bool, left: C -> A, encB: B -> seq<byte>, validB: B -> bool, right: C -> B,
    encC: C -> seq<byte>, validC: C -> bool)
    requires Splits(encA, validA, left, encB, validB, right, encC, validC)
    requires PrefixFree(encA, validA) && PrefixFree(encB, validB)
    ensures PrefixFree(encC, validC)
  {
    hide Embedded;
    forall bytes: seq<byte>, position: nat, x: C, y: C
      | validC(x) && validC(y) && Embedded(bytes, position, encC(x)) && Embedded(bytes, position, encC(y))
      ensures x == y
    {
      EmbeddedSplit(bytes, position, encA(left(x)), encB(right(x)));
      EmbeddedSplit(bytes, position, encA(left(y)), encB(right(y)));
    }
  }

  lemma PartsFound<A(!new), B(!new), C(!new)>(
    encA: A -> seq<byte>, validA: A -> bool, left: C -> A, encB: B -> seq<byte>, validB: B -> bool, right: C -> B,
    encC: C -> seq<byte>, validC: C -> bool, bytes: seq<byte>, start: nat, middle: nat, c: C, end: nat)
    requires Splits(encA, validA, left, encB, validB, right, encC, validC) && validC(c)
    requires Found(encA, validA, bytes, start, Some(left(c)), middle)
    requires Found(encB, validB, bytes, middle, Some(right(c)), end)
    ensures Found(encC, validC, bytes, start, Some(c), end)
  {
    EmbeddedJoin(bytes, start, encA(left(c)), encB(right(c)));
  }

  lemma FirstMissing<A(!new), B(!new), C(!new)>(
    encA: A -> seq<byte>, validA: A -> bool, left: C -> A, encB: B -> seq<byte>, validB: B -> bool, right: C -> B,
    encC: C -> seq<byte>, validC: C -> bool, bytes: seq<byte>, start: nat, middle: nat, end: nat)
    requires Splits(encA, validA, left, encB, validB, right, encC, validC)
    requires Found(encA, validA, bytes, start, None, middle)
    ensures Found(encC, validC, bytes, start, None, end)
  {
    forall c: C | validC(c)
      ensures !Embedded(bytes, start, encC(c))
    {
      if Embedded(bytes, start, encC(c)) {
        EmbeddedSplit(bytes, start, encA(left(c)), encB(right(c)));
      }
    }
  }

  lemma SecondMissing<A(!new), B(!new), C(!new)>(
    encA: A -> seq<byte>, validA: A -> bool, left: C -> A, encB: B -> seq<byte>, validB: B -> bool, right: C -> B,
    encC: C -> seq<byte>, validC: C -> bool, bytes: seq<byte>, start: nat, a: A, middle: nat, end: nat)
    requires Splits(encA, validA, left, encB, validB, right, encC, validC) && PrefixFree(encA, validA)
    requires Found(encA, validA, bytes, start, Some(a), middle)
    requires Found(encB, validB, bytes, middle, None, middle)
    ensures Found(encC, validC, bytes, start, None, end)
  {
    forall c: C | validC(c)
      ensures !Embedded(bytes, start, encC(c))
    {
      if Embedded(bytes, start, encC(c)) {
        EmbeddedSplit(bytes, start, encA(left(c)), encB(right(c)));
      }
    }
  }

  // -------------------------------------------------------------- counted lists

  /** A 32-bit count and the items. */
  function Counted<T>(enc: T -> seq<byte>): seq<T> -> seq<byte> {
    (items: seq<T>) => U32(|items| % 0x1_0000_0000) + EncodeList(enc, items)
  }

  ghost function CountedValid<T>(valid: T -> bool): seq<T> -> bool {
    (items: seq<T>) => |items| <= U32_MAX && AllValid(valid, items)
  }

  lemma {:induction false} CountedParts<T>(enc: T -> seq<byte>, items: seq<T>, bytes: seq<byte>, position: nat)
    requires |items| <= U32_MAX && Embedded(bytes, position, Counted(enc)(items))
    ensures position + 4 <= |bytes| && ReadU32(bytes, position) == |items|
    ensures Embedded(bytes, position + 4, EncodeList(enc, items))
    ensures |Counted(enc)(items)| == 4 + |EncodeList(enc, items)|
  {
    hide U32, ReadU32, EncodeList;
    EmbeddedSplit(bytes, position, U32(|items|), EncodeList(enc, items));
    ReadOfU32(bytes, position, |items|);
  }

  lemma CountedPrefixFree<T(!new)>(enc: T -> seq<byte>, valid: T -> bool)
    requires PrefixFree(enc, valid)
    ensures PrefixFree(Counted(enc), CountedValid(valid))
  {
    hide PrefixFree, Embedded, U32, EncodeList;
    forall bytes: seq<byte>, position: nat, x: seq<T>, y: seq<T>
      | CountedValid(valid)(x) && CountedValid(valid)(y)
        && Embedded(bytes, position, Counted(enc)(x)) && Embedded(bytes, position, Counted(enc)(y))
      ensures x == y
    {
      CountedParts(enc, x, bytes, position);
      CountedParts(enc, y, bytes, position);
      ListUnique(enc, valid, x, y, bytes, position + 4);
    }
    IsPrefixFree(Counted(enc), CountedValid(valid));
  }

  lemma IsPrefixFree<T(!new)>(enc: T -> seq<byte>, valid: T -> bool)
    requires forall bytes: seq<byte>, position: nat, x: T, y: T ::
      valid(x) && valid(y) && Embedded(bytes, position, enc(x)) && Embedded(bytes, position, enc(y)) ==> x == y
    ensures PrefixFree(enc, valid)
  {
  }

  lemma CountedFound<T(!new)>(enc: T -> seq<byte>, valid: T -> bool, bytes: seq<byte>, start: nat, items: seq<T>, end: nat)
    requires start + 4 <= |bytes| && ReadU32(bytes, start) == |items|
    requires ListFound(enc, valid, bytes, start + 4, items, end)
    ensures Found(Counted(enc), CountedValid(valid), bytes, start, Some(items), end)
  {
    hide U32, ReadU32, EncodeList;
    ReadOfU32(bytes, start, |items|);
    EmbeddedJoin(bytes, start, U32(|items|), EncodeList(enc, items));
  }

  /** What a count must leave room for. */
  lemma CountedShort<T(!new)>(enc: T -> seq<byte>, valid: T -> bool, least: nat, bytes: seq<byte>, start: nat, end: nat)
    requires 0 < least && forall x: T | valid(x) :: |enc(x)| >= least
    requires start + 4 > |bytes| || ReadU32(bytes, start) > (|bytes| - (start + 4)) / least
    ensures Found(Counted(enc), CountedValid(valid), bytes, start, None, end)
  {
    hide U32, ReadU32, EncodeList, Embedded;
    forall items: seq<T> | CountedValid(valid)(items)
      ensures !Embedded(bytes, start, Counted(enc)(items))
    {
      if Embedded(bytes, start, Counted(enc)(items)) {
        CountedParts(enc, items, bytes, start);
        ListLength(enc, items, least);
        EmbeddedFits(bytes, start + 4, EncodeList(enc, items));
        Room(least, |items|, |bytes| - (start + 4));
      }
    }
  }

  lemma EmbeddedFits(bytes: seq<byte>, position: nat, code: seq<byte>)
    requires Embedded(bytes, position, code)
    ensures position + |code| <= |bytes|
  {
  }

  lemma Room(least: nat, count: nat, length: nat)
    requires 0 < least && least * count <= length
    ensures count <= length / least
  {
    Cancel(least, count, length / least + 1);
  }

  lemma Cancel(factor: nat, first: nat, second: nat)
    requires factor * first < factor * second
    ensures first < second
  {
  }

  lemma CountedMissing<T(!new)>(enc: T -> seq<byte>, valid: T -> bool, bytes: seq<byte>, start: nat, end: nat)
    requires start + 4 <= |bytes| && NoList(enc, valid, bytes, start + 4, ReadU32(bytes, start))
    ensures Found(Counted(enc), CountedValid(valid), bytes, start, None, end)
  {
    hide U32, ReadU32, EncodeList, Embedded;
    forall items: seq<T> | CountedValid(valid)(items)
      ensures !Embedded(bytes, start, Counted(enc)(items))
    {
      if Embedded(bytes, start, Counted(enc)(items)) {
        CountedParts(enc, items, bytes, start);
      }
    }
  }

  // ------------------------------------------------------- lists of fixed length

  function Listed<T>(enc: T -> seq<byte>): seq<T> -> seq<byte> {
    (items: seq<T>) => EncodeList(enc, items)
  }

  ghost function ListedValid<T>(valid: T -> bool, n: nat): seq<T> -> bool {
    (items: seq<T>) => |items| == n && AllValid(valid, items)
  }

  lemma ListedPrefixFree<T(!new)>(enc: T -> seq<byte>, valid: T -> bool, n: nat)
    requires PrefixFree(enc, valid)
    ensures PrefixFree(Listed(enc), ListedValid(valid, n))
  {
    hide PrefixFree, Embedded, EncodeList;
    forall bytes: seq<byte>, position: nat, x: seq<T>, y: seq<T>
      | ListedValid(valid, n)(x) && ListedValid(valid, n)(y)
        && Embedded(bytes, position, Listed(enc)(x)) && Embedded(bytes, position, Listed(enc)(y))
      ensures x == y
    {
      ListUnique(enc, valid, x, y, bytes, position);
    }
    IsPrefixFree(Listed(enc), ListedValid(valid, n));
  }

  lemma ListedFound<T(!new)>(enc: T -> seq<byte>, valid: T -> bool, bytes: seq<byte>, start: nat, items: seq<T>, end: nat)
    requires ListFound(enc, valid, bytes, start, items, end)
    ensures Found(Listed(enc), ListedValid(valid, |items|), bytes, start, Some(items), end)
  {
    hide EncodeList;
  }

  lemma ListedMissing<T(!new)>(enc: T -> seq<byte>, valid: T -> bool, bytes: seq<byte>, start: nat, n: nat, end: nat)
    requires NoList(enc, valid, bytes, start, n)
    ensures Found(Listed(enc), ListedValid(valid, n), bytes, start, None, end)
  {
    hide EncodeList;
  }

  // ---------------------------------------------------------------------- texts

  /** The text a byte string encodes. */
  function TextOf(bytes: seq<byte>): Option<seq<int>> {
    var chars := CharsOf(bytes, 0, |bytes|);
    if chars.None? then None else Some(Values(chars.value))
  }

  lemma {:induction false} TextOfIff(bytes: seq<byte>, values: seq<int>)
    ensures TextOf(bytes) == Some(values) <==> AllScalars(values) && EncodeText(values) == bytes
  {
    assert bytes[0..|bytes|] == bytes;
    if TextOf(bytes) == Some(values) {
      CharsEncode(bytes, 0, |bytes|);
    }
    if AllScalars(values) && EncodeText(values) == bytes {
      EncodedTextHasChars(bytes, 0, |bytes|, values);
      EncodedValues(bytes, 0, |bytes|, values);
    }
  }

  lemma {:induction false} CharsEncode(raw: seq<byte>, s: nat, e: nat)
    requires s <= e <= |raw| && IsText(raw, s, e)
    ensures var values := Values(CharsOf(raw, s, e).value); AllScalars(values) && EncodeText(values) == raw[s..e]
    decreases e - s
  {
    hide Utf8.Encode, EncodeText, ScalarAt, IsScalar;
    if s == e {
      NoText(Values(CharsOf(raw, s, e).value));
    } else {
      ScalarAtIsEncoded(raw, s);
      var (value, width) := ScalarAt(raw, s).value;
      CharsEncode(raw, s + width, e);
      var rest := Values(CharsOf(raw, s + width, e).value);
      OneScalar(value);
      EncodeTextConcat([value], rest);
      assert Values(CharsOf(raw, s, e).value) == [value] + rest;
      assert raw[s..e] == raw[s..s + width] + raw[s + width..e];
    }
  }

  lemma {:induction false} NoText(values: seq<int>)
    requires values == []
    ensures AllScalars(values) && EncodeText(values) == []
  {
  }

  lemma OneScalar(value: int)
    requires IsScalar(value)
    ensures AllScalars([value]) && EncodeText([value]) == Utf8.Encode(value)
  {
    EncodeTextPush([], value);
    assert [] + [value] == [value];
  }

  lemma {:induction false} EncodedValues(raw: seq<byte>, s: nat, e: nat, values: seq<int>)
    requires s <= e <= |raw| && AllScalars(values) && EncodeText(values) == raw[s..e]
    requires IsText(raw, s, e)
    ensures Values(CharsOf(raw, s, e).value) == values
    decreases |values|
  {
    hide Utf8.Encode, ScalarAt, IsScalar, EncodeText;
    if values == [] {
      NoText(values);
    } else {
      var first, rest := values[0], values[1..];
      assert values == [first] + rest;
      assert AllScalars(rest);
      OneScalar(first);
      EncodeTextConcat([first], rest);
      var width := |Utf8.Encode(first)|;
      assert raw[s..s + width] == raw[s..e][..width] == Utf8.Encode(first);
      EncodedIsScalarAt(raw, s, first);
      assert raw[s + width..e] == raw[s..e][width..] == EncodeText(rest);
      EncodedTextHasChars(raw, s + width, e, rest);
      EncodedValues(raw, s + width, e, rest);
    }
  }

  /** A 32-bit length and the text. */
  function EncodeString(values: seq<int>): seq<byte> {
    if AllScalars(values) then U32(|EncodeText(values)| % 0x1_0000_0000) + EncodeText(values) else []
  }

  predicate IsShortText(values: seq<int>) {
    AllScalars(values) && |EncodeText(values)| <= U32_MAX
  }

  lemma {:induction false} StringParts(bytes: seq<byte>, position: nat, values: seq<int>)
    requires IsShortText(values) && Embedded(bytes, position, EncodeString(values))
    ensures |EncodeString(values)| == 4 + |EncodeText(values)|
    ensures position + 4 + |EncodeText(values)| <= |bytes| && ReadU32(bytes, position) == |EncodeText(values)|
    ensures bytes[position + 4..position + 4 + |EncodeText(values)|] == EncodeText(values)
  {
    hide U32, ReadU32, EncodeText, AllScalars;
    EmbeddedSplit(bytes, position, U32(|EncodeText(values)|), EncodeText(values));
    ReadOfU32(bytes, position, |EncodeText(values)|);
  }

  /** The string at a position: its length, then that much text. */
  lemma StringAt(bytes: seq<byte>, position: nat, values: seq<int>)
    ensures IsShortText(values) && Embedded(bytes, position, EncodeString(values)) <==>
      && position + 4 <= |bytes| && position + 4 + ReadU32(bytes, position) <= |bytes|
      && TextOf(bytes[position + 4..position + 4 + ReadU32(bytes, position)]) == Some(values)
    ensures IsShortText(values) && Embedded(bytes, position, EncodeString(values)) ==>
      |EncodeString(values)| == 4 + ReadU32(bytes, position)
  {
    hide U32, ReadU32, EncodeText, AllScalars, TextOf;
    if IsShortText(values) && Embedded(bytes, position, EncodeString(values)) {
      StringParts(bytes, position, values);
      TextOfIff(bytes[position + 4..position + 4 + ReadU32(bytes, position)], values);
    } else if position + 4 <= |bytes| && position + 4 + ReadU32(bytes, position) <= |bytes| {
      var text := bytes[position + 4..position + 4 + ReadU32(bytes, position)];
      TextOfIff(text, values);
      if TextOf(text) == Some(values) {
        ReadOfU32(bytes, position, |text|);
        EmbeddedJoin(bytes, position, U32(|text|), text);
      }
    }
  }

  lemma StringPrefixFree()
    ensures PrefixFree(EncodeString, IsShortText)
  {
    hide Embedded, EncodeString, IsShortText, TextOf, ReadU32;
    forall bytes: seq<byte>, position: nat, x: seq<int>, y: seq<int>
      | IsShortText(x) && IsShortText(y)
        && Embedded(bytes, position, EncodeString(x)) && Embedded(bytes, position, EncodeString(y))
      ensures x == y
    {
      StringAt(bytes, position, x);
      StringAt(bytes, position, y);
    }
  }

  // -------------------------------------------------------------------- strings

  /** The scalar values of a string. */
  function Scalars(s: string): (values: seq<int>)
    ensures AllScalars(values)
  {
    seq(|s|, i requires 0 <= i < |s| => s[i] as int)
  }

  function FromScalars(values: seq<int>): (s: string)
    requires AllScalars(values)
    ensures Scalars(s) == values
  {
    seq(|values|, i requires 0 <= i < |values| => values[i] as char)
  }

  lemma ScalarsInjective(first: string, second: string)
    requires Scalars(first) == Scalars(second)
    ensures first == second
  {
    assert |first| == |Scalars(first)| == |second|;
    forall i: nat | i < |first|
      ensures first[i] == second[i]
    {
      assert Scalars(first)[i] == Scalars(second)[i];
    }
  }
}
