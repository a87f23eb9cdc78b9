/** UTF-8 as RFC 3629 defines it, and the decoder of the scanner. */
module Utf8 {
  import opened Wrappers
  import opened Bytes

  /** A Unicode scalar value: any code point but the surrogates. */
  predicate IsScalar(value: int) {
    0 <= value < 0xD800 || 0xE000 <= value <= 0x10FFFF
  }

  /** The encoding of a scalar value, section 3 of RFC 3629. */
  function Encode(value: int): (bytes: seq<byte>)
    requires IsScalar(value)
    ensures 1 <= |bytes| <= 4
  {
    if value < 0x80 then [value]
    else if value < 0x800 then [0xC0 + value / 0x40, Tail(value)]
    else if value < 0x10000 then [0xE0 + value / 0x1000, Tail(value / 0x40), Tail(value)]
    else [0xF0 + value / 0x40000, Tail(value / 0x1000), Tail(value / 0x40), Tail(value)]
  }

  function Tail(value: nat): byte {
    0x80 + value % 0x40
  }

  predicate AllScalars(values: seq<int>) {
    forall i: nat | i < |values| :: IsScalar(values[i])
  }

  function EncodeText(values: seq<int>): seq<byte>
    requires AllScalars(values)
  {
    if values == [] then [] else EncodeText(values[..|values| - 1]) + Encode(values[|values| - 1])
  }

  /** The bytes are the encoding of some text. */
  ghost predicate WellFormed(bytes: seq<byte>) {
    exists values: seq<int> :: AllScalars(values) && EncodeText(values) == bytes
  }

  /** A well-formed sequence starts at the position. */
  ghost predicate StartsScalar(raw: seq<byte>, position: nat) {
    exists value: int | IsScalar(value) :: EncodedAt(raw, position, value)
  }

  predicate EncodedAt(raw: seq<byte>, position: nat, value: int)
    requires IsScalar(value)
  {
    var code := Encode(value);
    position + |code| <= |raw| && raw[position..position + |code|] == code
  }

  predicate IsContinuation(b: byte) {
    0x80 <= b < 0xC0
  }

  /** The scanner's decoder for sequences of more than one byte: the value and its width. */
  function DecodeAt(raw: seq<byte>, index: nat): (decoded: Option<(int, nat)>) {
    if index >= |raw| then None
    else
      var first: int := raw[index];
      if !(0xC2 <= first <= 0xF4) then None
      else
        var width := if first <= 0xDF then 2 else if first <= 0xEF then 3 else 4;
        var lead := if first <= 0xDF then first - 0xC0 else if first <= 0xEF then first - 0xE0 else first - 0xF0;
        if index + 1 >= |raw| || !IsContinuation(raw[index + 1]) then None
        else
          var second: int := raw[index + 1];
          if || (first == 0xE0 && second < 0xA0) || (first == 0xED && second > 0x9F)
             || (first == 0xF0 && second < 0x90) || (first == 0xF4 && second > 0x8F)
          then None
          else
            var value := DecodeTail(raw, index + 2, width - 2, lead * 0x40 + (second - 0x80));
            if value.Some? && IsScalar(value.value) then Some((value.value, width)) else None
  }

  /** Folds `count` continuation bytes into the code point. */
  function DecodeTail(raw: seq<byte>, index: nat, count: nat, codepoint: nat): Option<nat>
    decreases count
  {
    if count == 0 then Some(codepoint)
    else if index >= |raw| || !IsContinuation(raw[index]) then None
    else
      var next: int := raw[index];
      DecodeTail(raw, index + 1, count - 1, codepoint * 0x40 + (next - 0x80))
  }

  /** What the decoder accepts is the encoding of the value it returns. */
  lemma DecodeSound(raw: seq<byte>, index: nat)
    requires DecodeAt(raw, index).Some?
    ensures var (value, width) := DecodeAt(raw, index).value;
      && value >= 0x80 && IsScalar(value) && EncodedAt(raw, index, value) && width == |Encode(value)|
  {
    var (value, width) := DecodeAt(raw, index).value;
    var first: int, second: int := raw[index], raw[index + 1];
    TailRead(raw, index + 2, width - 2, (first - (if width == 2 then 0xC0 else if width == 3 then 0xE0 else 0xF0)) * 0x40 + (second - 0x80));
    hide Encode, DecodeTail, IsScalar;
    if width == 2 {
      TwoBytes(first, second);
      assert raw[index..index + 2] == [raw[index], raw[index + 1]];
    } else if width == 3 {
      ThreeBytes(first, second, raw[index + 2]);
      assert raw[index..index + 3] == [raw[index], raw[index + 1], raw[index + 2]];
    } else {
      FourBytes(first, second, raw[index + 2], raw[index + 3]);
      assert raw[index..index + 4] == [raw[index], raw[index + 1], raw[index + 2], raw[index + 3]];
    }
  }

  /** The continuation bytes of an accepted sequence are there. */
  lemma {:induction false} TailRead(raw: seq<byte>, index: nat, count: nat, codepoint: nat)
    requires count <= 2 && DecodeTail(raw, index, count, codepoint).Some?
    ensures index + count <= |raw| || count == 0
    ensures count >= 1 ==> IsContinuation(raw[index])
    ensures count == 2 ==> IsContinuation(raw[index + 1])
    ensures count == 1 ==> DecodeTail(raw, index, count, codepoint).value == codepoint * 0x40 + (raw[index] - 0x80)
    ensures count == 2 ==>
      DecodeTail(raw, index, count, codepoint).value
      == (codepoint * 0x40 + (raw[index] - 0x80)) * 0x40 + (raw[index + 1] - 0x80)
  {
  }

  lemma TwoBytes(first: int, second: int)
    requires 0xC2 <= first <= 0xDF && 0x80 <= second < 0xC0
    ensures var value := (first - 0xC0) * 0x40 + (second - 0x80);
      0x80 <= value < 0x800 && Encode(value) == [first, second]
  {
    var value := (first - 0xC0) * 0x40 + (second - 0x80);
    assert value / 0x40 == first - 0xC0;
  }

  lemma ThreeBytes(first: int, second: int, third: int)
    requires 0xE0 <= first <= 0xEF && 0x80 <= second < 0xC0 && 0x80 <= third < 0xC0
    requires !(first == 0xE0 && second < 0xA0) && !(first == 0xED && second > 0x9F)
    ensures var value := ((first - 0xE0) * 0x40 + (second - 0x80)) * 0x40 + (third - 0x80);
      0x800 <= value < 0x10000 && IsScalar(value) && Encode(value) == [first, second, third]
  {
    var high := (first - 0xE0) * 0x40 + (second - 0x80);
    var value := high * 0x40 + (third - 0x80);
    assert value / 0x40 == high && high / 0x40 == first - 0xE0;
    assert value / 0x1000 == high / 0x40;
  }

  lemma FourBytes(first: int, second: int, third: int, fourth: int)
    requires 0xF0 <= first <= 0xF4
    requires 0x80 <= second < 0xC0 && 0x80 <= third < 0xC0 && 0x80 <= fourth < 0xC0
    requires !(first == 0xF0 && second < 0x90) && !(first == 0xF4 && second > 0x8F)
    ensures var value := (((first - 0xF0) * 0x40 + (second - 0x80)) * 0x40 + (third - 0x80)) * 0x40 + (fourth - 0x80);
      0x10000 <= value <= 0x10FFFF && Encode(value) == [first, second, third, fourth]
  {
    var high := (first - 0xF0) * 0x40 + (second - 0x80);
    var middle := high * 0x40 + (third - 0x80);
    var value := middle * 0x40 + (fourth - 0x80);
    assert value / 0x40 == middle && middle / 0x40 == high && high / 0x40 == first - 0xF0;
    assert value / 0x1000 == middle / 0x40 && value / 0x40000 == value / 0x1000 / 0x40;
  }

  /** Every encoded scalar value beyond ASCII is decoded, and to itself. */
  lemma DecodeComplete(raw: seq<byte>, index: nat, value: int)
    requires IsScalar(value) && value >= 0x80 && EncodedAt(raw, index, value)
    ensures DecodeAt(raw, index) == Some((value, |Encode(value)|))
  {
    var width := |Encode(value)|;
    var code := raw[index..index + width];
    assert forall k | 0 <= k < width :: raw[index + k] == code[k];
    if width == 2 {
      DecodeTwo(raw, index, value);
    } else if width == 3 {
      DecodeThree(raw, index, value);
    } else {
      DecodeFour(raw, index, value);
    }
  }

  lemma DecodeTwo(raw: seq<byte>, index: nat, value: int)
    requires 0x80 <= value < 0x800 && index + 2 <= |raw|
    requires raw[index] == 0xC0 + value / 0x40 && raw[index + 1] == Tail(value)
    ensures DecodeAt(raw, index) == Some((value, 2))
  {
    assert value == value / 0x40 * 0x40 + value % 0x40;
    assert DecodeTail(raw, index + 2, 0, value) == Some(value);
  }

  lemma DecodeThree(raw: seq<byte>, index: nat, value: int)
    requires 0x800 <= value < 0x10000 && IsScalar(value) && index + 3 <= |raw|
    requires raw[index] == 0xE0 + value / 0x1000
    requires raw[index + 1] == Tail(value / 0x40) && raw[index + 2] == Tail(value)
    ensures DecodeAt(raw, index) == Some((value, 3))
  {
    var high := value / 0x40;
    assert value == high * 0x40 + value % 0x40;
    assert high == value / 0x1000 * 0x40 + high % 0x40;
    assert DecodeTail(raw, index + 3, 0, value) == Some(value);
    assert DecodeTail(raw, index + 2, 1, high) == Some(value);
  }

  lemma DecodeFour(raw: seq<byte>, index: nat, value: int)
    requires 0x10000 <= value <= 0x10FFFF && index + 4 <= |raw|
    requires raw[index] == 0xF0 + value / 0x40000 && raw[index + 1] == Tail(value / 0x1000)
    requires raw[index + 2] == Tail(value / 0x40) && raw[index + 3] == Tail(value)
    ensures DecodeAt(raw, index) == Some((value, 4))
  {
    var middle := value / 0x40;
    var high := value / 0x1000;
    assert value == middle * 0x40 + value % 0x40;
    assert middle == high * 0x40 + middle % 0x40;
    assert high == value / 0x40000 * 0x40 + high % 0x40;
    assert DecodeTail(raw, index + 4, 0, value) == Some(value);
    assert DecodeTail(raw, index + 3, 1, middle) == Some(value);
    assert DecodeTail(raw, index + 2, 2, high) == Some(value);
  }

  lemma {:induction false} EncodeTextPush(values: seq<int>, value: int)
    requires AllScalars(values) && IsScalar(value)
    ensures AllScalars(values + [value]) && EncodeText(values + [value]) == EncodeText(values) + Encode(value)
  {
    hide Encode, IsScalar;
    assert (values + [value])[..|values|] == values;
  }

  lemma {:induction false} EncodeTextConcat(first: seq<int>, second: seq<int>)
    requires AllScalars(first) && AllScalars(second)
    ensures AllScalars(first + second)
    ensures EncodeText(first + second) == EncodeText(first) + EncodeText(second)
  {
    hide Encode, IsScalar;
    if second == [] {
      assert first + second == first;
    } else {
      var body, last := second[..|second| - 1], second[|second| - 1];
      EncodeTextConcat(first, body);
      EncodeTextPush(body, last);
      EncodeTextPush(first + body, last);
      assert body + [last] == second && first + body + [last] == first + second;
    }
  }

  /** Texts may be joined. */
  lemma WellFormedConcat(first: seq<byte>, second: seq<byte>)
    requires WellFormed(first) && WellFormed(second)
    ensures WellFormed(first + second)
  {
    var one :| AllScalars(one) && EncodeText(one) == first;
    var other :| AllScalars(other) && EncodeText(other) == second;
    EncodeTextConcat(one, other);
  }

  lemma WellFormedScalar(value: int)
    requires IsScalar(value)
    ensures WellFormed(Encode(value))
  {
    assert [value][..0] == [];
    assert AllScalars([value]) && EncodeText([value]) == EncodeText([]) + Encode(value);
  }

  lemma {:induction false} WellFormedAscii(bytes: seq<byte>)
    requires forall i: nat | i < |bytes| :: bytes[i] < 0x80
    ensures WellFormed(bytes)
  {
    hide Encode, WellFormed;
    if bytes == [] {
      WellFormedEmpty();
    } else {
      var last := bytes[|bytes| - 1];
      WellFormedAscii(bytes[..|bytes| - 1]);
      WellFormedScalar(last);
      EncodeAscii(last);
      WellFormedConcat(bytes[..|bytes| - 1], [last]);
      assert bytes == bytes[..|bytes| - 1] + [last];
    }
  }

  lemma WellFormedEmpty()
    ensures WellFormed([])
  {
    assert AllScalars([]) && EncodeText([]) == [];
  }

  lemma EncodeAscii(value: int)
    requires 0 <= value < 0x80
    ensures Encode(value) == [value]
  {
  }

  lemma EncodedFirst(raw: seq<byte>, position: nat, value: int)
    requires IsScalar(value) && EncodedAt(raw, position, value)
    ensures position < |raw| && raw[position] == Encode(value)[0]
  {
    var code := Encode(value);
    assert raw[position..position + |code|][0] == raw[position];
  }
}
