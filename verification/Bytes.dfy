/** Little-endian integers in byte strings. */
module Bytes {
  import opened Wrappers

  type byte = x: int | 0 <= x < 256

  const U16_MAX: int := 0xFFFF
  const U32_MAX: int := 0xFFFF_FFFF

  function U16(value: nat): (bytes: seq<byte>)
    requires value <= U16_MAX
    ensures |bytes| == 2
  {
    [value % 256, value / 256]
  }

  function U32(value: nat): (bytes: seq<byte>)
    requires value <= U32_MAX
    ensures |bytes| == 4
  {
    [value % 256, value / 256 % 256, value / 65536 % 256, value / 16777216]
  }

  function ReadU16(bytes: seq<byte>, position: nat): (value: nat)
    requires position + 2 <= |bytes|
    ensures value <= U16_MAX
  {
    var low: int, high: int := bytes[position], bytes[position + 1];
    low + 256 * high
  }

  function ReadU32(bytes: seq<byte>, position: nat): (value: nat)
    requires position + 4 <= |bytes|
    ensures value <= U32_MAX
  {
    ReadU16(bytes, position) + 65536 * ReadU16(bytes, position + 2)
  }

  lemma ReadOfU16(bytes: seq<byte>, position: nat, value: nat)
    requires value <= U16_MAX && position + 2 <= |bytes|
    ensures bytes[position..position + 2] == U16(value) <==> ReadU16(bytes, position) == value
  {
    var low: int, high: int := bytes[position], bytes[position + 1];
    assert bytes[position..position + 2] == [low, high];
    if low + 256 * high == value {
      assert value / 256 == high && value % 256 == low;
    }
  }

  lemma ReadOfU32(bytes: seq<byte>, position: nat, value: nat)
    requires value <= U32_MAX && position + 4 <= |bytes|
    ensures bytes[position..position + 4] == U32(value) <==> ReadU32(bytes, position) == value
  {
    var low, high := value % 65536, value / 65536;
    ReadOfU16(bytes, position, low);
    ReadOfU16(bytes, position + 2, high);
    U32Halves(value);
    var found := bytes[position..position + 4];
    assert found == bytes[position..position + 2] + bytes[position + 2..position + 4];
    assert found[..2] == bytes[position..position + 2] && found[2..] == bytes[position + 2..position + 4];
    assert (U16(low) + U16(high))[..2] == U16(low) && (U16(low) + U16(high))[2..] == U16(high);
    var first, second := ReadU16(bytes, position), ReadU16(bytes, position + 2);
    if first + 65536 * second == value {
      assert value / 65536 == second && value % 65536 == first;
    }
  }

  lemma U32Halves(value: nat)
    requires value <= U32_MAX
    ensures U32(value) == U16(value % 65536) + U16(value / 65536)
  {
    assert value % 65536 % 256 == value % 256;
    assert value % 65536 / 256 == value / 256 % 256;
    assert value / 65536 / 256 == value / 16777216;
  }

  /** Consecutive 32-bit words. */
  function Words(values: seq<nat>): (bytes: seq<byte>)
    requires forall i | 0 <= i < |values| :: values[i] <= U32_MAX
    ensures |bytes| == 4 * |values|
  {
    if values == [] then [] else Words(values[..|values| - 1]) + U32(values[|values| - 1])
  }

  function ReadWords(bytes: seq<byte>, position: nat, count: nat): (values: seq<nat>)
    requires position + 4 * count <= |bytes|
    ensures |values| == count && forall i | 0 <= i < count :: values[i] <= U32_MAX
  {
    seq(count, i requires 0 <= i < count => ReadU32(bytes, position + 4 * i))
  }

  lemma ReadWordsStep(bytes: seq<byte>, position: nat, count: nat)
    requires position + 4 * count + 4 <= |bytes|
    ensures ReadWords(bytes, position, count + 1)
         == ReadWords(bytes, position, count) + [ReadU32(bytes, position + 4 * count)]
  {
  }

  lemma {:induction false} WordsRead(bytes: seq<byte>, position: nat, values: seq<nat>)
    requires forall i | 0 <= i < |values| :: values[i] <= U32_MAX
    requires position + 4 * |values| <= |bytes|
    requires bytes[position..position + 4 * |values|] == Words(values)
    ensures ReadWords(bytes, position, |values|) == values
  {
    hide ReadU32, U32;
    if values != [] {
      var last := |values| - 1;
      var middle := position + 4 * last;
      assert bytes[position..middle] == bytes[position..middle + 4][..4 * last];
      assert bytes[middle..middle + 4] == bytes[position..middle + 4][4 * last..];
      WordsRead(bytes, position, values[..last]);
      ReadOfU32(bytes, middle, values[last]);
      ReadWordsStep(bytes, position, last);
      assert values == values[..last] + [values[last]];
    }
  }

  lemma {:induction false} ReadWordsBack(bytes: seq<byte>, position: nat, count: nat)
    requires position + 4 * count <= |bytes|
    ensures Words(ReadWords(bytes, position, count)) == bytes[position..position + 4 * count]
  {
    hide ReadU32, U32;
    if count > 0 {
      var middle := position + 4 * (count - 1);
      ReadWordsBack(bytes, position, count - 1);
      ReadOfU32(bytes, middle, ReadU32(bytes, middle));
      ReadWordsStep(bytes, position, count - 1);
      var values := ReadWords(bytes, position, count);
      assert values[..count - 1] == ReadWords(bytes, position, count - 1);
      assert bytes[position..middle + 4] == bytes[position..middle] + bytes[middle..middle + 4];
    }
  }

  /** The code occurs in the bytes at a position. */
  predicate Embedded(bytes: seq<byte>, position: nat, code: seq<byte>) {
    position + |code| <= |bytes| && bytes[position..position + |code|] == code
  }

  lemma EmbeddedSplit(bytes: seq<byte>, position: nat, first: seq<byte>, second: seq<byte>)
    requires Embedded(bytes, position, first + second)
    ensures Embedded(bytes, position, first) && Embedded(bytes, position + |first|, second)
  {
    var middle := position + |first|;
    var all := bytes[position..middle + |second|];
    assert bytes[position..middle] == all[..|first|] == first;
    assert bytes[middle..middle + |second|] == all[|first|..] == second;
  }

  lemma EmbeddedJoin(bytes: seq<byte>, position: nat, first: seq<byte>, second: seq<byte>)
    requires Embedded(bytes, position, first) && Embedded(bytes, position + |first|, second)
    ensures Embedded(bytes, position, first + second)
  {
    var middle := position + |first|;
    assert bytes[position..middle + |second|] == bytes[position..middle] + bytes[middle..middle + |second|];
  }

  const U64_MAX: int := 0xFFFF_FFFF_FFFF_FFFF

  /** A 64-bit word; values beyond 64 bits are cut. */
  function U64(value: nat): (bytes: seq<byte>)
    ensures |bytes| == 8
  {
    U32(value % 0x1_0000_0000) + U32(value / 0x1_0000_0000 % 0x1_0000_0000)
  }

  function ReadU64(bytes: seq<byte>, position: nat): (value: nat)
    requires position + 8 <= |bytes|
    ensures value <= U64_MAX
  {
    ReadU32(bytes, position) + 0x1_0000_0000 * ReadU32(bytes, position + 4)
  }

  lemma ReadOfU64(bytes: seq<byte>, position: nat, value: nat)
    requires value <= U64_MAX && position + 8 <= |bytes|
    ensures Embedded(bytes, position, U64(value)) <==> ReadU64(bytes, position) == value
  {
    hide U32, ReadU32;
    var low, high := value % 0x1_0000_0000, value / 0x1_0000_0000;
    ReadOfU32(bytes, position, low);
    ReadOfU32(bytes, position + 4, high);
    var found := bytes[position..position + 8];
    assert found == bytes[position..position + 4] + bytes[position + 4..position + 8];
    assert found[..4] == bytes[position..position + 4] && found[4..] == bytes[position + 4..position + 8];
    assert (U32(low) + U32(high))[..4] == U32(low) && (U32(low) + U32(high))[4..] == U32(high);
    var first, second := ReadU32(bytes, position), ReadU32(bytes, position + 4);
    if first + 0x1_0000_0000 * second == value {
      assert value / 0x1_0000_0000 == second && value % 0x1_0000_0000 == first;
    }
  }

  // ------------------------------------------------------------ lists of codes

  /** The codes of a list one behind the other. */
  function EncodeList<T>(enc: T -> seq<byte>, items: seq<T>): seq<byte> {
    if items == [] then [] else EncodeList(enc, items[..|items| - 1]) + enc(items[|items| - 1])
  }

  /** At one place there is room for the code of one valid value only. */
  ghost predicate PrefixFree<T(!new)>(enc: T -> seq<byte>, valid: T -> bool) {
    forall bytes: seq<byte>, position: nat, x: T, y: T ::
      valid(x) && valid(y) && Embedded(bytes, position, enc(x)) && Embedded(bytes, position, enc(y)) ==> x == y
  }

  ghost predicate AllValid<T>(valid: T -> bool, items: seq<T>) {
    forall i: nat | i < |items| :: valid(items[i])
  }

  /** What a reader promises: it finds the one valid value encoded at the place, or there is none. */
  ghost predicate Found<T(!new)>(enc: T -> seq<byte>, valid: T -> bool, bytes: seq<byte>, start: nat, r: Option<T>, end: nat)
  {
    && (r.Some? ==> valid(r.value) && Embedded(bytes, start, enc(r.value)) && end == start + |enc(r.value)|)
    && (r.None? ==> forall x: T | valid(x) :: !Embedded(bytes, start, enc(x)))
  }

  lemma {:induction false} ListItem<T>(enc: T -> seq<byte>, items: seq<T>, i: nat, bytes: seq<byte>, position: nat)
    requires i < |items| && Embedded(bytes, position, EncodeList(enc, items))
    ensures Embedded(bytes, position, EncodeList(enc, items[..i]))
    ensures Embedded(bytes, position + |EncodeList(enc, items[..i])|, enc(items[i]))
  {
    var body, last := items[..|items| - 1], |items| - 1;
    EmbeddedSplit(bytes, position, EncodeList(enc, body), enc(items[last]));
    if i < last {
      ListItem(enc, body, i, bytes, position);
      assert body[..i] == items[..i];
    }
  }

  lemma {:induction false} ListPush<T>(enc: T -> seq<byte>, items: seq<T>, item: T)
    ensures EncodeList(enc, items + [item]) == EncodeList(enc, items) + enc(item)
  {
    assert (items + [item])[..|items|] == items;
  }

  lemma {:induction false} ListNone<T>(enc: T -> seq<byte>, items: seq<T>)
    requires |items| == 0
    ensures EncodeList(enc, items) == []
  {
  }

  lemma {:induction false} ListUnique<T(!new)>(enc: T -> seq<byte>, valid: T -> bool, first: seq<T>, second: seq<T>,
                                         bytes: seq<byte>, position: nat)
    requires PrefixFree(enc, valid) && AllValid(valid, first) && AllValid(valid, second) && |first| == |second|
    requires Embedded(bytes, position, EncodeList(enc, first)) && Embedded(bytes, position, EncodeList(enc, second))
    ensures first == second
  {
    if first != [] {
      var last := |first| - 1;
      ListItem(enc, first, last, bytes, position);
      ListItem(enc, second, last, bytes, position);
      ListUnique(enc, valid, first[..last], second[..last], bytes, position);
      assert first[last] == second[last];
      assert first == first[..last] + [first[last]] && second == second[..last] + [second[last]];
    }
  }

  lemma {:induction false} ListLength<T>(enc: T -> seq<byte>, items: seq<T>, least: nat)
    requires forall i: nat | i < |items| :: |enc(items[i])| >= least
    ensures |EncodeList(enc, items)| >= least * |items|
  {
    if items != [] {
      ListLength(enc, items[..|items| - 1], least);
      assert least * |items| == least * (|items| - 1) + least;
    }
  }

  /** The items a reader of a list has found so far. */
  ghost predicate ListFound<T>(enc: T -> seq<byte>, valid: T -> bool, bytes: seq<byte>, start: nat, items: seq<T>, end: nat)
  {
    AllValid(valid, items) && Embedded(bytes, start, EncodeList(enc, items)) && end == start + |EncodeList(enc, items)|
  }

  ghost predicate NoList<T(!new)>(enc: T -> seq<byte>, valid: T -> bool, bytes: seq<byte>, start: nat, n: nat) {
    forall items: seq<T> | |items| == n && AllValid(valid, items) :: !Embedded(bytes, start, EncodeList(enc, items))
  }

  lemma ListStart<T>(enc: T -> seq<byte>, valid: T -> bool, bytes: seq<byte>, start: nat)
    requires start <= |bytes|
    ensures ListFound(enc, valid, bytes, start, [], start)
  {
  }

  lemma ListGrows<T(!new)>(enc: T -> seq<byte>, valid: T -> bool, bytes: seq<byte>, start: nat, items: seq<T>, middle: nat,
                     item: T, end: nat)
    requires ListFound(enc, valid, bytes, start, items, middle) && Found(enc, valid, bytes, middle, Some(item), end)
    ensures ListFound(enc, valid, bytes, start, items + [item], end)
  {
    hide EncodeList;
    ListPush(enc, items, item);
    EmbeddedJoin(bytes, start, EncodeList(enc, items), enc(item));
  }

  /** Where one item is missing, the list is missing. */
  lemma ListMisses<T(!new)>(enc: T -> seq<byte>, valid: T -> bool, bytes: seq<byte>, start: nat, items: seq<T>, middle: nat,
                      n: nat, end: nat)
    requires PrefixFree(enc, valid) && |items| < n
    requires ListFound(enc, valid, bytes, start, items, middle) && Found(enc, valid, bytes, middle, None, end)
    ensures NoList(enc, valid, bytes, start, n)
  {
    hide EncodeList, PrefixFree, Embedded;
    forall other: seq<T> | |other| == n && AllValid(valid, other)
      ensures !Embedded(bytes, start, EncodeList(enc, other))
    {
      if Embedded(bytes, start, EncodeList(enc, other)) {
        var k := |items|;
        ListItem(enc, other, k, bytes, start);
        ListUnique(enc, valid, other[..k], items, bytes, start);
      }
    }
  }
}
