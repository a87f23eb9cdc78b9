/** Canonical variable-length integers: unsigned LEB128 (section 7.6 of DWARF 5) of 64 bits, in
    the shortest form only. */
module Varint {
  import opened Wrappers
  import opened Bytes

  /** Seven bits to a byte, low bits first, the high bit set on all but the last byte. */
  function Encode(value: nat): (code: seq<byte>)
    ensures |code| > 0
  {
    if value < 0x80 then [value] else [0x80 + value % 0x80] + Encode(value / 0x80)
  }

  /** 128 to the power of n. */
  function Power(n: nat): (p: nat)
    ensures p > 0
  {
    if n == 0 then 1 else 0x80 * Power(n - 1)
  }

  /** The value of a string of 7-bit groups. */
  function ValueOf(groups: seq<byte>): nat {
    if groups == [] then 0 else groups[0] % 0x80 + 0x80 * ValueOf(groups[1..])
  }

  predicate Terminated(code: seq<byte>) {
    && code != [] && code[|code| - 1] < 0x80
    && forall i: nat | i < |code| - 1 :: code[i] >= 0x80
  }

  /** The decoder's test for the shortest form. */
  function VarintLen(value: nat): (length: nat)
    ensures length > 0
  {
    if value < 0x80 then 1 else 1 + VarintLen(value / 0x80)
  }

  lemma {:induction false} EncodeShape(value: nat)
    ensures Terminated(Encode(value)) && ValueOf(Encode(value)) == value && |Encode(value)| == VarintLen(value)
  {
    if value < 0x80 {
      assert ValueOf([value]) == value % 0x80 + 0x80 * ValueOf([]);
    } else {
      EncodeShape(value / 0x80);
      var code := Encode(value);
      assert code[1..] == Encode(value / 0x80);
      forall i: nat | i < |code| - 1
        ensures code[i] >= 0x80
      {
        if i > 0 {
          assert code[i] == Encode(value / 0x80)[i - 1];
        }
      }
    }
  }

  /** A terminated string of the shortest length is the encoding of its value. */
  lemma {:induction false} ShortestIsEncoding(code: seq<byte>)
    requires Terminated(code) && |code| == VarintLen(ValueOf(code))
    ensures code == Encode(ValueOf(code))
  {
    var rest := code[1..];
    if |code| == 1 {
      assert rest == [];
    } else {
      assert code[0] >= 0x80;
      var value, high := ValueOf(code), ValueOf(rest);
      assert value / 0x80 == high && value % 0x80 == code[0] % 0x80;
      forall i: nat | i < |rest| - 1
        ensures rest[i] >= 0x80
      {
        assert rest[i] == code[i + 1];
      }
      ShortestIsEncoding(rest);
      assert code == [code[0]] + rest;
    }
  }

  /** The groups of a string end at the first byte without the high bit, so two encodings at one
      place are the same. */
  lemma {:induction false} EncodeUnique(bytes: seq<byte>, position: nat, first: nat, second: nat)
    requires Embedded(bytes, position, Encode(first)) && Embedded(bytes, position, Encode(second))
    ensures first == second
  {
    EncodeShape(first);
    EncodeShape(second);
    var one, other := Encode(first), Encode(second);
    TerminatedEnd(bytes, position, one, other);
    TerminatedEnd(bytes, position, other, one);
    assert one == other;
  }

  lemma TerminatedEnd(bytes: seq<byte>, position: nat, one: seq<byte>, other: seq<byte>)
    requires Terminated(one) && Terminated(other)
    requires Embedded(bytes, position, one) && Embedded(bytes, position, other)
    ensures |one| <= |other|
  {
    var n := |other| - 1;
    EmbeddedByte(bytes, position, other, n);
    if n < |one| - 1 {
      EmbeddedByte(bytes, position, one, n);
    }
  }

  lemma EmbeddedByte(bytes: seq<byte>, position: nat, code: seq<byte>, k: nat)
    requires Embedded(bytes, position, code) && k < |code|
    ensures bytes[position + k] == code[k]
  {
    assert bytes[position..position + |code|][k] == bytes[position + k];
  }

  lemma {:induction false} ValueOfPush(groups: seq<byte>, b: byte)
    ensures ValueOf(groups + [b]) == ValueOf(groups) + (b % 0x80) * Power(|groups|)
  {
    if groups == [] {
      assert ValueOf([b]) == b % 0x80 + 0x80 * ValueOf([]);
    } else {
      ValueOfPush(groups[1..], b);
      assert (groups + [b])[1..] == groups[1..] + [b];
      var rest, low := ValueOf(groups[1..]), b % 0x80;
      assert 0x80 * (rest + low * Power(|groups| - 1)) == 0x80 * rest + low * (0x80 * Power(|groups| - 1));
    }
  }

  lemma {:induction false} ValueBound(groups: seq<byte>)
    ensures ValueOf(groups) < Power(|groups|)
  {
    if groups != [] {
      ValueBound(groups[1..]);
    }
  }

  lemma PowerOfNine()
    ensures Power(9) == 0x8000_0000_0000_0000 && Power(10) == 0x40_0000_0000_0000_0000
  {
    assert Power(3) == 0x20_0000;
    assert Power(6) == 0x400_0000_0000;
    assert Power(9) == 0x8000_0000_0000_0000;
  }

  /** No encoding of a 64-bit value has more than ten bytes, nor a tenth byte above 1. */
  lemma {:induction false} EncodeFits(value: nat)
    requires value <= U64_MAX
    ensures |Encode(value)| <= 10
    ensures |Encode(value)| == 10 ==> Encode(value)[9] <= 1
  {
    hide Encode, Power, ValueOf, VarintLen;
    EncodeShape(value);
    PowerOfNine();
    var code := Encode(value);
    if |code| >= 10 {
      LastNonzero(value);
      TopGroup(code);
      PowerGrows(9, |code| - 1);
      if |code| > 10 {
        PowerGrows(10, |code| - 1);
      } else {
        assert Power(9) * code[9] <= value;
      }
    }
  }

  /** A string is worth at least its last group. */
  lemma {:induction false} TopGroup(groups: seq<byte>)
    requires Terminated(groups)
    ensures Power(|groups| - 1) * groups[|groups| - 1] <= ValueOf(groups)
    ensures groups[|groups| - 1] >= 1 ==> Power(|groups| - 1) <= ValueOf(groups)
  {
    hide Power, ValueOf;
    var n := |groups| - 1;
    ValueAt(groups, n);
    LastGroup(groups);
    var p: nat, top: nat := Power(n), groups[n];
    if top >= 1 {
      AtLeastOnce(p, top);
    }
  }

  lemma LastGroup(groups: seq<byte>)
    requires Terminated(groups)
    ensures ValueOf(groups[|groups| - 1..]) == groups[|groups| - 1]
  {
    var n := |groups| - 1;
    assert groups[n..] == [groups[n]];
    assert ValueOf([groups[n]]) == groups[n] % 0x80 + 0x80 * ValueOf([]);
  }

  lemma AtLeastOnce(p: nat, times: nat)
    requires times >= 1
    ensures p <= p * times
  {
  }

  lemma {:induction false} PowerGrows(n: nat, m: nat)
    requires n <= m
    ensures Power(n) <= Power(m)
  {
    if n < m {
      PowerGrows(n, m - 1);
    }
  }

  /** The last group of a longer encoding is not zero. */
  lemma {:induction false} LastNonzero(value: nat)
    ensures |Encode(value)| > 1 ==> Encode(value)[|Encode(value)| - 1] >= 1
  {
    if value >= 0x80 {
      LastNonzero(value / 0x80);
      var rest := Encode(value / 0x80);
      assert Encode(value)[|Encode(value)| - 1] == rest[|rest| - 1];
    }
  }

  /** The groups from position n on are worth their own value times the power. */
  lemma {:induction false} ValueAt(groups: seq<byte>, n: nat)
    requires n <= |groups|
    ensures ValueOf(groups) == ValueOf(groups[..n]) + Power(n) * ValueOf(groups[n..])
    decreases n
  {
    if n == 0 {
      assert groups[0..] == groups;
    } else {
      ValueAt(groups[1..], n - 1);
      assert groups[1..][..n - 1] == groups[..n][1..];
      assert groups[1..][n - 1..] == groups[n..];
      Scaled(ValueOf(groups[..n][1..]), n, ValueOf(groups[n..]));
    }
  }

  lemma Scaled(low: nat, n: nat, high: nat)
    requires 0 < n
    ensures 0x80 * (low + Power(n - 1) * high) == 0x80 * low + Power(n) * high
  {
  }

  /** All bytes of a stretch have the high bit. */
  predicate Continues(bytes: seq<byte>, from: nat, to: nat)
    requires to <= |bytes|
  {
    forall j: nat | from <= j < to :: bytes[j] >= 0x80
  }

  /** An encoding goes on behind bytes with the high bit. */
  lemma {:induction false} GoesOn(bytes: seq<byte>, position: nat, k: nat, value: nat)
    requires position + k <= |bytes| && Continues(bytes, position, position + k)
    requires Embedded(bytes, position, Encode(value))
    ensures |Encode(value)| > k
  {
    hide Encode;
    EncodeShape(value);
    EmbeddedByte(bytes, position, Encode(value), |Encode(value)| - 1);
  }

  /** No 64-bit value is encoded at the position. */
  ghost predicate NoneAt(bytes: seq<byte>, position: nat) {
    forall value: nat | value <= U64_MAX :: !Embedded(bytes, position, Encode(value))
  }

  lemma TooLong(bytes: seq<byte>, position: nat, k: nat)
    requires position + k <= |bytes| && Continues(bytes, position, position + k)
    requires || k >= 10
             || position + k == |bytes|
             || (k == 9 && position + 9 < |bytes| && bytes[position + 9] > 1)
    ensures NoneAt(bytes, position)
  {
    hide Encode, VarintLen, ValueOf;
    forall value: nat | value <= U64_MAX
      ensures !Embedded(bytes, position, Encode(value))
    {
      if Embedded(bytes, position, Encode(value)) {
        GoesOn(bytes, position, k, value);
        EncodeFits(value);
        if |Encode(value)| == 10 {
          EmbeddedByte(bytes, position, Encode(value), 9);
        }
      }
    }
  }

  lemma {:induction false} NotShortest(bytes: seq<byte>, position: nat, groups: seq<byte>)
    requires Terminated(groups) && Embedded(bytes, position, groups) && |groups| != VarintLen(ValueOf(groups))
    ensures NoneAt(bytes, position)
  {
    hide Encode, VarintLen, ValueOf;
    forall value: nat | value <= U64_MAX
      ensures !Embedded(bytes, position, Encode(value))
    {
      if Embedded(bytes, position, Encode(value)) {
        EncodeShape(value);
        TerminatedEnd(bytes, position, groups, Encode(value));
        TerminatedEnd(bytes, position, Encode(value), groups);
      }
    }
  }

  lemma {:induction false} TenGroups(groups: seq<byte>)
    requires |groups| <= 10 && (|groups| == 10 ==> groups[9] <= 1)
    ensures ValueOf(groups) <= U64_MAX
  {
    PowerOfNine();
    if |groups| == 10 {
      ValueAt(groups, 9);
      ValueBound(groups[..9]);
      assert groups[9..] == [groups[9]];
      assert ValueOf([groups[9]]) == groups[9] % 0x80 + 0x80 * ValueOf([]);
    } else {
      ValueBound(groups);
      PowerGrows(|groups|, 9);
    }
  }

  /** The encoder's loop. */
  method WriteVarU64(output: seq<byte>, value: nat) returns (written: seq<byte>)
    ensures written == output + Encode(value)
  {
    written := output;
    var rest := value;
    while true
      invariant written + Encode(rest) == output + Encode(value)
      decreases rest
    {
      var b: int := rest % 0x80;
      ghost var before := rest;
      rest := rest / 0x80;
      if rest != 0 {
        b := b + 0x80;
      }
      EncodeStep(before);
      assert written + [b] + Encode(rest) == written + ([b] + Encode(rest));
      written := written + [b];
      if rest == 0 {
        break;
      }
    }
  }

  lemma {:induction false} EncodeStep(value: nat)
    ensures Encode(value) == if value / 0x80 == 0 then [value % 0x80] else [0x80 + value % 0x80] + Encode(value / 0x80)
  {
  }

  lemma {:induction false} NoGroups(groups: seq<byte>)
    requires |groups| == 0
    ensures ValueOf(groups) == 0
  {
  }

  /** The decoder's loop; the position moves behind the encoding. */
  method ReadVarU64(input: seq<byte>, start: nat) returns (r: Option<nat>, position: nat)
    requires start <= |input|
    ensures start <= position <= |input|
    ensures r.Some? ==>
      r.value <= U64_MAX && Embedded(input, start, Encode(r.value)) && position == start + |Encode(r.value)|
    ensures r.None? ==> NoneAt(input, start)
  {
    hide Encode, NoneAt, VarintLen, Terminated, ValueOf, Power;
    position := start;
    var value := 0;
    var shift := 0;
    var b: byte := 0x80;
    NoGroups(input[start..position]);
    while true
      invariant start <= position <= |input| && shift == 7 * (position - start) <= 70
      invariant value == ValueOf(input[start..position])
      invariant Continues(input, start, position)
      decreases |input| - position
    {
      ghost var k := position - start;
      if shift >= 70 {
        TooLong(input, start, k);
        return None, position;
      }
      if position == |input| {
        TooLong(input, start, k);
        return None, position;
      }
      b := input[position];
      position := position + 1;
      if shift == 63 && b > 1 {
        TooLong(input, start, k);
        return None, position;
      }
      assert input[start..position] == input[start..position - 1] + [b] && shift / 7 == k;
      ValueOfPush(input[start..position - 1], b);
      value := value + (b % 0x80) * Power(shift / 7);
      if b < 0x80 {
        break;
      }
      shift := shift + 7;
    }
    ghost var groups := input[start..position];
    ReadGroups(input, start, position);
    var consumed := position - start;
    if consumed != VarintLen(value) {
      NotShortest(input, start, groups);
      return None, position;
    }
    ShortestIsEncoding(groups);
    r := Some(value);
  }

  lemma ReadGroups(input: seq<byte>, start: nat, position: nat)
    requires start < position <= |input| && position - start <= 10
    requires Continues(input, start, position - 1)
    requires input[position - 1] < 0x80 && (position - start == 10 ==> input[position - 1] <= 1)
    ensures Terminated(input[start..position]) && Embedded(input, start, input[start..position])
    ensures |input[start..position]| == position - start
    ensures ValueOf(input[start..position]) <= U64_MAX
  {
    var groups := input[start..position];
    forall i: nat | i < |groups| - 1
      ensures groups[i] >= 0x80
    {
      assert groups[i] == input[start + i];
    }
    TenGroups(groups);
  }
}
