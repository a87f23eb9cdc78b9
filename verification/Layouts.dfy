/** The binary forms, written out byte by byte. */
module Layouts {
  import opened Wrappers
  import opened Bytes
  import LosslessFormat
  import SidecarFormat
  import SidecarCodec
  import SidecarDecoder
  import Varint

  /** The lowest `count` bytes of a number, the lowest one first. */
  function Le(value: nat, count: nat): (bytes: seq<byte>)
    ensures |bytes| == count
  {
    if count == 0 then [] else [value % 0x100] + Le(value / 0x100, count - 1)
  }

  /** Seven bits to a byte, the lowest ones first; the high bit says that more follow. */
  function Leb(value: nat): seq<byte> {
    if value <= 0x7F then [value] else [0x80 + value % 0x80] + Leb(value / 0x80)
  }

  function Each<T>(form: T -> seq<byte>, items: seq<T>): seq<byte> {
    if items == [] then [] else form(items[0]) + Each(form, items[1..])
  }

  lemma NextByte(value: nat, count: nat)
    requires count > 0
    ensures Le(value, count) == [value % 0x100] + Le(value / 0x100, count - 1)
  {
  }

  lemma FourBytes(value: nat, n: nat)
    ensures Le(value, 4 + n)
         == [value % 0x100, value / 0x100 % 0x100, value / 0x1_0000 % 0x100, value / 0x100_0000 % 0x100]
            + Le(value / 0x1_0000_0000, n)
  {
    hide Le;
    NextByte(value, 4 + n);
    NextByte(value / 0x100, 3 + n);
    NextByte(value / 0x1_0000, 2 + n);
    NextByte(value / 0x100_0000, 1 + n);
    assert value / 0x100 / 0x100 == value / 0x1_0000;
    assert value / 0x1_0000 / 0x100 == value / 0x100_0000;
    assert value / 0x100_0000 / 0x100 == value / 0x1_0000_0000;
  }

  lemma LittleEndian32(value: nat)
    requires value <= U32_MAX
    ensures Le(value, 4) == U32(value)
  {
    FourBytes(value, 0);
    assert value / 0x100_0000 < 0x100;
  }

  lemma LittleEndian64(value: nat)
    requires value <= U64_MAX
    ensures Le(value, 8) == U64(value)
  {
    hide Le, U32;
    var low, high := value % 0x1_0000_0000, value / 0x1_0000_0000;
    FourBytes(value, 4);
    LittleEndian32(high);
    LowBytes(low, high);
    assert value == low + 0x1_0000_0000 * high;
  }

  lemma LowBytes(low: nat, high: nat)
    requires low <= U32_MAX
    ensures var value := low + 0x1_0000_0000 * high;
      U32(low) == [value % 0x100, value / 0x100 % 0x100, value / 0x1_0000 % 0x100, value / 0x100_0000 % 0x100]
  {
    LowByte(low, high);
    SecondByte(low, high);
    ThirdByte(low, high);
    FourthByte(low, high);
  }

  /** Adding whole multiples changes no lower digit. */
  lemma LowDigit(low: nat, high: nat)
    ensures (low + 0x100 * high) % 0x100 == low % 0x100
  {
  }

  lemma LowByte(low: nat, high: nat)
    ensures (low + 0x1_0000_0000 * high) % 0x100 == low % 0x100
  {
    LowDigit(low, 0x100_0000 * high);
  }

  lemma SecondByte(low: nat, high: nat)
    ensures (low + 0x1_0000_0000 * high) / 0x100 % 0x100 == low / 0x100 % 0x100
  {
    var q, r := low / 0x100, low % 0x100;
    assert low + 0x1_0000_0000 * high == 0x100 * (q + 0x100 * (0x1_0000 * high)) + r;
    SecondByteOf(q + 0x100 * (0x1_0000 * high), r);
    LowDigit(q, 0x1_0000 * high);
  }

  lemma SecondByteOf(q: nat, r: nat)
    requires r < 0x100
    ensures (0x100 * q + r) / 0x100 == q
  {
  }

  lemma ThirdByte(low: nat, high: nat)
    ensures (low + 0x1_0000_0000 * high) / 0x1_0000 % 0x100 == low / 0x1_0000 % 0x100
  {
    var q, r := low / 0x1_0000, low % 0x1_0000;
    assert low + 0x1_0000_0000 * high == 0x1_0000 * (q + 0x100 * (0x100 * high)) + r;
    ThirdByteOf(q + 0x100 * (0x100 * high), r);
    LowDigit(q, 0x100 * high);
  }

  lemma ThirdByteOf(q: nat, r: nat)
    requires r < 0x1_0000
    ensures (0x1_0000 * q + r) / 0x1_0000 == q
  {
  }

  lemma FourthDigit(low: nat, high: nat)
    ensures (low + 0x1_0000_0000 * high) / 0x100_0000 % 0x100 == low / 0x100_0000 % 0x100
  {
    var q, r := low / 0x100_0000, low % 0x100_0000;
    assert low + 0x1_0000_0000 * high == 0x100_0000 * (q + 0x100 * high) + r;
    FourthDigitOf(q + 0x100 * high, r);
    LowDigit(q, high);
  }

  lemma FourthDigitOf(q: nat, r: nat)
    requires r < 0x100_0000
    ensures (0x100_0000 * q + r) / 0x100_0000 == q
  {
  }

  lemma FourthByte(low: nat, high: nat)
    requires low <= U32_MAX
    ensures (low + 0x1_0000_0000 * high) / 0x100_0000 % 0x100 == low / 0x100_0000
  {
    FourthDigit(low, high);
  }

  lemma Regroup4(a: seq<byte>, b: seq<byte>, c: seq<byte>, d: seq<byte>)
    ensures a + (b + (c + d)) == a + b + c + d
  {
  }

  lemma Regroup5(a: seq<byte>, b: seq<byte>, c: seq<byte>, d: seq<byte>, e: seq<byte>)
    ensures a + (b + (c + (d + e))) == (a + b) + c + d + e
  {
  }

  lemma {:induction false} LebIsVarint(value: nat)
    ensures Leb(value) == Varint.Encode(value)
  {
    if value > 0x7F {
      LebIsVarint(value / 0x80);
    }
  }

  lemma EachFirst<T>(form: T -> seq<byte>, items: seq<T>)
    requires items != []
    ensures Each(form, items) == form(items[0]) + Each(form, items[1..])
  {
  }

  lemma {:induction false} EachConcat<T>(form: T -> seq<byte>, first: seq<T>, second: seq<T>)
    ensures Each(form, first + second) == Each(form, first) + Each(form, second)
  {
    if first == [] {
      assert first + second == second;
    } else {
      EachConcat(form, first[1..], second);
      EachFirst(form, first + second);
      EachFirst(form, first);
      hide Each;
      assert (first + second)[1..] == first[1..] + second && (first + second)[0] == first[0];
    }
  }

  lemma {:induction false} EachIsList<T, U>(form: T -> seq<byte>, enc: U -> seq<byte>, items: seq<T>, coded: seq<U>)
    requires |items| == |coded| && forall i: nat | i < |items| :: form(items[i]) == enc(coded[i])
    ensures Each(form, items) == EncodeList(enc, coded)
  {
    if items != [] {
      var body, last := items[..|items| - 1], items[|items| - 1];
      EachIsList(form, enc, body, coded[..|coded| - 1]);
      EachConcat(form, body, [last]);
      assert items == body + [last];
      assert Each(form, [last]) == form(last) + Each(form, [last][1..]);
    }
  }

  // ------------------------------------------------------------------------ the sidecar

  type SidecarUnit = SidecarFormat.SidecarUnit

  /** Cuts relative to the start of their unit. */
  function CutsLaid(start: nat, cuts: seq<nat>): seq<byte> {
    Leb(|cuts|) + Each((cut: nat) => Leb(if cut < start then 0 else cut - start), cuts)
  }

  /** Bits 0 to 2: the kind. Bits 3 and 4: the mode. Bits 5 and 6: no group, a new one or the one of the
      unit before. Bit 7: several candidates. */
  function FlagLaid(units: seq<SidecarUnit>, i: nat): int
    requires i < |units|
  {
    var unit := units[i];
    (unit.kind - 1) + 0x08 * (unit.mode - 1)
    + (if unit.groupId.None? then 0 else if i > 0 && units[i - 1].groupId == unit.groupId then 0x40 else 0x20)
    + if |unit.candidates| > 1 then 0x80 else 0
  }

  function CandidateLaid(start: nat): SidecarFormat.Candidate -> seq<byte> {
    (c: SidecarFormat.Candidate) => Le(c.scoreBits, 4) + CutsLaid(start, c.cuts)
  }

  /** The one selected candidate. */
  ghost predicate Chosen(cs: seq<SidecarFormat.Candidate>, k: nat) {
    k < |cs| && cs[k].selected && forall i: nat | i < |cs| && i != k :: !cs[i].selected
  }

  ghost function SidecarUnitLaid(units: seq<SidecarUnit>, i: nat, chosen: nat): seq<byte>
    requires i < |units| && units[i].start <= units[i].end && 0 <= FlagLaid(units, i) < 0x100
  {
    var unit := units[i];
    var cs := unit.candidates;
    Leb(unit.end - unit.start) + [FlagLaid(units, i)]
    + if |cs| == 1 then CutsLaid(unit.start, cs[0].cuts)
      else Leb(|cs|) + Leb(chosen) + Each(CandidateLaid(unit.start), cs)
  }

  /** What is written of a score: neither infinite nor not a number, so its exponent is not all ones. */
  lemma ScoreIsFinite(bits: nat)
    ensures SidecarFormat.IsFinite(bits) <==> bits <= 0xFFFF_FFFF && bits % 0x8000_0000 < 0x7F80_0000
  {
    var high, rest := bits / 0x8000_0000, bits % 0x8000_0000;
    var exponent, mantissa := rest / 0x80_0000, rest % 0x80_0000;
    assert bits == 0x80_0000 * (0x100 * high + exponent) + mantissa;
    ExponentIs(0x100 * high + exponent, mantissa);
    assert (0x100 * high + exponent) % 0x100 == exponent;
  }

  lemma ExponentIs(q: nat, r: nat)
    requires r < 0x80_0000
    ensures (0x80_0000 * q + r) / 0x80_0000 == q
  {
  }

  lemma CutsAreLaid(start: nat, cuts: seq<nat>)
    ensures CutsLaid(start, cuts) == SidecarCodec.EncodeCutList(SidecarFormat.Unshifted(start, cuts))
  {
    hide Leb, Varint.Encode;
    var form := (cut: nat) => Leb(if cut < start then 0 else cut - start);
    var relative := SidecarFormat.Unshifted(start, cuts);
    LebIsVarint(|cuts|);
    forall i: nat | i < |cuts|
      ensures form(cuts[i]) == Varint.Encode(relative[i])
    {
      LebIsVarint(relative[i]);
    }
    EachIsList(form, Varint.Encode, cuts, relative);
  }

  lemma GroupBits(units: seq<SidecarUnit>, i: nat)
    requires i < |units| && SidecarFormat.GroupsAfter(units[..i + 1]).Some?
    ensures SidecarFormat.StateAt(units, i)
         == if units[i].groupId.None? then 0 else if i > 0 && units[i - 1].groupId == units[i].groupId then 2 else 1
  {
    var more := units[..i + 1];
    assert more[..|more| - 1] == units[..i];
    PreviousGroup(units, i);
  }

  lemma PreviousGroup(units: seq<SidecarUnit>, i: nat)
    requires i <= |units| && SidecarFormat.GroupsAfter(units[..i]).Some?
    ensures SidecarFormat.GroupsAfter(units[..i]).value.previous == if i == 0 then None else units[i - 1].groupId
  {
  }

  lemma FlagIsLaid(units: seq<SidecarUnit>, i: nat)
    requires i < |units| && SidecarFormat.UnitValid(units[i]) && SidecarFormat.GroupsAfter(units[..i + 1]).Some?
    ensures SidecarCodec.Flags(SidecarFormat.ToBody(units[i], SidecarFormat.StateAt(units, i))) == FlagLaid(units, i)
  {
    hide SidecarFormat.CandidatesValid, SidecarFormat.GroupsAfter, SidecarFormat.StateAt, SidecarFormat.SelectedIndex;
    GroupBits(units, i);
  }

  lemma CandidatesAreLaid(unit: SidecarUnit, body: SidecarFormat.Body, chosen: nat)
    requires SidecarFormat.UnitValid(unit) && Chosen(unit.candidates, chosen)
    requires exists state: nat :: body == SidecarFormat.ToBody(unit, state)
    ensures SidecarCodec.EncodeCandidates(body) ==
      var cs := unit.candidates;
      if |cs| == 1 then CutsLaid(unit.start, cs[0].cuts)
      else Leb(|cs|) + Leb(chosen) + Each(CandidateLaid(unit.start), cs)
  {
    hide CutsLaid, Leb, Le, Varint.Encode, SidecarCodec.EncodeCutList, SidecarFormat.SelectedIndex, SidecarFormat.Unshifted,
         LosslessFormat.CutsValid, U32;
    var cs := unit.candidates;
    assert SidecarFormat.SelectedOnly(cs, chosen);
    SidecarFormat.SelectedIndexIs(cs, chosen);
    LebIsVarint(|cs|);
    LebIsVarint(chosen);
    if |cs| == 1 {
      CutsAreLaid(unit.start, cs[0].cuts);
    } else {
      forall i: nat | i < |cs|
        ensures CandidateLaid(unit.start)(cs[i]) == SidecarCodec.EncodeRelative(body.candidates[i])
      {
        assert SidecarFormat.CandidateValid(unit.start, unit.end, cs[i]);
        LittleEndian32(cs[i].scoreBits);
        CutsAreLaid(unit.start, cs[i].cuts);
      }
      EachIsList(CandidateLaid(unit.start), SidecarCodec.EncodeRelative, cs, body.candidates);
    }
  }

  lemma SidecarUnitIsLaid(units: seq<SidecarUnit>, i: nat, chosen: nat)
    requires i < |units| && SidecarFormat.UnitValid(units[i]) && SidecarFormat.GroupsAfter(units[..i + 1]).Some?
    requires Chosen(units[i].candidates, chosen)
    ensures 0 <= FlagLaid(units, i) < 0x100
    ensures SidecarCodec.EncodeBody(SidecarFormat.ToBody(units[i], SidecarFormat.StateAt(units, i)))
         == SidecarUnitLaid(units, i, chosen)
  {
    hide SidecarFormat.CandidatesValid, SidecarFormat.GroupsAfter, SidecarFormat.StateAt, SidecarFormat.SelectedIndex,
         SidecarCodec.EncodeCandidates, SidecarCodec.Flags, FlagLaid, Leb, Varint.Encode, CutsLaid, Each;
    var state := SidecarFormat.StateAt(units, i);
    var body := SidecarFormat.ToBody(units[i], state);
    FlagIsLaid(units, i);
    CandidatesAreLaid(units[i], body, chosen);
    LebIsVarint(body.length);
  }

  /** The units one behind the other, `chosen` naming the selected candidate of each. */
  ghost function SidecarUnitsLaid(units: seq<SidecarUnit>, chosen: seq<nat>, n: nat): seq<byte>
    requires n <= |units| <= |chosen|
    requires forall i: nat | i < n :: units[i].start <= units[i].end && 0 <= FlagLaid(units, i) < 0x100
  {
    if n == 0 then [] else SidecarUnitsLaid(units, chosen, n - 1) + SidecarUnitLaid(units, n - 1, chosen[n - 1])
  }

  lemma {:induction false} EarlierGroups(units: seq<SidecarUnit>, i: nat)
    requires i <= |units| && SidecarFormat.GroupsAfter(units).Some?
    ensures SidecarFormat.GroupsAfter(units[..i]).Some?
  {
    if i < |units| {
      EarlierGroups(units[..|units| - 1], i);
      assert units[..|units| - 1][..i] == units[..i];
    } else {
      assert units[..i] == units;
    }
  }

  ghost predicate SidecarReady(units: seq<SidecarUnit>, chosen: seq<nat>, length: nat)
    requires |chosen| == |units|
  {
    SidecarFormat.UnitsEncodable(units, length)
    && forall i: nat | i < |units| :: Chosen(units[i].candidates, chosen[i])
  }

  lemma ReadyUnit(units: seq<SidecarUnit>, chosen: seq<nat>, length: nat, i: nat)
    requires |chosen| == |units| && SidecarReady(units, chosen, length) && i < |units|
    ensures SidecarFormat.UnitValid(units[i]) && units[i].start <= units[i].end && Chosen(units[i].candidates, chosen[i])
    ensures SidecarFormat.GroupsAfter(units[..i + 1]).Some?
  {
    hide SidecarFormat.GroupsAfter, SidecarFormat.CandidatesValid, SidecarFormat.EndOf, Chosen;
    EarlierGroups(units, i + 1);
  }

  lemma {:induction false} SidecarUnitsAreLaid(units: seq<SidecarUnit>, chosen: seq<nat>, length: nat, n: nat)
    requires |chosen| == |units| && SidecarReady(units, chosen, length) && n <= |units|
    ensures forall i: nat | i < n :: units[i].start <= units[i].end && 0 <= FlagLaid(units, i) < 0x100
    ensures EncodeList(SidecarCodec.EncodeBody, SidecarFormat.Bodies(units)[..n]) == SidecarUnitsLaid(units, chosen, n)
  {
    hide SidecarReady, SidecarFormat.ToBody, SidecarCodec.EncodeBody, SidecarUnitLaid, FlagLaid, SidecarFormat.StateAt,
         SidecarFormat.UnitValid, SidecarFormat.GroupsAfter, Chosen, EncodeList, SidecarFormat.Bodies;
    if n == 0 {
      ListNone(SidecarCodec.EncodeBody, SidecarFormat.Bodies(units)[..0]);
    } else {
      SidecarUnitsAreLaid(units, chosen, length, n - 1);
      ReadyUnit(units, chosen, length, n - 1);
      SidecarUnitIsLaid(units, n - 1, chosen[n - 1]);
      BodyAt(units, n - 1);
      var bodies := SidecarFormat.Bodies(units);
      assert bodies[..n] == bodies[..n - 1] + [bodies[n - 1]];
      ListPush(SidecarCodec.EncodeBody, bodies[..n - 1], bodies[n - 1]);
    }
  }

  lemma BodyAt(units: seq<SidecarUnit>, i: nat)
    requires i < |units|
    ensures SidecarFormat.Bodies(units)[i] == SidecarFormat.ToBody(units[i], SidecarFormat.StateAt(units, i))
  {
    hide SidecarFormat.ToBody, SidecarFormat.StateAt;
  }

  /** A sidecar: eight bytes that name it, version 2, the identity of the assets, the digest of what
      follows; then the length and the digest of the document, the number of units, and the units. */
  lemma SidecarIsLaid(assets: SidecarDecoder.Assets, raw: seq<byte>, units: seq<SidecarUnit>, chosen: seq<nat>)
    requires |chosen| == |units| && SidecarReady(units, chosen, |raw|)
    ensures forall i: nat | i < |units| :: units[i].start <= units[i].end && 0 <= FlagLaid(units, i) < 0x100
    ensures SidecarDecoder.Encode(assets, raw, units) ==
      var payload := Leb(|raw|) + assets.digest(raw) + Leb(|units|) + SidecarUnitsLaid(units, chosen, |units|);
      [0x4E, 0x44, 0x46, 0x53, 0x49, 0x44, 0x30, 0x32, 0x02, 0x00, 0x00, 0x00]
      + assets.identity + assets.digest(payload) + payload
  {
    hide SidecarReady, SidecarFormat.Bodies, SidecarCodec.EncodeBody, SidecarUnitsLaid, FlagLaid, Leb, Varint.Encode, EncodeList;
    SidecarUnitsAreLaid(units, chosen, |raw|, |units|);
    assert SidecarFormat.Bodies(units)[..|units|] == SidecarFormat.Bodies(units);
    LebIsVarint(|raw|);
    LebIsVarint(|units|);
    var payload := Leb(|raw|) + assets.digest(raw) + Leb(|units|) + SidecarUnitsLaid(units, chosen, |units|);
    Regroup4(Leb(|raw|), assets.digest(raw), Leb(|units|), SidecarUnitsLaid(units, chosen, |units|));
    SidecarHeader(assets, payload);
  }

  lemma SidecarHeader(assets: SidecarDecoder.Assets, payload: seq<byte>)
    ensures SidecarDecoder.SIDECAR_MAGIC + (U32(SidecarDecoder.SCHEMA_VERSION)
        + (assets.identity + (assets.digest(payload) + payload)))
      == [0x4E, 0x44, 0x46, 0x53, 0x49, 0x44, 0x30, 0x32, 0x02, 0x00, 0x00, 0x00]
        + assets.identity + assets.digest(payload) + payload
  {
    Regroup5(SidecarDecoder.SIDECAR_MAGIC, U32(SidecarDecoder.SCHEMA_VERSION), assets.identity, assets.digest(payload), payload);
    assert SidecarDecoder.SIDECAR_MAGIC + U32(SidecarDecoder.SCHEMA_VERSION)
      == [0x4E, 0x44, 0x46, 0x53, 0x49, 0x44, 0x30, 0x32, 0x02, 0x00, 0x00, 0x00];
  }
}
