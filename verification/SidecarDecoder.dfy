/** Writing and loading whole sidecars. */
module SidecarDecoder {
  import opened Wrappers
  import opened Bytes
  import opened LosslessFormat
  import opened SidecarFormat
  import opened SidecarCodec
  import opened SidecarReader
  import Varint

  const SIDECAR_MAGIC: seq<byte> := [0x4E, 0x44, 0x46, 0x53, 0x49, 0x44, 0x30, 0x32]
  const SCHEMA_VERSION: nat := 2

  /** The digest function and the identity of the assets a sidecar belongs to. */
  datatype Assets = Assets(digest: seq<byte> -> seq<byte>, identity: seq<byte>) {
    ghost predicate Valid() {
      |identity| == 32 && forall bytes: seq<byte> :: |digest(bytes)| == 32
    }
  }

  function Payload(assets: Assets, raw: seq<byte>, units: seq<SidecarUnit>): seq<byte> {
    Varint.Encode(|raw|) + (assets.digest(raw) + (Varint.Encode(|units|) + EncodeList(EncodeBody, Bodies(units))))
  }

  function Encode(assets: Assets, raw: seq<byte>, units: seq<SidecarUnit>): seq<byte> {
    var payload := Payload(assets, raw, units);
    SIDECAR_MAGIC + (U32(SCHEMA_VERSION) + (assets.identity + (assets.digest(payload) + payload)))
  }

  // ------------------------------------------------------------------ one unit

  /** A body may stand at a place: its group state means something and it ends in time. */
  ghost predicate Fits(body: Body, start: nat, length: nat, g: Groups) {
    BodyDecodable(body) && start + body.length <= length && DecodeGroup(g, body.state).Some?
  }

  ghost predicate NoBody(bytes: seq<byte>, position: nat, start: nat, length: nat, g: Groups) {
    forall body | Fits(body, start, length, g) :: !Embedded(bytes, position, EncodeBody(body))
  }

  lemma NoBodyByLength(bytes: seq<byte>, position: nat, start: nat, length: nat, g: Groups, found: Option<nat>)
    requires found.None? ==> Varint.NoneAt(bytes, position)
    requires found.Some? ==>
      && Embedded(bytes, position, Varint.Encode(found.value))
      && (found.value == 0 || start + found.value > length || position + |Varint.Encode(found.value)| == |bytes|)
    ensures NoBody(bytes, position, start, length, g)
  {
    hide Varint.Encode, Embedded, EncodeBody, EncodeCandidates, RelativeValid, Flags;
    forall body | Fits(body, start, length, g)
      ensures !Embedded(bytes, position, EncodeBody(body))
    {
      if Embedded(bytes, position, EncodeBody(body)) {
        BodyParts(bytes, position, body);
        if found.Some? {
          Varint.EncodeUnique(bytes, position, found.value, body.length);
        }
      }
    }
  }

  lemma {:induction false} NoBodyByFlags(bytes: seq<byte>, position: nat, start: nat, length: nat, g: Groups, found: nat, flags: byte)
    requires Embedded(bytes, position, Varint.Encode(found))
    requires position + |Varint.Encode(found)| < |bytes| && bytes[position + |Varint.Encode(found)|] == flags
    requires || UnpackMode(flags).None? || DecodeGroup(g, UnpackState(flags)).None?
             || NoCandidates(bytes, position + |Varint.Encode(found)| + 1, found, UnpackAmbiguous(flags))
    ensures NoBody(bytes, position, start, length, g)
  {
    hide Varint.Encode, Embedded, EncodeBody, EncodeCandidates, RelativeValid, Flags, DecodeGroup, UnpackMode, UnpackState;
    forall body | Fits(body, start, length, g)
      ensures !Embedded(bytes, position, EncodeBody(body))
    {
      if Embedded(bytes, position, EncodeBody(body)) {
        BodyParts(bytes, position, body);
        Varint.EncodeUnique(bytes, position, found, body.length);
        FlagsOf(body);
      }
    }
  }

  /** A body put together from what was read. */
  lemma {:induction false} BodyRead(bytes: seq<byte>, position: nat, flags: byte, length: nat, selected: nat, found: seq<Relative>, end: nat)
    requires 0 < length && Embedded(bytes, position, Varint.Encode(length))
    requires position + |Varint.Encode(length)| < |bytes| && bytes[position + |Varint.Encode(length)|] == flags
    requires UnpackMode(flags).Some? && UnpackState(flags) <= 2
    requires CandidatesRead(bytes, position + |Varint.Encode(length)| + 1, length, UnpackAmbiguous(flags), selected, found, end)
    ensures var body := Body(length, UnpackKind(flags), UnpackMode(flags).value, UnpackState(flags), selected, found);
      BodyDecodable(body) && Embedded(bytes, position, EncodeBody(body)) && end == position + |EncodeBody(body)|
  {
    hide Varint.Encode, Embedded, EncodeBody, EncodeCutList, EncodeRelative, EncodeList, RelativeValid;
    var body := Body(length, UnpackKind(flags), UnpackMode(flags).value, UnpackState(flags), selected, found);
    assert EncodeCandidates(body) == EncodeCandidates(Shell(length, selected, found));
    FlagsRoundTrip(flags, body.kind, body.mode, body.state, UnpackAmbiguous(flags));
    BodyJoined(bytes, position, body);
  }

  method ReadUnit(reader: Reader, start: nat, length: nat, g: Groups)
    returns (r: Option<(SidecarUnit, Groups)>, ghost body: Body)
    requires reader.Valid() && length <= U64_MAX && start <= length && g.Valid()
    modifies reader
    ensures reader.Valid()
    ensures r.Some? ==>
      && Fits(body, start, length, g) && Embedded(reader.input, old(reader.position), EncodeBody(body))
      && reader.position == old(reader.position) + |EncodeBody(body)|
      && r.value == (FromBody(start, body, DecodeGroup(g, body.state).value.0), DecodeGroup(g, body.state).value.1)
    ensures r.None? ==> NoBody(reader.input, old(reader.position), start, length, g)
  {
    hide Varint.Encode, Embedded, EncodeBody, EncodeCandidates, RelativeValid, Flags, UnpackMode, UnpackKind, UnpackState,
         NoBody, CandidatesRead, NoCandidates, DecodeGroup, Varint.NoneAt, UnpackAmbiguous;
    ghost var input, from := reader.input, reader.position;
    body := Shell(0, 0, []);
    var found := reader.VarU64();
    if found.None? || found.value == 0 || start + found.value > length {
      NoBodyByLength(input, from, start, length, g, found);
      return None, body;
    }
    var flags := reader.TakeByte();
    if flags.None? {
      NoBodyByLength(input, from, start, length, g, found);
      return None, body;
    }
    var kind, mode := UnpackKind(flags.value), UnpackMode(flags.value);
    var group := DecodeGroup(g, UnpackState(flags.value));
    if mode.None? || group.None? {
      NoBodyByFlags(input, from, start, length, g, found.value, flags.value);
      return None, body;
    }
    var candidates;
    ghost var selected, relatives;
    candidates, selected, relatives := reader.ReadCandidates(start, start + found.value, UnpackAmbiguous(flags.value));
    if candidates.None? {
      NoBodyByFlags(input, from, start, length, g, found.value, flags.value);
      return None, body;
    }
    body := Body(found.value, kind, mode.value, UnpackState(flags.value), selected, relatives);
    StateKnown(g, UnpackState(flags.value));
    BodyRead(input, from, flags.value, found.value, selected, relatives, reader.position);
    var unit := SidecarUnit(start, start + found.value, kind, mode.value, group.value.0, candidates.value);
    assert unit == FromBody(start, body, group.value.0);
    r := Some((unit, group.value.1));
  }

  lemma StateKnown(g: Groups, state: nat)
    requires DecodeGroup(g, state).Some?
    ensures state <= 2
  {
  }

  // ---------------------------------------------------------------- all units

  ghost predicate NoUnits(bytes: seq<byte>, from: nat, count: nat, length: nat) {
    forall units: seq<SidecarUnit> | UnitsDecodable(units, length) && |units| == count ::
      !Embedded(bytes, from, EncodeList(EncodeBody, Bodies(units)))
  }

  lemma DecodableInRow(units: seq<SidecarUnit>, length: nat)
    requires UnitsDecodable(units, length)
    ensures UnitsInRow(units, length) && AllValid(BodyDecodable, Bodies(units))
  {
    hide UnitValid, ToBody, BodyValid;
    forall i: nat | i < |units|
      ensures BodyDecodable(Bodies(units)[i])
    {
      FromToBody(units[i], StateAt(units, i));
      CandidateCount(units[i], StateAt(units, i));
    }
  }

  lemma CandidateCount(unit: SidecarUnit, state: nat)
    ensures |ToBody(unit, state).candidates| == |unit.candidates|
  {
  }

  lemma {:induction false} PlacePrefix(bodies: seq<Body>, length: nat, k: nat)
    requires k <= |bodies| && Place(bodies, length).Some?
    ensures Place(bodies[..k], length).Some?
  {
    if k < |bodies| {
      var body := bodies[..|bodies| - 1];
      PlacePrefix(body, length, k);
      assert body[..k] == bodies[..k];
    } else {
      assert bodies[..k] == bodies;
    }
  }

  /** The next body of a document that starts with the bodies read fits where they end. */
  lemma {:induction false} NextFits(bodies: seq<Body>, k: nat, length: nat)
    requires k < |bodies| && Place(bodies, length).Some? && AllValid(BodyDecodable, bodies)
    ensures Place(bodies[..k], length).Some?
    ensures var units := Place(bodies[..k], length).value;
      GroupsAfter(units).Some? && Fits(bodies[k], EndOf(units), length, GroupsAfter(units).value)
  {
    hide FromBody, BodyDecodable, DecodeGroup, GroupsAfter;
    PlacePrefix(bodies, length, k + 1);
    assert bodies[..k + 1][..k] == bodies[..k];
  }

  lemma {:induction false} UnitsMiss(bytes: seq<byte>, from: nat, bodies: seq<Body>, middle: nat, count: nat, length: nat)
    requires |bodies| < count && Place(bodies, length).Some? && GroupsAfter(Place(bodies, length).value).Some?
    requires ListFound(EncodeBody, BodyDecodable, bytes, from, bodies, middle)
    requires var units := Place(bodies, length).value;
      NoBody(bytes, middle, EndOf(units), length, GroupsAfter(units).value)
    ensures NoUnits(bytes, from, count, length)
  {
    hide EncodeBody, EncodeList, Embedded, BodyDecodable, UnitsDecodable, PrefixFree, Place, GroupsAfter, EndOf, Bodies,
         NormalizedAll, Fits;
    forall units: seq<SidecarUnit> | UnitsDecodable(units, length) && |units| == count
      ensures !Embedded(bytes, from, EncodeList(EncodeBody, Bodies(units)))
    {
      if Embedded(bytes, from, EncodeList(EncodeBody, Bodies(units))) {
        var other, k := Bodies(units), |bodies|;
        DecodableInRow(units, length);
        PlaceBodies(units, length);
        NextFits(other, k, length);
        ListItem(EncodeBody, other, k, bytes, from);
        DecodablePrefixFree();
        ListUnique(EncodeBody, BodyDecodable, other[..k], bodies, bytes, from);
      }
    }
  }

  lemma DecodablePrefixFree()
    ensures PrefixFree(EncodeBody, BodyDecodable)
  {
    hide EncodeBody, Embedded, BodyValid;
    BodyPrefixFree();
  }

  method ReadUnits(reader: Reader, count: nat, length: nat) returns (r: Option<seq<SidecarUnit>>, ghost bodies: seq<Body>)
    requires reader.Valid() && length <= U64_MAX
    modifies reader
    ensures reader.Valid()
    ensures r.Some? ==>
      && |bodies| == count && Place(bodies, length) == r && GroupsAfter(r.value).Some?
      && ListFound(EncodeBody, BodyDecodable, reader.input, old(reader.position), bodies, reader.position)
    ensures r.None? ==> NoUnits(reader.input, old(reader.position), count, length)
  {
    hide EncodeBody, EncodeList, Embedded, BodyDecodable, NoBody, NoUnits, FromBody, DecodeGroup, EncodeGroup, ListFound;
    ghost var from, input := reader.position, reader.input;
    var units: seq<SidecarUnit> := [];
    var groups, start := NO_GROUPS, 0;
    bodies := [];
    ListStart(EncodeBody, BodyDecodable, input, from);
    for i := 0 to count
      invariant reader.Valid() && |bodies| == i && start == EndOf(units) <= length
      invariant Place(bodies, length) == Some(units) && GroupsAfter(units) == Some(groups)
      invariant ListFound(EncodeBody, BodyDecodable, input, from, bodies, reader.position)
    {
      ghost var middle := reader.position;
      var unit;
      ghost var body;
      unit, body := ReadUnit(reader, start, length, groups);
      if unit.None? {
        UnitsMiss(input, from, bodies, middle, count, length);
        return None, bodies;
      }
      PlacePush(bodies, body, length, units, groups);
      ListGrows(EncodeBody, BodyDecodable, input, from, bodies, middle, body, reader.position);
      bodies := bodies + [body];
      units := units + [unit.value.0];
      groups := unit.value.1;
      start := unit.value.0.end;
    }
    r := Some(units);
  }

  lemma {:induction false} PlacePush(bodies: seq<Body>, body: Body, length: nat, units: seq<SidecarUnit>, g: Groups)
    requires Place(bodies, length) == Some(units) && GroupsAfter(units) == Some(g)
    requires Fits(body, EndOf(units), length, g)
    ensures var (id, next) := DecodeGroup(g, body.state).value;
      var unit := FromBody(EndOf(units), body, id);
      && Place(bodies + [body], length) == Some(units + [unit])
      && GroupsAfter(units + [unit]) == Some(next) && EndOf(units + [unit]) == unit.end <= length
  {
    hide BodyDecodable;
    var (id, next) := DecodeGroup(g, body.state).value;
    var unit := FromBody(EndOf(units), body, id);
    assert (bodies + [body])[..|bodies|] == bodies;
    assert (units + [unit])[..|units|] == units;
    GroupCoding(g, id, body.state);
    StateKnown(g, body.state);
  }

  // ------------------------------------------------------------- whole sidecars

  /** Where the unit bodies start in a payload. */
  function BodiesStart(raw: seq<byte>, count: nat): nat {
    |Varint.Encode(|raw|)| + 32 + |Varint.Encode(count)|
  }

  lemma {:induction false} PayloadParts(assets: Assets, raw: seq<byte>, units: seq<SidecarUnit>)
    requires assets.Valid()
    ensures var payload := Payload(assets, raw, units);
      var digest := |Varint.Encode(|raw|)|;
      && Embedded(payload, 0, Varint.Encode(|raw|))
      && Embedded(payload, digest, assets.digest(raw))
      && Embedded(payload, digest + 32, Varint.Encode(|units|))
      && Embedded(payload, BodiesStart(raw, |units|), EncodeList(EncodeBody, Bodies(units)))
      && |payload| == BodiesStart(raw, |units|) + |EncodeList(EncodeBody, Bodies(units))|
  {
    hide Varint.Encode, EncodeList, EncodeBody, Bodies;
    var payload, list := Payload(assets, raw, units), EncodeList(EncodeBody, Bodies(units));
    assert payload[0..|payload|] == payload;
    EmbeddedSplit(payload, 0, Varint.Encode(|raw|), assets.digest(raw) + (Varint.Encode(|units|) + list));
    var digest := |Varint.Encode(|raw|)|;
    EmbeddedSplit(payload, digest, assets.digest(raw), Varint.Encode(|units|) + list);
    EmbeddedSplit(payload, digest + 32, Varint.Encode(|units|), list);
  }

  lemma {:induction false} PayloadJoined(assets: Assets, raw: seq<byte>, units: seq<SidecarUnit>, payload: seq<byte>)
    requires assets.Valid() && Embedded(payload, 0, Varint.Encode(|raw|))
    requires Embedded(payload, |Varint.Encode(|raw|)|, assets.digest(raw))
    requires Embedded(payload, |Varint.Encode(|raw|)| + 32, Varint.Encode(|units|))
    requires Embedded(payload, BodiesStart(raw, |units|), EncodeList(EncodeBody, Bodies(units)))
    requires |payload| == BodiesStart(raw, |units|) + |EncodeList(EncodeBody, Bodies(units))|
    ensures payload == Payload(assets, raw, units)
  {
    hide Varint.Encode, EncodeList, EncodeBody, Bodies;
    var list, digest := EncodeList(EncodeBody, Bodies(units)), |Varint.Encode(|raw|)|;
    EmbeddedJoin(payload, digest + 32, Varint.Encode(|units|), list);
    EmbeddedJoin(payload, digest, assets.digest(raw), Varint.Encode(|units|) + list);
    EmbeddedJoin(payload, 0, Varint.Encode(|raw|), assets.digest(raw) + (Varint.Encode(|units|) + list));
    assert payload[0..|payload|] == payload;
  }

  /** A sidecar is its fixed header, the digest of the payload and the payload. */
  lemma SidecarParts(assets: Assets, raw: seq<byte>, units: seq<SidecarUnit>, input: seq<byte>)
    requires assets.Valid()
    ensures input == Encode(assets, raw, units) <==>
      && |input| >= 76 && input[..8] == SIDECAR_MAGIC && ReadU32(input, 8) == SCHEMA_VERSION
      && input[12..44] == assets.identity && input[44..76] == assets.digest(input[76..])
      && input[76..] == Payload(assets, raw, units)
  {
    hide U32, ReadU32, Payload;
    var payload := Payload(assets, raw, units);
    if input == Encode(assets, raw, units) {
      assert input[0..|input|] == input;
      var tail2 := assets.digest(payload) + payload;
      var tail1 := assets.identity + tail2;
      EmbeddedSplit(input, 0, SIDECAR_MAGIC, U32(SCHEMA_VERSION) + tail1);
      EmbeddedSplit(input, 8, U32(SCHEMA_VERSION), tail1);
      EmbeddedSplit(input, 12, assets.identity, tail2);
      EmbeddedSplit(input, 44, assets.digest(payload), payload);
      ReadOfU32(input, 8, SCHEMA_VERSION);
      assert input[76..] == payload;
    }
    if |input| >= 76 && input[..8] == SIDECAR_MAGIC && ReadU32(input, 8) == SCHEMA_VERSION
       && input[12..44] == assets.identity && input[44..76] == assets.digest(input[76..])
       && input[76..] == payload {
      ReadOfU32(input, 8, SCHEMA_VERSION);
      assert input == input[..8] + (input[8..12] + (input[12..44] + (input[44..76] + input[76..])));
    }
  }

  /** Units that are not empty are no more than the bytes they cover. */
  lemma {:induction false} UnitsAreFew(units: seq<SidecarUnit>, length: nat)
    requires UnitsInRow(units, length)
    ensures |units| <= EndOf(units)
  {
    hide UnitValid, GroupsAfter;
    if units != [] {
      InRowPrefix(units, length);
      UnitsAreFew(units[..|units| - 1], length);
      assert UnitValid(units[|units| - 1]) && units[|units| - 1].start == EndOf(units[..|units| - 1]);
      LastBeforeEnd(units[|units| - 1]);
    }
  }

  /** What the first fields of a payload must say. */
  lemma {:induction false} PayloadNeeds(assets: Assets, raw: seq<byte>, payload: seq<byte>, units: seq<SidecarUnit>)
    requires assets.Valid() && |raw| <= U64_MAX && UnitsDecodable(units, |raw|) && payload == Payload(assets, raw, units)
    ensures !Varint.NoneAt(payload, 0) && Embedded(payload, 0, Varint.Encode(|raw|))
    ensures Embedded(payload, |Varint.Encode(|raw|)|, assets.digest(raw))
    ensures |units| <= |raw| && !Varint.NoneAt(payload, |Varint.Encode(|raw|)| + 32)
  {
    hide Varint.Encode, EncodeList, EncodeBody, Bodies, Payload, UnitsDecodable;
    PayloadParts(assets, raw, units);
    DecodableInRow(units, |raw|);
    UnitsAreFew(units, |raw|);
    InRowEnd(units, |raw|);
  }

  lemma InRowEnd(units: seq<SidecarUnit>, length: nat)
    requires UnitsInRow(units, length)
    ensures EndOf(units) <= length
  {
  }

  /** Once the bodies of a payload are read, every document with that payload has their units. */
  lemma {:induction false} OnlyUnits(assets: Assets, raw: seq<byte>, payload: seq<byte>, bodies: seq<Body>, end: nat, units: seq<SidecarUnit>)
    requires assets.Valid() && |raw| <= U64_MAX && UnitsDecodable(units, |raw|) && payload == Payload(assets, raw, units)
    requires |bodies| == |units|
    requires ListFound(EncodeBody, BodyDecodable, payload, BodiesStart(raw, |bodies|), bodies, end)
    ensures Place(bodies, |raw|) == Some(NormalizedAll(units)) && end == |payload|
  {
    hide Varint.Encode, EncodeList, EncodeBody, Bodies, Payload, UnitsDecodable, BodyDecodable, Place, NormalizedAll;
    PayloadParts(assets, raw, units);
    DecodableInRow(units, |raw|);
    DecodablePrefixFree();
    ListUnique(EncodeBody, BodyDecodable, Bodies(units), bodies, payload, BodiesStart(raw, |bodies|));
    PlaceBodies(units, |raw|);
  }

  ghost predicate NoSidecar(assets: Assets, raw: seq<byte>, payload: seq<byte>) {
    forall units: seq<SidecarUnit> | UnitsDecodable(units, |raw|) :: payload != Payload(assets, raw, units)
  }

  lemma EncodableInRow(units: seq<SidecarUnit>, length: nat)
    requires UnitsEncodable(units, length)
    ensures UnitsInRow(units, length) && AllValid(BodyValid, Bodies(units))
  {
    hide UnitValid, ToBody, BodyValid, GroupsAfter;
    forall i: nat | i < |units|
      ensures BodyValid(Bodies(units)[i])
    {
      FromToBody(units[i], StateAt(units, i));
    }
  }

  /** Two documents with the same sidecar agree up to the unused scores of lone candidates, however
      many candidates their units have. */
  lemma EncodeInjective(assets: Assets, raw: seq<byte>, first: seq<SidecarUnit>, second: seq<SidecarUnit>)
    requires assets.Valid() && |raw| <= U64_MAX && UnitsEncodable(first, |raw|) && UnitsEncodable(second, |raw|)
    requires Encode(assets, raw, first) == Encode(assets, raw, second)
    ensures NormalizedAll(first) == NormalizedAll(second)
  {
    hide Varint.Encode, EncodeList, EncodeBody, Payload, UnitsEncodable, BodyValid, Place, NormalizedAll, Encode, Embedded,
         BodiesStart, Bodies, UnitsInRow, PrefixFree;
    var input := Encode(assets, raw, first);
    SidecarParts(assets, raw, first, input);
    SidecarParts(assets, raw, second, input);
    var payload := input[76..];
    PayloadParts(assets, raw, first);
    PayloadParts(assets, raw, second);
    Varint.EncodeUnique(payload, |Varint.Encode(|raw|)| + 32, |first|, |second|);
    EncodableInRow(first, |raw|);
    EncodableInRow(second, |raw|);
    BodyPrefixFree();
    ListUnique(EncodeBody, BodyValid, Bodies(first), Bodies(second), payload, BodiesStart(raw, |first|));
    PlaceBodies(first, |raw|);
    PlaceBodies(second, |raw|);
  }

  // ------------------------------------------------------- what the decoder refuses

  predicate FewCandidates(units: seq<SidecarUnit>) {
    forall i: nat | i < |units| :: |units[i].candidates| <= 256
  }

  /** Some units that the decoder accepts have the encoding. */
  ghost predicate Accepted(assets: Assets, raw: seq<byte>, input: seq<byte>) {
    exists units: seq<SidecarUnit> :: UnitsDecodable(units, |raw|) && Encode(assets, raw, units) == input
  }

  lemma SameCandidateCounts(first: seq<SidecarUnit>, second: seq<SidecarUnit>)
    requires NormalizedAll(first) == NormalizedAll(second)
    ensures FewCandidates(first) <==> FewCandidates(second)
  {
    assert |first| == |NormalizedAll(first)| == |second|;
    forall i: nat | i < |first|
      ensures |first[i].candidates| == |second[i].candidates|
    {
      assert NormalizedAll(first)[i] == NormalizedAll(second)[i];
    }
  }

  /** What the encoder writes is accepted by the decoder exactly if no unit has too many candidates. */
  lemma AcceptedIffFew(assets: Assets, raw: seq<byte>, units: seq<SidecarUnit>)
    requires assets.Valid() && |raw| <= U64_MAX && UnitsEncodable(units, |raw|)
    ensures Accepted(assets, raw, Encode(assets, raw, units)) <==> FewCandidates(units)
  {
    hide Encode, UnitsEncodable, NormalizedAll;
    if FewCandidates(units) {
      assert UnitsDecodable(units, |raw|);
    }
    if Accepted(assets, raw, Encode(assets, raw, units)) {
      var others: seq<SidecarUnit> :| UnitsDecodable(others, |raw|) && Encode(assets, raw, others) == Encode(assets, raw, units);
      EncodeInjective(assets, raw, units, others);
      SameCandidateCounts(units, others);
    }
  }

  /** A unit over one byte with 257 candidates, the first of them selected. */
  const CROWDED: SidecarUnit :=
    SidecarUnit(0, 1, 3, 1, None, seq(257, i requires 0 <= i < 257 => Candidate([], 0, i == 0)))

  lemma OneUnit(unit: SidecarUnit)
    requires UnitValid(unit) && unit.start == 0 && unit.groupId.None?
    ensures UnitsEncodable([unit], unit.end)
  {
    hide UnitValid;
    assert [unit][..|[unit]| - 1] == [] && [unit][..0] == [];
    assert GroupsAfter([]) == Some(NO_GROUPS);
    assert GroupsAfter([unit]).Some?;
  }

  /** It is encoded, and the decoder refuses what is written. */
  lemma CrowdedIsRefused(assets: Assets, raw: seq<byte>)
    requires assets.Valid() && |raw| == 1
    ensures UnitsEncodable([CROWDED], |raw|)
    ensures !Accepted(assets, raw, Encode(assets, raw, [CROWDED]))
  {
    hide Encode, Accepted;
    assert SelectedOnly(CROWDED.candidates, 0);
    assert UnitValid(CROWDED);
    OneUnit(CROWDED);
    assert UnitsEncodable([CROWDED], |raw|);
    AcceptedIffFew(assets, raw, [CROWDED]);
    assert |[CROWDED][0].candidates| == 257;
  }

  /** Reads a payload; the answer is the one document it can be the payload of. */
  method ReadPayload(assets: Assets, raw: seq<byte>, payload: seq<byte>) returns (r: Option<seq<SidecarUnit>>)
    requires assets.Valid() && |raw| <= U64_MAX
    ensures r.Some? ==>
      UnitsDecodable(r.value, |raw|) && payload == Payload(assets, raw, r.value) && NormalizedAll(r.value) == r.value
    ensures r.None? ==> NoSidecar(assets, raw, payload)
  {
    hide Varint.Encode, EncodeList, EncodeBody, Payload, UnitsDecodable, BodyDecodable, Place, NormalizedAll, ListFound,
         NoUnits, GroupsAfter, Varint.NoneAt, NoSidecar;
    var reader := new Reader(payload);
    NoSidecarBy(assets, raw, payload);
    var rawLength := reader.VarU64();
    if rawLength.None? {
      return None;
    }
    if rawLength.value != |raw| {
      OtherLength(payload, rawLength.value, |raw|);
      return None;
    }
    var rawDigest := reader.Take(32);
    if rawDigest.None? || rawDigest.value != assets.digest(raw) {
      return None;
    }
    ghost var counted := reader.position;
    var unitCount := reader.VarU64();
    if unitCount.None? {
      return None;
    }
    if unitCount.value > |raw| + 1 {
      NoSidecarWithCount(assets, raw, payload, unitCount.value);
      return None;
    }
    ghost var from := reader.position;
    var units;
    ghost var bodies;
    units, bodies := ReadUnits(reader, unitCount.value, |raw|);
    if units.None? {
      NoSidecarWithUnits(assets, raw, payload, unitCount.value);
      return None;
    }
    BodiesFound(payload, from, bodies, reader.position);
    PlacedDecodable(bodies, |raw|);
    OnlyPlaced(assets, raw, payload, unitCount.value, bodies, reader.position);
    var covered := EndOf(units.value);
    if covered != |raw| || reader.position != |payload| {
      return None;
    }
    PayloadRead(assets, raw, payload, bodies, reader.position);
    r := units;
  }

  lemma BodiesFound(bytes: seq<byte>, from: nat, bodies: seq<Body>, end: nat)
    requires ListFound(EncodeBody, BodyDecodable, bytes, from, bodies, end)
    ensures AllValid(BodyDecodable, bodies)
  {
    hide BodyDecodable;
  }

  lemma {:induction false} NoSidecarBy(assets: Assets, raw: seq<byte>, payload: seq<byte>)
    requires assets.Valid() && |raw| <= U64_MAX
    ensures !NoSidecar(assets, raw, payload) ==>
      && !Varint.NoneAt(payload, 0) && Embedded(payload, 0, Varint.Encode(|raw|))
      && Embedded(payload, |Varint.Encode(|raw|)|, assets.digest(raw))
      && !Varint.NoneAt(payload, |Varint.Encode(|raw|)| + 32)
  {
    hide Varint.Encode, Payload, UnitsDecodable, Embedded, Varint.NoneAt;
    if !NoSidecar(assets, raw, payload) {
      var units: seq<SidecarUnit> :| UnitsDecodable(units, |raw|) && payload == Payload(assets, raw, units);
      PayloadNeeds(assets, raw, payload, units);
    }
  }

  lemma {:induction false} OtherLength(payload: seq<byte>, found: nat, length: nat)
    requires Embedded(payload, 0, Varint.Encode(found)) && found != length
    ensures !Embedded(payload, 0, Varint.Encode(length))
  {
    hide Varint.Encode;
    if Embedded(payload, 0, Varint.Encode(length)) {
      Varint.EncodeUnique(payload, 0, found, length);
    }
  }

  /** The count a payload states is the number of units of its document. */
  lemma {:induction false} CountOf(assets: Assets, raw: seq<byte>, payload: seq<byte>, count: nat, units: seq<SidecarUnit>)
    requires assets.Valid() && |raw| <= U64_MAX && UnitsDecodable(units, |raw|) && payload == Payload(assets, raw, units)
    requires Embedded(payload, |Varint.Encode(|raw|)| + 32, Varint.Encode(count))
    ensures |units| == count <= |raw|
    ensures Embedded(payload, BodiesStart(raw, count), EncodeList(EncodeBody, Bodies(units)))
  {
    hide Varint.Encode, Payload, UnitsDecodable, Embedded, EncodeList, EncodeBody, Bodies;
    PayloadParts(assets, raw, units);
    PayloadNeeds(assets, raw, payload, units);
    Varint.EncodeUnique(payload, |Varint.Encode(|raw|)| + 32, count, |units|);
  }

  lemma {:induction false} NoSidecarWithCount(assets: Assets, raw: seq<byte>, payload: seq<byte>, count: nat)
    requires assets.Valid() && |raw| <= U64_MAX && count > |raw|
    requires Embedded(payload, |Varint.Encode(|raw|)| + 32, Varint.Encode(count))
    ensures NoSidecar(assets, raw, payload)
  {
    hide Varint.Encode, Payload, UnitsDecodable, Embedded;
    forall units: seq<SidecarUnit> | UnitsDecodable(units, |raw|)
      ensures payload != Payload(assets, raw, units)
    {
      if payload == Payload(assets, raw, units) {
        CountOf(assets, raw, payload, count, units);
      }
    }
  }

  lemma {:induction false} NoSidecarWithUnits(assets: Assets, raw: seq<byte>, payload: seq<byte>, count: nat)
    requires assets.Valid() && |raw| <= U64_MAX
    requires Embedded(payload, |Varint.Encode(|raw|)| + 32, Varint.Encode(count))
    requires NoUnits(payload, BodiesStart(raw, count), count, |raw|)
    ensures NoSidecar(assets, raw, payload)
  {
    hide Varint.Encode, Payload, UnitsDecodable, Embedded, EncodeList, EncodeBody, Bodies, BodiesStart;
    forall units: seq<SidecarUnit> | UnitsDecodable(units, |raw|)
      ensures payload != Payload(assets, raw, units)
    {
      if payload == Payload(assets, raw, units) {
        CountOf(assets, raw, payload, count, units);
      }
    }
  }

  /** If the units read do not end the document or the payload, no document has this payload. */
  lemma {:induction false} OnlyPlaced(assets: Assets, raw: seq<byte>, payload: seq<byte>, count: nat, bodies: seq<Body>, end: nat)
    requires assets.Valid() && |raw| <= U64_MAX && |bodies| == count
    requires Embedded(payload, |Varint.Encode(|raw|)| + 32, Varint.Encode(count))
    requires Place(bodies, |raw|).Some?
    requires ListFound(EncodeBody, BodyDecodable, payload, BodiesStart(raw, count), bodies, end)
    ensures EndOf(Place(bodies, |raw|).value) != |raw| || end != |payload| ==> NoSidecar(assets, raw, payload)
  {
    hide Varint.Encode, Payload, Embedded, EncodeList, EncodeBody, Bodies, BodiesStart, Place, NormalizedAll, ListFound,
         UnitsDecodable, EndOf;
    forall units: seq<SidecarUnit> | UnitsDecodable(units, |raw|) && payload == Payload(assets, raw, units)
      ensures EndOf(Place(bodies, |raw|).value) == |raw| && end == |payload|
    {
      CountOf(assets, raw, payload, count, units);
      OnlyUnits(assets, raw, payload, bodies, end, units);
      NormalizedKeeps(units);
      DecodableEnd(units, |raw|);
    }
  }

  lemma DecodableEnd(units: seq<SidecarUnit>, length: nat)
    requires UnitsDecodable(units, length)
    ensures EndOf(units) == length
  {
  }

  /** What is placed from decodable bodies is a decodable document if it covers the bytes. */
  lemma {:induction false} PlacedDecodable(bodies: seq<Body>, length: nat)
    requires length <= U64_MAX && AllValid(BodyDecodable, bodies) && Place(bodies, length).Some?
    ensures var units := Place(bodies, length).value;
      && Bodies(units) == bodies && NormalizedAll(units) == units
      && (EndOf(units) == length ==> UnitsDecodable(units, length))
  {
    hide BodyValid, UnitValid, Place;
    var units := Place(bodies, length).value;
    PlacedUnits(bodies, length);
    PlacedNormal(bodies, length);
    forall i: nat | i < |units|
      ensures |units[i].candidates| <= MAX_CANDIDATES
    {
      assert BodyDecodable(bodies[i]);
      CandidateCount(units[i], StateAt(units, i));
    }
  }

  lemma {:induction false} PlacedNormal(bodies: seq<Body>, length: nat)
    requires length <= U64_MAX && AllValid(BodyDecodable, bodies) && Place(bodies, length).Some?
    ensures NormalizedAll(Place(bodies, length).value) == Place(bodies, length).value
  {
    hide BodyValid, FromBody, Normalized, GroupsAfter, DecodeGroup;
    if bodies != [] {
      var body, last := bodies[..|bodies| - 1], bodies[|bodies| - 1];
      PlacedNormal(body, length);
      var before := Place(body, length).value;
      var id := DecodeGroup(GroupsAfter(before).value, last.state).value.0;
      assert BodyDecodable(last);
      ToFromBody(EndOf(before), last, id);
      assert NormalizedAll(before + [FromBody(EndOf(before), last, id)])
          == NormalizedAll(before) + [Normalized(FromBody(EndOf(before), last, id))];
    }
  }

  lemma {:induction false} PayloadRead(assets: Assets, raw: seq<byte>, payload: seq<byte>, bodies: seq<Body>, end: nat)
    requires assets.Valid() && |raw| <= U64_MAX && Place(bodies, |raw|).Some?
    requires Bodies(Place(bodies, |raw|).value) == bodies
    requires Embedded(payload, 0, Varint.Encode(|raw|))
    requires Embedded(payload, |Varint.Encode(|raw|)|, assets.digest(raw))
    requires Embedded(payload, |Varint.Encode(|raw|)| + 32, Varint.Encode(|bodies|))
    requires ListFound(EncodeBody, BodyDecodable, payload, BodiesStart(raw, |bodies|), bodies, end) && end == |payload|
    ensures payload == Payload(assets, raw, Place(bodies, |raw|).value)
  {
    hide Varint.Encode, Payload, EncodeList, EncodeBody, Place, BodyDecodable, Bodies;
    PayloadJoined(assets, raw, Place(bodies, |raw|).value, payload);
  }

  /** Any encodable units behind an input tell whether it is accepted. */
  lemma RefusedIfCrowded(assets: Assets, raw: seq<byte>, input: seq<byte>)
    requires assets.Valid() && |raw| <= U64_MAX
    ensures forall units | UnitsEncodable(units, |raw|) && Encode(assets, raw, units) == input ::
      Accepted(assets, raw, input) <==> FewCandidates(units)
  {
    hide Encode, UnitsEncodable, Accepted, FewCandidates;
    forall units | UnitsEncodable(units, |raw|) && Encode(assets, raw, units) == input
      ensures Accepted(assets, raw, input) <==> FewCandidates(units)
    {
      AcceptedIffFew(assets, raw, units);
    }
  }

  /** Loads a sidecar against its document. It is accepted exactly if it is the encoding of some
      units of the document, and the units it gives are those, with unused scores set to 0. */
  method FromBytes(assets: Assets, raw: seq<byte>, input: seq<byte>) returns (r: Option<seq<SidecarUnit>>)
    requires assets.Valid() && |raw| <= U64_MAX
    ensures r.Some? ==>
      UnitsDecodable(r.value, |raw|) && Encode(assets, raw, r.value) == input && NormalizedAll(r.value) == r.value
    ensures r.None? ==> forall units | UnitsDecodable(units, |raw|) :: Encode(assets, raw, units) != input
    ensures forall units | UnitsDecodable(units, |raw|) && Encode(assets, raw, units) == input ::
      r == Some(NormalizedAll(units))
    ensures forall units | UnitsEncodable(units, |raw|) && Encode(assets, raw, units) == input ::
      r.Some? <==> FewCandidates(units)
  {
    hide Encode, Payload, UnitsDecodable, UnitsEncodable, FewCandidates, NormalizedAll, U32, ReadU32;
    RefusedIfCrowded(assets, raw, input);
    forall units | UnitsDecodable(units, |raw|) && Encode(assets, raw, units) == input
      ensures |input| >= 76 && input[..8] == SIDECAR_MAGIC && ReadU32(input, 8) == SCHEMA_VERSION
      ensures input[12..44] == assets.identity && input[44..76] == assets.digest(input[76..])
      ensures input[76..] == Payload(assets, raw, units)
    {
      SidecarParts(assets, raw, units, input);
    }
    if |input| < 76 || input[..8] != SIDECAR_MAGIC {
      return None;
    }
    var header := new Reader(input);
    header.position := 8;
    var schema := header.TakeU32();
    if schema.None? || schema.value != SCHEMA_VERSION {
      return None;
    }
    var identity := header.Take(32);
    if identity.None? || identity.value != assets.identity {
      return None;
    }
    var digest := header.Take(32);
    var payload := input[76..];
    if digest.None? || assets.digest(payload) != digest.value {
      return None;
    }
    r := ReadPayload(assets, raw, payload);
    if r.Some? {
      SidecarParts(assets, raw, r.value, input);
      OnlyLoaded(assets, raw, input, r.value);
    }
  }

  lemma OnlyLoaded(assets: Assets, raw: seq<byte>, input: seq<byte>, loaded: seq<SidecarUnit>)
    requires assets.Valid() && |raw| <= U64_MAX && UnitsDecodable(loaded, |raw|) && NormalizedAll(loaded) == loaded
    requires Encode(assets, raw, loaded) == input
    ensures forall units | UnitsDecodable(units, |raw|) && Encode(assets, raw, units) == input :: loaded == NormalizedAll(units)
  {
    hide Encode, UnitsEncodable, NormalizedAll;
    forall units | UnitsDecodable(units, |raw|) && Encode(assets, raw, units) == input
      ensures loaded == NormalizedAll(units)
    {
      EncodeInjective(assets, raw, units, loaded);
    }
  }

  // ----------------------------------------------------------------- the encoder

  method WriteRelativeCuts(before: seq<byte>, start: nat, end: nat, cuts: seq<nat>) returns (r: Option<seq<byte>>)
    requires start <= end
    ensures r.Some? <==> CutsValid(start, end, cuts)
    ensures r.Some? ==> r.value == before + EncodeCutList(Unshifted(start, cuts))
  {
    hide Varint.Encode, CutsValid, Unshifted, EncodeList;
    var valid := ValidateUnit(start, end, cuts);
    if !valid {
      return None;
    }
    var output := Varint.WriteVarU64(before, |cuts|);
    ghost var header, relatives := output, Unshifted(start, cuts);
    ListNone(Varint.Encode, relatives[..0]);
    for i := 0 to |cuts|
      invariant output == header + EncodeList(Varint.Encode, relatives[..i])
    {
      CutsBehind(start, end, cuts, i);
      output := Varint.WriteVarU64(output, cuts[i] - start);
      ListPush(Varint.Encode, relatives[..i], relatives[i]);
      assert relatives[..i + 1] == relatives[..i] + [relatives[i]];
    }
    assert relatives[..|cuts|] == relatives;
    r := Some(output);
  }

  lemma CutsBehind(start: nat, end: nat, cuts: seq<nat>, i: nat)
    requires CutsValid(start, end, cuts) && i < |cuts|
    ensures cuts[i] > start && Unshifted(start, cuts)[i] == cuts[i] - start
  {
  }

  /** The first selected candidate, and whether it is the only one. */
  method FindSelected(cs: seq<Candidate>) returns (r: Option<nat>)
    ensures r.Some? ==> r.value < |cs| && SelectedOnly(cs, r.value)
    ensures r.None? ==> forall k: nat | k < |cs| :: !SelectedOnly(cs, k)
  {
    var index := |cs|;
    var count := 0;
    for i := 0 to |cs|
      invariant count == 0 <==> forall k: nat | k < i :: !cs[k].selected
      invariant count == 0 ==> index == |cs|
      invariant count == 1 ==> index < i && forall k: nat | k < i :: cs[k].selected <==> k == index
      invariant count > 1 ==> exists j: nat, k: nat :: j < k < i && cs[j].selected && cs[k].selected
    {
      if cs[i].selected {
        if count == 0 {
          index := i;
        } else if count == 1 {
          assert cs[index].selected;
        }
        count := count + 1;
      }
    }
    if count != 1 {
      forall k: nat | k < |cs|
        ensures !SelectedOnly(cs, k)
      {
        OnlySelected(cs, k);
      }
      return None;
    }
    r := Some(index);
  }

  lemma OnlySelected(cs: seq<Candidate>, k: nat)
    requires k < |cs|
    ensures SelectedOnly(cs, k) ==> cs[k].selected
  {
  }

  method WriteUnitCandidates(before: seq<byte>, unit: SidecarUnit, state: nat) returns (r: Option<seq<byte>>)
    requires unit.start < unit.end <= U64_MAX && 1 <= unit.kind <= 8 && 1 <= unit.mode <= 3 && state <= 2
    requires |unit.candidates| <= U64_MAX
    ensures r.Some? <==> UnitValid(unit)
    ensures r.Some? ==> r.value == before + ([Flags(ToBody(unit, state))] + EncodeCandidates(ToBody(unit, state)))
  {
    hide Varint.Encode, CutsValid, EncodeCutList, EncodeList, EncodeRelative, IsFinite;
    var cs := unit.candidates;
    ghost var body := ToBody(unit, state);
    var ambiguous := |cs| > 1;
    var output := before + [PackFlags(unit.kind, unit.mode, state, ambiguous)];
    if !ambiguous {
      if cs == [] || !cs[0].selected {
        return None;
      }
      r := WriteRelativeCuts(output, unit.start, unit.end, cs[0].cuts);
      return;
    }
    output := Varint.WriteVarU64(output, |cs|);
    var selected := FindSelected(cs);
    if selected.None? {
      return None;
    }
    SelectedIndexIs(cs, selected.value);
    output := Varint.WriteVarU64(output, selected.value);
    ghost var header := output;
    NoRelatives();
    for i := 0 to |cs|
      invariant forall k: nat | k < i :: CandidateValid(unit.start, unit.end, cs[k])
      invariant output == header + EncodeList(EncodeRelative, body.candidates[..i])
    {
      if !IsFinite(cs[i].scoreBits) {
        assert !CandidateValid(unit.start, unit.end, cs[i]);
        return None;
      }
      var cuts := WriteCandidate(output, unit.start, unit.end, cs[i]);
      if cuts.None? {
        assert !CandidateValid(unit.start, unit.end, cs[i]);
        return None;
      }
      CandidatesStep(body.candidates, i);
      output := cuts.value;
    }
    assert body.candidates[..|cs|] == body.candidates;
    r := Some(output);
  }

  lemma NoRelatives()
    ensures EncodeList(EncodeRelative, []) == []
  {
  }

  lemma CandidatesStep(rs: seq<Relative>, i: nat)
    requires i < |rs|
    ensures EncodeList(EncodeRelative, rs[..i + 1]) == EncodeList(EncodeRelative, rs[..i]) + EncodeRelative(rs[i])
  {
    hide EncodeRelative;
    assert rs[..i + 1][..i] == rs[..i];
  }

  method WriteCandidate(before: seq<byte>, start: nat, end: nat, c: Candidate) returns (r: Option<seq<byte>>)
    requires start <= end && IsFinite(c.scoreBits)
    ensures r.Some? <==> CutsValid(start, end, c.cuts)
    ensures r.Some? ==> r.value == before + EncodeRelative(Relative(Unshifted(start, c.cuts), c.scoreBits))
  {
    hide EncodeCutList, U32, CutsValid;
    r := WriteRelativeCuts(before + U32(c.scoreBits), start, end, c.cuts);
  }

  /** Encodes the units of a document, if they are encodable. */
  method EncodeSidecarUnits(assets: Assets, raw: seq<byte>, units: seq<SidecarUnit>) returns (r: Option<seq<byte>>)
    requires assets.Valid() && |raw| <= U64_MAX && |units| <= U64_MAX
    requires forall unit | unit in units ::
      unit.end <= U64_MAX && 1 <= unit.kind <= 8 && 1 <= unit.mode <= 3 && |unit.candidates| <= U64_MAX
    ensures r.Some? <==> UnitsEncodable(units, |raw|)
    ensures r.Some? ==> r.value == Encode(assets, raw, units)
  {
    hide Varint.Encode, EncodeList, EncodeCandidates, Flags, UnitValid, EncodeGroup, ToBody, EncodeBody, U32, GroupsAfter,
         EndOf, Bodies, RowSoFar, UnitsEncodable;
    var payload := Varint.WriteVarU64([], |raw|);
    payload := payload + assets.digest(raw);
    payload := Varint.WriteVarU64(payload, |units|);
    ghost var header := payload;
    var groups, expected := NO_GROUPS, 0;
    NoBodies(units);
    for i := 0 to |units|
      invariant RowSoFar(units, i, expected, groups)
      invariant payload == header + EncodeList(EncodeBody, Bodies(units[..i]))
    {
      var unit := units[i];
      RowStep(units, i, expected, groups, |raw|);
      if unit.start != expected || unit.end <= unit.start {
        return None;
      }
      var coded := EncodeGroup(groups, unit.groupId);
      if coded.None? {
        return None;
      }
      KnownState(groups, unit.groupId);
      payload := Varint.WriteVarU64(payload, unit.end - unit.start);
      var written := WriteUnitCandidates(payload, unit, coded.value.0);
      if written.None? {
        return None;
      }
      RowGroups(units, i, expected, groups);
      BodyStep(units, i, coded.value.0);
      payload := written.value;
      groups := coded.value.1;
      expected := unit.end;
    }
    assert units[..|units|] == units;
    RowEnd(units, expected, groups, |raw|);
    if expected != |raw| {
      return None;
    }
    assert payload == Payload(assets, raw, units);
    r := Some(SIDECAR_MAGIC + U32(SCHEMA_VERSION) + assets.identity + assets.digest(payload) + payload);
  }

  /** What the encoder has checked of the first units. */
  ghost predicate RowSoFar(units: seq<SidecarUnit>, i: nat, expected: nat, groups: Groups)
    requires i <= |units|
  {
    && expected == EndOf(units[..i]) && GroupsAfter(units[..i]) == Some(groups)
    && forall k: nat | k < i :: UnitValid(units[k]) && units[k].start == EndOf(units[..k])
  }

  lemma RowGroups(units: seq<SidecarUnit>, i: nat, expected: nat, groups: Groups)
    requires i <= |units| && RowSoFar(units, i, expected, groups)
    ensures GroupsAfter(units[..i]) == Some(groups)
  {
    hide UnitValid, GroupsAfter;
  }

  /** The next unit either goes on with the row or rules the document out. */
  lemma RowStep(units: seq<SidecarUnit>, i: nat, expected: nat, groups: Groups, length: nat)
    requires i < |units| && RowSoFar(units, i, expected, groups)
    ensures var coded := EncodeGroup(groups, units[i].groupId);
      if units[i].start == expected && UnitValid(units[i]) && coded.Some? then
        units[i].start < units[i].end && RowSoFar(units, i + 1, units[i].end, coded.value.1)
      else !UnitsEncodable(units, length)
    ensures units[i].end <= units[i].start ==> !UnitsEncodable(units, length)
  {
    hide UnitValid, EncodeGroup;
    assert units[..i + 1][..i] == units[..i];
    UnitNeedsLength(units[i]);
    if EncodeGroup(groups, units[i].groupId).None? {
      GroupsStop(units, i + 1);
    }
  }

  lemma RowEnd(units: seq<SidecarUnit>, expected: nat, groups: Groups, length: nat)
    requires RowSoFar(units, |units|, expected, groups)
    ensures UnitsEncodable(units, length) <==> expected == length
  {
    hide UnitValid, EncodeGroup, GroupsAfter;
    assert units[..|units|] == units;
  }

  lemma NoBodies(units: seq<SidecarUnit>)
    ensures EncodeList(EncodeBody, Bodies(units[..0])) == [] && RowSoFar(units, 0, 0, NO_GROUPS)
  {
  }

  lemma UnitNeedsLength(unit: SidecarUnit)
    ensures UnitValid(unit) ==> unit.start < unit.end
  {
  }

  lemma KnownState(g: Groups, id: Option<nat>)
    requires EncodeGroup(g, id).Some?
    ensures EncodeGroup(g, id).value.0 <= 2
  {
  }

  lemma {:induction false} GroupsStop(units: seq<SidecarUnit>, i: nat)
    requires i <= |units| && GroupsAfter(units[..i]).None?
    ensures GroupsAfter(units).None?
  {
    if i < |units| {
      var body := units[..|units| - 1];
      assert body[..i] == units[..i];
      GroupsStop(body, i);
    } else {
      assert units[..i] == units;
    }
  }

  lemma BodyStep(units: seq<SidecarUnit>, i: nat, state: nat)
    requires i < |units| && GroupsAfter(units[..i]).Some?
    requires EncodeGroup(GroupsAfter(units[..i]).value, units[i].groupId).Some?
    requires state == EncodeGroup(GroupsAfter(units[..i]).value, units[i].groupId).value.0
    requires units[i].start < units[i].end
    ensures EncodeList(EncodeBody, Bodies(units[..i + 1]))
         == EncodeList(EncodeBody, Bodies(units[..i]))
            + (Varint.Encode(units[i].end - units[i].start)
               + ([Flags(ToBody(units[i], state))] + EncodeCandidates(ToBody(units[i], state))))
  {
    hide Varint.Encode, EncodeCandidates, Flags;
    var more := units[..i + 1];
    assert more[..i] == units[..i];
    BodiesPush(more);
    ListPush(EncodeBody, Bodies(units[..i]), ToBody(units[i], state));
  }
}
