/** The metadata sidecar: unit lengths, packed flags, group states and candidate cuts. */
module SidecarFormat {
  import opened Wrappers
  import opened Bytes
  import opened LosslessFormat

  datatype Candidate = Candidate(cuts: seq<nat>, scoreBits: nat, selected: bool)

  /** Kinds are numbered 1 to 8 and modes 1 to 3. */
  datatype SidecarUnit = SidecarUnit(
    start: nat, end: nat, kind: nat, mode: nat, groupId: Option<nat>, candidates: seq<Candidate>)

  const GROUP_NONE := 0
  const GROUP_NEW := 1
  const GROUP_SAME := 2

  // ------------------------------------------------------------------ group states

  /** The group of the unit before, and the next fresh group. */
  datatype Groups = Groups(previous: Option<nat>, next: nat) {
    predicate Valid() {
      next <= U32_MAX && (previous.Some? ==> previous.value < next)
    }
  }

  const NO_GROUPS := Groups(None, 0)

  function EncodeGroup(g: Groups, id: Option<nat>): (r: Option<(nat, Groups)>) {
    if id.None? then Some((GROUP_NONE, Groups(None, g.next)))
    else if g.previous == id then Some((GROUP_SAME, Groups(id, g.next)))
    else if id.value != g.next || g.next + 1 > U32_MAX then None
    else Some((GROUP_NEW, Groups(id, g.next + 1)))
  }

  function DecodeGroup(g: Groups, state: nat): (r: Option<(Option<nat>, Groups)>) {
    if state == GROUP_NONE then Some((None, Groups(None, g.next)))
    else if state == GROUP_NEW then
      if g.next + 1 > U32_MAX then None else Some((Some(g.next), Groups(Some(g.next), g.next + 1)))
    else if state == GROUP_SAME then
      if g.previous.None? then None else Some((g.previous, g))
    else None
  }

  /** Group numbers and group states translate into each other without loss. */
  lemma GroupCoding(g: Groups, id: Option<nat>, state: nat)
    requires g.Valid()
    ensures (EncodeGroup(g, id).Some? && EncodeGroup(g, id).value.0 == state)
       <==> (DecodeGroup(g, state).Some? && DecodeGroup(g, state).value.0 == id)
    ensures EncodeGroup(g, id).Some? && EncodeGroup(g, id).value.0 == state ==>
      EncodeGroup(g, id).value.1 == DecodeGroup(g, state).value.1 && EncodeGroup(g, id).value.1.Valid()
  {
  }

  /** The groups behind a list of units, `None` if their numbers are not canonical. */
  function GroupsAfter(units: seq<SidecarUnit>): (r: Option<Groups>)
    ensures r.Some? ==> r.value.Valid()
  {
    if units == [] then Some(NO_GROUPS)
    else
      var before := GroupsAfter(units[..|units| - 1]);
      if before.None? then None
      else
        var coded := EncodeGroup(before.value, units[|units| - 1].groupId);
        if coded.None? then None else Some(coded.value.1)
  }

  // ------------------------------------------------------------------------ flags

  function PackFlags(kind: nat, mode: nat, state: nat, ambiguous: bool): (flags: byte)
    requires 1 <= kind <= 8 && 1 <= mode <= 3 && state <= 2
  {
    (kind - 1) + 8 * (mode - 1) + 32 * state + if ambiguous then 128 else 0
  }

  function UnpackKind(flags: byte): nat {
    flags % 8 + 1
  }

  /** The mode, `None` for the bit pattern that names none. */
  function UnpackMode(flags: byte): Option<nat> {
    var mode := flags / 8 % 4 + 1;
    if mode <= 3 then Some(mode) else None
  }

  function UnpackState(flags: byte): nat {
    flags / 32 % 4
  }

  function UnpackAmbiguous(flags: byte): bool {
    flags / 128 == 1
  }

  /** Every flag byte with a mode and a group state is packed from exactly one quadruple. */
  lemma FlagsRoundTrip(flags: byte, kind: nat, mode: nat, state: nat, ambiguous: bool)
    requires 1 <= kind <= 8 && 1 <= mode <= 3 && state <= 2
    ensures PackFlags(kind, mode, state, ambiguous) == flags
       <==> UnpackKind(flags) == kind && UnpackMode(flags) == Some(mode) && UnpackState(flags) == state
            && UnpackAmbiguous(flags) == ambiguous
  {
    if PackFlags(kind, mode, state, ambiguous) == flags {
      assert flags / 128 == if ambiguous then 1 else 0;
      assert flags / 32 == state + 4 * (flags / 128);
      assert flags / 8 == (mode - 1) + 4 * (flags / 32);
    }
  }

  // -------------------------------------------------------------------- validity

  /** An IEEE single that is neither infinite nor not-a-number. */
  predicate IsFinite(bits: nat) {
    bits <= U32_MAX && bits / 0x80_0000 % 0x100 != 0xFF
  }

  predicate CandidateValid(start: nat, end: nat, c: Candidate) {
    CutsValid(start, end, c.cuts) && IsFinite(c.scoreBits)
  }

  /** One selected candidate, or several of which exactly one is selected. */
  predicate CandidatesValid(unit: SidecarUnit) {
    var cs := unit.candidates;
    if |cs| == 1 then cs[0].selected && CutsValid(unit.start, unit.end, cs[0].cuts)
    else
      && |cs| >= 2
      && (forall i: nat | i < |cs| :: CandidateValid(unit.start, unit.end, cs[i]))
      && exists k: nat :: k < |cs| && SelectedOnly(cs, k)
  }

  predicate SelectedOnly(cs: seq<Candidate>, k: nat) {
    forall i: nat | i < |cs| :: cs[i].selected <==> i == k
  }

  predicate UnitValid(unit: SidecarUnit) {
    && unit.start < unit.end <= U64_MAX && 1 <= unit.kind <= 8 && 1 <= unit.mode <= 3
    && |unit.candidates| <= U64_MAX && CandidatesValid(unit)
  }

  /** What the encoder demands: units that cover the document, with canonical groups. */
  predicate UnitsEncodable(units: seq<SidecarUnit>, length: nat) {
    && (forall i: nat | i < |units| :: UnitValid(units[i]) && units[i].start == EndOf(units[..i]))
    && EndOf(units) == length && GroupsAfter(units).Some?
  }

  function EndOf(units: seq<SidecarUnit>): nat {
    if units == [] then 0 else units[|units| - 1].end
  }

  /** The decoder also limits the candidates. */
  const MAX_CANDIDATES := 256

  predicate UnitsDecodable(units: seq<SidecarUnit>, length: nat) {
    UnitsEncodable(units, length) && forall i: nat | i < |units| :: |units[i].candidates| <= MAX_CANDIDATES
  }

  // --------------------------------------------------- what is written of a unit

  /** A candidate with cuts relative to its unit. */
  datatype Relative = Relative(cuts: seq<nat>, scoreBits: nat)

  /** A unit without its place in the document. */
  datatype Body = Body(length: nat, kind: nat, mode: nat, state: nat, selected: nat, candidates: seq<Relative>)

  function Shifted(start: nat, cuts: seq<nat>): (r: seq<nat>)
    ensures |r| == |cuts|
  {
    seq(|cuts|, i requires 0 <= i < |cuts| => start + cuts[i])
  }

  function Unshifted(start: nat, cuts: seq<nat>): (r: seq<nat>)
    ensures |r| == |cuts|
  {
    seq(|cuts|, i requires 0 <= i < |cuts| => if cuts[i] < start then 0 else cuts[i] - start)
  }

  function SelectedIndex(cs: seq<Candidate>): nat {
    if cs == [] || cs[0].selected then 0 else 1 + SelectedIndex(cs[1..])
  }

  /** The score of a lone candidate is not written. */
  function ToBody(unit: SidecarUnit, state: nat): Body {
    var cs := unit.candidates;
    Body(
      if unit.start < unit.end then unit.end - unit.start else 0, unit.kind, unit.mode, state, SelectedIndex(cs),
      seq(|cs|, i requires 0 <= i < |cs| => Relative(Unshifted(unit.start, cs[i].cuts), if |cs| == 1 then 0 else cs[i].scoreBits)))
  }

  function FromBody(start: nat, body: Body, id: Option<nat>): SidecarUnit {
    var cs := body.candidates;
    SidecarUnit(
      start, start + body.length, body.kind, body.mode, id,
      seq(|cs|, i requires 0 <= i < |cs| =>
        Candidate(Shifted(start, cs[i].cuts), cs[i].scoreBits, i == body.selected)))
  }

  /** A unit as the decoder returns it: the score of a lone candidate is 0. */
  function Normalized(unit: SidecarUnit): SidecarUnit {
    if |unit.candidates| == 1 then unit.(candidates := [unit.candidates[0].(scoreBits := 0)]) else unit
  }

  predicate BodyValid(body: Body) {
    && 0 < body.length <= U64_MAX && 1 <= body.kind <= 8 && 1 <= body.mode <= 3 && body.state <= 2
    && body.selected < |body.candidates| <= U64_MAX
    && (forall i: nat | i < |body.candidates| :: RelativeValid(body.length, body.candidates[i]))
    && (|body.candidates| == 1 ==> body.candidates[0].scoreBits == 0)
  }

  predicate RelativeValid(length: nat, r: Relative) {
    CutsValid(0, length, r.cuts) && IsFinite(r.scoreBits)
  }

  lemma CutsShift(start: nat, end: nat, cuts: seq<nat>)
    requires start <= end
    ensures CutsValid(start, end, cuts) ==>
      CutsValid(0, end - start, Unshifted(start, cuts)) && Shifted(start, Unshifted(start, cuts)) == cuts
    ensures CutsValid(0, end - start, cuts) <==> CutsValid(start, end, Shifted(start, cuts))
    ensures Unshifted(start, Shifted(start, cuts)) == cuts
  {
    if CutsValid(start, end, cuts) {
      var down := Unshifted(start, cuts);
      assert forall i: nat | i < |cuts| :: start < cuts[i];
      forall i: nat | 0 < i < |down|
        ensures down[i - 1] < down[i]
      {
        assert cuts[i - 1] < cuts[i];
      }
    }
    ShiftBack(start, end, cuts);
  }

  lemma ShiftBack(start: nat, end: nat, cuts: seq<nat>)
    requires start <= end
    ensures CutsValid(0, end - start, cuts) <==> CutsValid(start, end, Shifted(start, cuts))
  {
    var up := Shifted(start, cuts);
    assert forall i: nat | i < |cuts| :: up[i] == start + cuts[i];
    if CutsValid(start, end, up) {
      forall i: nat | i < |cuts|
        ensures 0 < cuts[i] < end - start
      {
        assert start < up[i] < end;
      }
      forall i: nat | 0 < i < |cuts|
        ensures cuts[i - 1] < cuts[i]
      {
        assert up[i - 1] < up[i];
      }
    }
    if CutsValid(0, end - start, cuts) {
      forall i: nat | 0 < i < |up|
        ensures up[i - 1] < up[i]
      {
        assert cuts[i - 1] < cuts[i];
      }
    }
  }

  lemma {:induction false} SelectedIndexIs(cs: seq<Candidate>, k: nat)
    requires k < |cs| && SelectedOnly(cs, k)
    ensures SelectedIndex(cs) == k
  {
    assert cs[0].selected <==> 0 == k;
    if k > 0 {
      forall i: nat | i < |cs[1..]|
        ensures cs[1..][i].selected <==> i == k - 1
      {
        assert cs[i + 1].selected <==> i + 1 == k;
      }
      SelectedIndexIs(cs[1..], k - 1);
    }
  }

  /** Putting a body back at its place gives the unit it was made of, up to an unused score. */
  lemma FromToBody(unit: SidecarUnit, state: nat)
    requires UnitValid(unit) && state <= 2
    ensures BodyValid(ToBody(unit, state))
    ensures FromBody(unit.start, ToBody(unit, state), unit.groupId) == Normalized(unit)
  {
    var cs, body := unit.candidates, ToBody(unit, state);
    var k: nat := 0;
    if |cs| > 1 {
      k :| k < |cs| && SelectedOnly(cs, k);
    }
    SelectedIndexIs(cs, k);
    forall i: nat | i < |cs|
      ensures RelativeValid(body.length, body.candidates[i])
      ensures Shifted(unit.start, body.candidates[i].cuts) == cs[i].cuts
    {
      CutsShift(unit.start, unit.end, cs[i].cuts);
      assert |cs| > 1 ==> CandidateValid(unit.start, unit.end, cs[i]);
    }
    assert FromBody(unit.start, body, unit.groupId).candidates == Normalized(unit).candidates;
  }

  /** A body put at a place is a valid unit, and is read off it again. */
  lemma ToFromBody(start: nat, body: Body, id: Option<nat>)
    requires BodyValid(body) && start + body.length <= U64_MAX
    ensures var unit := FromBody(start, body, id);
      UnitValid(unit) && ToBody(unit, body.state) == body && Normalized(unit) == unit
  {
    var unit := FromBody(start, body, id);
    var cs := unit.candidates;
    forall i: nat | i < |cs|
      ensures CandidateValid(unit.start, unit.end, cs[i]) && Unshifted(start, cs[i].cuts) == body.candidates[i].cuts
    {
      assert RelativeValid(body.length, body.candidates[i]);
      CutsShift(unit.start, unit.end, body.candidates[i].cuts);
    }
    assert SelectedOnly(cs, body.selected);
    SelectedIndexIs(cs, body.selected);
    assert ToBody(unit, body.state).candidates == body.candidates;
  }

  // --------------------------------------------------------------- whole documents

  /** The group state written for the unit at position i. */
  function StateAt(units: seq<SidecarUnit>, i: nat): (state: nat)
    requires i < |units|
    ensures state <= 2
  {
    var before := GroupsAfter(units[..i]);
    if before.None? then 0
    else
      var coded := EncodeGroup(before.value, units[i].groupId);
      if coded.None? then 0 else coded.value.0
  }

  function Bodies(units: seq<SidecarUnit>): (bodies: seq<Body>)
    ensures |bodies| == |units|
  {
    seq(|units|, i requires 0 <= i < |units| => ToBody(units[i], StateAt(units, i)))
  }

  function NormalizedAll(units: seq<SidecarUnit>): (r: seq<SidecarUnit>)
    ensures |r| == |units|
  {
    seq(|units|, i requires 0 <= i < |units| => Normalized(units[i]))
  }

  /** The decoder's view: units placed one behind the other, groups counted along. `None` if a
      group state has no meaning there or a unit ends behind the document. */
  function Place(bodies: seq<Body>, length: nat): (r: Option<seq<SidecarUnit>>)
    ensures r.Some? ==> |r.value| == |bodies|
  {
    if bodies == [] then Some([])
    else
      var body := bodies[|bodies| - 1];
      var before := Place(bodies[..|bodies| - 1], length);
      if before.None? || GroupsAfter(before.value).None? then None
      else
        var groups := DecodeGroup(GroupsAfter(before.value).value, body.state);
        var start := EndOf(before.value);
        if groups.None? || start + body.length > length then None
        else Some(before.value + [FromBody(start, body, groups.value.0)])
  }

  /** Units in a row: what a prefix of an encodable document is. */
  predicate UnitsInRow(units: seq<SidecarUnit>, length: nat) {
    && (forall i: nat | i < |units| :: UnitValid(units[i]) && units[i].start == EndOf(units[..i]))
    && EndOf(units) <= length && GroupsAfter(units).Some?
  }

  lemma InRowPrefix(units: seq<SidecarUnit>, length: nat)
    requires UnitsInRow(units, length) && units != []
    ensures UnitsInRow(units[..|units| - 1], length)
    ensures EncodeGroup(GroupsAfter(units[..|units| - 1]).value, units[|units| - 1].groupId).Some?
  {
    hide UnitValid;
    var body := units[..|units| - 1];
    forall i: nat | i < |body|
      ensures UnitValid(body[i]) && body[i].start == EndOf(body[..i])
    {
      assert body[..i] == units[..i];
    }
    assert units[|units| - 1].start == EndOf(body);
    assert UnitValid(units[|units| - 1]);
    LastBeforeEnd(units[|units| - 1]);
  }

  lemma LastPlace(units: seq<SidecarUnit>, length: nat)
    requires UnitsInRow(units, length) && units != []
    ensures var last := units[|units| - 1];
      UnitValid(last) && last.start == EndOf(units[..|units| - 1]) && last.end <= length
  {
    hide UnitValid, GroupsAfter;
  }

  lemma LastBeforeEnd(unit: SidecarUnit)
    requires UnitValid(unit)
    ensures unit.start < unit.end
  {
  }

  lemma {:induction false} NormalizedKeeps(units: seq<SidecarUnit>)
    ensures GroupsAfter(NormalizedAll(units)) == GroupsAfter(units) && EndOf(NormalizedAll(units)) == EndOf(units)
  {
    if units != [] {
      var body := units[..|units| - 1];
      NormalizedKeeps(body);
      assert NormalizedAll(units)[..|units| - 1] == NormalizedAll(body);
    }
  }

  /** Decoding the bodies of an encodable document gives its units back. */
  lemma {:induction false} PlaceBodies(units: seq<SidecarUnit>, length: nat)
    requires UnitsInRow(units, length)
    ensures Place(Bodies(units), length) == Some(NormalizedAll(units))
  {
    hide UnitValid, ToBody, FromBody, Normalized, NormalizedAll, Bodies, StateAt, DecodeGroup, EncodeGroup, GroupsAfter;
    if units != [] {
      var body, last := units[..|units| - 1], units[|units| - 1];
      InRowPrefix(units, length);
      LastPlace(units, length);
      PlaceBodies(body, length);
      BodiesPush(units);
      NormalizedKeeps(body);
      var state := StateAt(units, |units| - 1);
      GroupCoding(GroupsAfter(body).value, last.groupId, state);
      FromToBody(last, state);
      BodyLength(last, state);
      StateIsCoded(units);
      PlacePush(Bodies(body), ToBody(last, state), length);
      NormalizedPush(units);
    }
  }

  /** The state written for the last unit is the one its group is coded with. */
  lemma StateIsCoded(units: seq<SidecarUnit>)
    requires units != [] && GroupsAfter(units[..|units| - 1]).Some?
    requires EncodeGroup(GroupsAfter(units[..|units| - 1]).value, units[|units| - 1].groupId).Some?
    ensures StateAt(units, |units| - 1)
         == EncodeGroup(GroupsAfter(units[..|units| - 1]).value, units[|units| - 1].groupId).value.0
  {
  }

  lemma {:induction false} PlacePush(bodies: seq<Body>, body: Body, length: nat)
    requires Place(bodies, length).Some? && GroupsAfter(Place(bodies, length).value).Some?
    ensures var units := Place(bodies, length).value;
      var groups := DecodeGroup(GroupsAfter(units).value, body.state);
      Place(bodies + [body], length)
      == if groups.None? || EndOf(units) + body.length > length then None
         else Some(units + [FromBody(EndOf(units), body, groups.value.0)])
  {
    hide FromBody, DecodeGroup, GroupsAfter, EndOf;
    assert (bodies + [body])[..|bodies|] == bodies;
  }

  lemma NormalizedPush(units: seq<SidecarUnit>)
    requires units != []
    ensures NormalizedAll(units) == NormalizedAll(units[..|units| - 1]) + [Normalized(units[|units| - 1])]
  {
    hide Normalized;
  }

  lemma BodyLength(unit: SidecarUnit, state: nat)
    requires UnitValid(unit)
    ensures ToBody(unit, state).length == unit.end - unit.start && ToBody(unit, state).state == state
  {
  }

  lemma BodiesPush(units: seq<SidecarUnit>)
    requires units != []
    ensures Bodies(units)
         == Bodies(units[..|units| - 1]) + [ToBody(units[|units| - 1], StateAt(units, |units| - 1))]
  {
    hide ToBody;
    var body := units[..|units| - 1];
    forall i: nat | i < |body|
      ensures StateAt(units, i) == StateAt(body, i)
    {
      assert units[..i] == body[..i];
    }
  }

  /** What the decoder places is encodable so far, and its bodies are those it was placed from. */
  lemma {:induction false} PlacedUnits(bodies: seq<Body>, length: nat)
    requires length <= U64_MAX && AllValid(BodyValid, bodies) && Place(bodies, length).Some?
    ensures UnitsInRow(Place(bodies, length).value, length)
    ensures Bodies(Place(bodies, length).value) == bodies
  {
    hide UnitValid, BodyValid, ToBody, FromBody, Normalized;
    if bodies != [] {
      var body, last := bodies[..|bodies| - 1], bodies[|bodies| - 1];
      PlacedUnits(body, length);
      var before := Place(body, length).value;
      var g := GroupsAfter(before).value;
      var id := DecodeGroup(g, last.state).value.0;
      var unit := FromBody(EndOf(before), last, id);
      ToFromBody(EndOf(before), last, id);
      FromBodyPlace(EndOf(before), last, id);
      GroupCoding(g, id, last.state);
      var units := before + [unit];
      InRowPush(before, unit, length);
      BodiesPush(units);
      assert units[..|before|] == before;
      assert StateAt(units, |before|) == last.state;
    }
  }

  lemma FromBodyPlace(start: nat, body: Body, id: Option<nat>)
    ensures var unit := FromBody(start, body, id);
      unit.start == start && unit.end == start + body.length && unit.groupId == id
  {
  }

  lemma {:induction false} GroupsAfterPush(units: seq<SidecarUnit>, unit: SidecarUnit)
    requires GroupsAfter(units).Some? && EncodeGroup(GroupsAfter(units).value, unit.groupId).Some?
    ensures GroupsAfter(units + [unit]).Some?
  {
    hide EncodeGroup;
    assert (units + [unit])[..|units|] == units;
  }

  lemma EndOfPush(units: seq<SidecarUnit>, unit: SidecarUnit)
    ensures EndOf(units + [unit]) == unit.end
  {
  }

  lemma {:induction false} InRowPush(units: seq<SidecarUnit>, unit: SidecarUnit, length: nat)
    requires UnitsInRow(units, length) && UnitValid(unit) && unit.start == EndOf(units) && unit.end <= length
    requires EncodeGroup(GroupsAfter(units).value, unit.groupId).Some?
    ensures UnitsInRow(units + [unit], length)
  {
    hide UnitValid, GroupsAfter, EncodeGroup, EndOf;
    GroupsAfterPush(units, unit);
    EndOfPush(units, unit);
    var more := units + [unit];
    assert more[..|units|] == units;
    forall i: nat | i < |more|
      ensures UnitValid(more[i]) && more[i].start == EndOf(more[..i])
    {
      if i < |units| {
        assert more[..i] == units[..i];
      }
    }
  }
}
