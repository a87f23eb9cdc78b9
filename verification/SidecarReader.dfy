/** Reading a sidecar: the byte reader and the decoding of units. */
module SidecarReader {
  import opened Wrappers
  import opened Bytes
  import opened LosslessFormat
  import opened SidecarFormat
  import opened SidecarCodec
  import Varint

  /** The bodies the decoder accepts. */
  predicate BodyDecodable(body: Body) {
    BodyValid(body) && |body.candidates| <= MAX_CANDIDATES
  }

  ghost predicate NoCuts(bytes: seq<byte>, position: nat, length: nat) {
    forall cuts: seq<nat> | CutsValid(0, length, cuts) :: !Embedded(bytes, position, EncodeCutList(cuts))
  }

  /** Strictly increasing numbers below a bound are few. */
  lemma {:induction false} CutsAreFew(start: nat, end: nat, cuts: seq<nat>)
    requires CutsValid(start, end, cuts)
    ensures |cuts| <= end - start - 1
    ensures cuts != [] ==> start + |cuts| <= cuts[|cuts| - 1]
  {
    if cuts != [] {
      var body := cuts[..|cuts| - 1];
      assert CutsValid(start, end, body);
      CutsAreFew(start, end, body);
      assert start < cuts[|cuts| - 1] < end;
      if body != [] {
        assert cuts[|cuts| - 1 - 1] < cuts[|cuts| - 1];
      }
    }
  }

  lemma {:induction false} CutListParts(bytes: seq<byte>, position: nat, cuts: seq<nat>)
    requires Embedded(bytes, position, EncodeCutList(cuts))
    ensures Embedded(bytes, position, Varint.Encode(|cuts|))
    ensures Embedded(bytes, position + |Varint.Encode(|cuts|)|, EncodeList(Varint.Encode, cuts))
  {
    hide Varint.Encode, EncodeList;
    EmbeddedSplit(bytes, position, Varint.Encode(|cuts|), EncodeList(Varint.Encode, cuts));
  }

  /** Without a readable count of at most length - 1 there are no cuts. */
  lemma NoCutsByCount(bytes: seq<byte>, position: nat, length: nat, count: Option<nat>)
    requires length <= U64_MAX
    requires count.None? ==> Varint.NoneAt(bytes, position)
    requires count.Some? ==> Embedded(bytes, position, Varint.Encode(count.value)) && count.value > length - 1
    ensures NoCuts(bytes, position, length)
  {
    hide Varint.Encode, EncodeCutList;
    forall cuts: seq<nat> | CutsValid(0, length, cuts)
      ensures !Embedded(bytes, position, EncodeCutList(cuts))
    {
      if Embedded(bytes, position, EncodeCutList(cuts)) {
        CutListParts(bytes, position, cuts);
        CutsAreFew(0, length, cuts);
        if count.Some? {
          Varint.EncodeUnique(bytes, position, count.value, |cuts|);
        }
      }
    }
  }

  /** Without a readable cut there are no cuts. */
  lemma {:induction false} NoCutsByItem(bytes: seq<byte>, position: nat, length: nat, count: nat, found: seq<nat>, middle: nat)
    requires length <= U64_MAX && |found| < count && Embedded(bytes, position, Varint.Encode(count))
    requires ListFound(Varint.Encode, Any, bytes, position + |Varint.Encode(count)|, found, middle)
    requires Varint.NoneAt(bytes, middle)
    ensures NoCuts(bytes, position, length)
  {
    hide Varint.Encode, EncodeCutList, EncodeList;
    forall cuts: seq<nat> | CutsValid(0, length, cuts)
      ensures !Embedded(bytes, position, EncodeCutList(cuts))
    {
      if Embedded(bytes, position, EncodeCutList(cuts)) {
        CutListParts(bytes, position, cuts);
        Varint.EncodeUnique(bytes, position, count, |cuts|);
        CutsInside(length, cuts, |found|);
        PrefixOfCuts(bytes, position + |Varint.Encode(count)|, cuts, found, middle);
      }
    }
  }

  lemma CutsInside(length: nat, cuts: seq<nat>, n: nat)
    requires CutsValid(0, length, cuts) && n <= |cuts|
    ensures CutsValid(0, length, cuts[..n]) && (n < |cuts| ==> cuts[n] < length)
  {
  }

  /** The cuts found so far are the first of every list of cuts at the place. */
  lemma {:induction false} PrefixOfCuts(bytes: seq<byte>, start: nat, cuts: seq<nat>, found: seq<nat>, middle: nat)
    requires |found| < |cuts| && Embedded(bytes, start, EncodeList(Varint.Encode, cuts))
    requires ListFound(Varint.Encode, Any, bytes, start, found, middle)
    ensures cuts[..|found|] == found && Embedded(bytes, middle, Varint.Encode(cuts[|found|]))
  {
    hide Varint.Encode, EncodeList, Embedded, PrefixFree;
    ListItem(Varint.Encode, cuts, |found|, bytes, start);
    VarintPrefixFree();
    ListUnique(Varint.Encode, Any, cuts[..|found|], found, bytes, start);
  }

  /** Once some cuts are read that do not fit, there are no cuts that do. */
  lemma {:induction false} NoCutsByValue(bytes: seq<byte>, position: nat, length: nat, count: nat, found: seq<nat>, end: nat)
    requires |found| <= count && Embedded(bytes, position, Varint.Encode(count))
    requires ListFound(Varint.Encode, Any, bytes, position + |Varint.Encode(count)|, found, end)
    requires !CutsValid(0, length, found)
    ensures NoCuts(bytes, position, length)
  {
    hide Varint.Encode, EncodeCutList, EncodeList;
    var start := position + |Varint.Encode(count)|;
    forall cuts: seq<nat> | CutsValid(0, length, cuts)
      ensures !Embedded(bytes, position, EncodeCutList(cuts))
    {
      if Embedded(bytes, position, EncodeCutList(cuts)) {
        CutListParts(bytes, position, cuts);
        Varint.EncodeUnique(bytes, position, count, |cuts|);
        CutsInside(length, cuts, |found|);
        assert cuts[..|cuts|] == cuts;
        if |found| < |cuts| {
          PrefixOfCuts(bytes, start, cuts, found, end);
        } else {
          VarintPrefixFree();
          ListUnique(Varint.Encode, Any, cuts, found, bytes, start);
        }
      }
    }
  }

  /** Whether a written candidate fits a unit of a length. */
  function RelativeFits(length: nat): Relative -> bool {
    (r: Relative) => RelativeValid(length, r)
  }

  lemma RelativeFitsPrefixFree(length: nat)
    ensures PrefixFree(EncodeRelative, RelativeFits(length))
  {
    hide EncodeRelative, Embedded, CutsValid;
    RelativePrefixFree();
    assert forall r | RelativeFits(length)(r) :: ScoreFits(r);
  }

  lemma NoRelativeBy(bytes: seq<byte>, from: nat, length: nat)
    ensures forall r | RelativeFits(length)(r) && Embedded(bytes, from, EncodeRelative(r)) ::
      from + 4 <= |bytes| && IsFinite(ReadU32(bytes, from))
  {
    hide EncodeRelative, Embedded, ReadU32, CutsValid;
    forall r | RelativeFits(length)(r) && Embedded(bytes, from, EncodeRelative(r))
      ensures from + 4 <= |bytes| && IsFinite(ReadU32(bytes, from))
    {
      RelativeParts(bytes, from, r);
    }
  }

  lemma NoRelativeWithout(bytes: seq<byte>, from: nat, length: nat)
    requires NoCuts(bytes, from + 4, length)
    ensures forall r | RelativeFits(length)(r) :: !Embedded(bytes, from, EncodeRelative(r))
  {
    hide EncodeRelative, EncodeCutList, Embedded, ReadU32, CutsValid;
    forall r | RelativeFits(length)(r)
      ensures !Embedded(bytes, from, EncodeRelative(r))
    {
      if Embedded(bytes, from, EncodeRelative(r)) {
        RelativeParts(bytes, from, r);
      }
    }
  }

  lemma RelativeJoined(bytes: seq<byte>, from: nat, r: Relative)
    requires from + 4 <= |bytes| && r.scoreBits == ReadU32(bytes, from)
    requires Embedded(bytes, from + 4, EncodeCutList(r.cuts))
    ensures Embedded(bytes, from, EncodeRelative(r)) && |EncodeRelative(r)| == 4 + |EncodeCutList(r.cuts)|
  {
    hide EncodeCutList, U32, ReadU32;
    ReadOfU32(bytes, from, r.scoreBits);
    EmbeddedJoin(bytes, from, U32(r.scoreBits), EncodeCutList(r.cuts));
  }

  /** The candidates at their place. */
  function Absolute(start: nat, selected: nat, found: seq<Relative>): seq<Candidate> {
    FromBody(start, Shell(0, selected, found), None).candidates
  }

  function RelativesOf(start: nat, cs: seq<Candidate>): (r: seq<Relative>)
    ensures |r| == |cs|
  {
    seq(|cs|, i requires 0 <= i < |cs| => Relative(Unshifted(start, cs[i].cuts), cs[i].scoreBits))
  }

  /** A body of which only the candidates matter. */
  function Shell(length: nat, selected: nat, found: seq<Relative>): Body {
    Body(length, 1, 1, 0, selected, found)
  }

  ghost predicate CandidatesRead(bytes: seq<byte>, from: nat, length: nat, ambiguous: bool, selected: nat,
                                 found: seq<Relative>, end: nat)
  {
    var shell := Shell(length, selected, found);
    && BodyDecodable(shell) && (|found| > 1) == ambiguous
    && Embedded(bytes, from, EncodeCandidates(shell)) && end == from + |EncodeCandidates(shell)|
  }

  ghost predicate NoCandidates(bytes: seq<byte>, from: nat, length: nat, ambiguous: bool) {
    forall body | BodyDecodable(body) && body.length == length && (|body.candidates| > 1) == ambiguous ::
      !Embedded(bytes, from, EncodeCandidates(body))
  }

  lemma NoLoneWithout(bytes: seq<byte>, from: nat, length: nat)
    requires NoCuts(bytes, from, length)
    ensures NoCandidates(bytes, from, length, false)
  {
    hide EncodeCutList, Embedded, CutsValid;
    forall body | BodyDecodable(body) && body.length == length && |body.candidates| == 1
      ensures !Embedded(bytes, from, EncodeCandidates(body))
    {
      assert RelativeValid(body.length, body.candidates[0]);
    }
  }

  lemma LoneRead(bytes: seq<byte>, from: nat, length: nat, lone: Relative, end: nat)
    requires 0 < length <= U64_MAX && CutsValid(0, length, lone.cuts) && lone.scoreBits == 0
    requires Embedded(bytes, from, EncodeCutList(lone.cuts)) && end == from + |EncodeCutList(lone.cuts)|
    ensures CandidatesRead(bytes, from, length, false, 0, [lone], end)
  {
    hide EncodeCutList, Embedded, CutsValid;
    assert RelativeValid(length, lone);
  }

  lemma NoCandidatesByCount(bytes: seq<byte>, from: nat, length: nat, count: Option<nat>)
    requires count.None? ==> Varint.NoneAt(bytes, from)
    requires count.Some? ==>
      Embedded(bytes, from, Varint.Encode(count.value)) && (count.value < 2 || count.value > MAX_CANDIDATES)
    ensures NoCandidates(bytes, from, length, true)
  {
    hide Varint.Encode, Embedded, EncodeCandidates, EncodeList, RelativeValid;
    forall body | BodyDecodable(body) && body.length == length && |body.candidates| > 1
      ensures !Embedded(bytes, from, EncodeCandidates(body))
    {
      if Embedded(bytes, from, EncodeCandidates(body)) {
        CandidatesParts(bytes, from, body);
        if count.Some? {
          Varint.EncodeUnique(bytes, from, count.value, |body.candidates|);
        }
      }
    }
  }

  lemma {:induction false} NoCandidatesByIndex(bytes: seq<byte>, from: nat, length: nat, count: nat, middle: nat, index: Option<nat>)
    requires Embedded(bytes, from, Varint.Encode(count)) && middle == from + |Varint.Encode(count)|
    requires index.None? ==> Varint.NoneAt(bytes, middle)
    requires index.Some? ==> Embedded(bytes, middle, Varint.Encode(index.value)) && index.value >= count
    ensures NoCandidates(bytes, from, length, true)
  {
    hide Varint.Encode, Embedded, EncodeCandidates, EncodeList, RelativeValid;
    forall body | BodyDecodable(body) && body.length == length && |body.candidates| > 1
      ensures !Embedded(bytes, from, EncodeCandidates(body))
    {
      if Embedded(bytes, from, EncodeCandidates(body)) {
        CandidatesParts(bytes, from, body);
        Varint.EncodeUnique(bytes, from, count, |body.candidates|);
        if index.Some? {
          Varint.EncodeUnique(bytes, middle, index.value, body.selected);
        }
      }
    }
  }

  lemma RelativesFit(body: Body)
    requires BodyValid(body)
    ensures AllValid(RelativeFits(body.length), body.candidates)
  {
    hide RelativeValid;
  }

  /** Where the alternatives start. */
  function ListStartOf(from: nat, count: nat, index: nat): nat {
    from + |Varint.Encode(count)| + |Varint.Encode(index)|
  }

  lemma {:induction false} NoCandidatesByItem(bytes: seq<byte>, from: nat, length: nat, count: nat, index: nat)
    requires Embedded(bytes, from, Varint.Encode(count))
    requires Embedded(bytes, from + |Varint.Encode(count)|, Varint.Encode(index))
    requires NoList(EncodeRelative, RelativeFits(length), bytes, ListStartOf(from, count, index), count)
    ensures NoCandidates(bytes, from, length, true)
  {
    hide Varint.Encode, Embedded, EncodeCandidates, EncodeList, RelativeValid, EncodeRelative;
    forall body | BodyDecodable(body) && body.length == length && |body.candidates| > 1
      ensures !Embedded(bytes, from, EncodeCandidates(body))
    {
      if Embedded(bytes, from, EncodeCandidates(body)) {
        CandidatesParts(bytes, from, body);
        Varint.EncodeUnique(bytes, from, count, |body.candidates|);
        Varint.EncodeUnique(bytes, from + |Varint.Encode(count)|, index, body.selected);
        RelativesFit(body);
      }
    }
  }

  lemma {:induction false} AlternativesRead(bytes: seq<byte>, from: nat, length: nat, count: nat, index: nat, found: seq<Relative>, end: nat)
    requires 0 < length <= U64_MAX && |found| == count && 2 <= count <= MAX_CANDIDATES && index < count
    requires Embedded(bytes, from, Varint.Encode(count))
    requires Embedded(bytes, from + |Varint.Encode(count)|, Varint.Encode(index))
    requires ListFound(EncodeRelative, RelativeFits(length), bytes, ListStartOf(from, count, index), found, end)
    ensures CandidatesRead(bytes, from, length, true, index, found, end)
  {
    hide Varint.Encode, EncodeList, RelativeValid, EncodeRelative;
    forall i: nat | i < |found|
      ensures RelativeValid(length, found[i])
    {
      assert RelativeFits(length)(found[i]);
    }
    CandidatesJoined(bytes, from, Shell(length, index, found));
  }

  class Reader {
    const input: seq<byte>
    var position: nat

    ghost predicate Valid()
      reads this
    {
      position <= |input|
    }

    constructor (input: seq<byte>)
      ensures Valid() && this.input == input && position == 0
    {
      this.input := input;
      position := 0;
    }

    method Take(count: nat) returns (r: Option<seq<byte>>)
      requires Valid()
      modifies this
      ensures Valid()
      ensures r.Some? <==> old(position) + count <= |input|
      ensures r.Some? ==> position == old(position) + count && r.value == input[old(position)..position]
    {
      if count > |input| - position {
        return None;
      }
      r := Some(input[position..position + count]);
      position := position + count;
    }

    method TakeByte() returns (r: Option<byte>)
      requires Valid()
      modifies this
      ensures Valid()
      ensures r.Some? <==> old(position) < |input|
      ensures r.Some? ==> position == old(position) + 1 && r.value == input[old(position)]
    {
      var bytes := Take(1);
      if bytes.None? {
        return None;
      }
      r := Some(bytes.value[0]);
    }

    method TakeU32() returns (r: Option<nat>)
      requires Valid()
      modifies this
      ensures Valid()
      ensures r.Some? <==> old(position) + 4 <= |input|
      ensures r.Some? ==> position == old(position) + 4 && r.value == ReadU32(input, old(position))
    {
      var bytes := Take(4);
      if bytes.None? {
        return None;
      }
      r := Some(ReadU32(bytes.value, 0));
    }

    method VarU64() returns (r: Option<nat>)
      requires Valid()
      modifies this
      ensures Valid()
      ensures r.Some? ==>
        && r.value <= U64_MAX && Embedded(input, old(position), Varint.Encode(r.value))
        && position == old(position) + |Varint.Encode(r.value)|
      ensures r.None? ==> Varint.NoneAt(input, old(position))
    {
      r, position := Varint.ReadVarU64(input, position);
    }

    /** Reads the cuts of a candidate of the unit from start to end. */
    method ReadRelativeCuts(start: nat, end: nat) returns (r: Option<seq<nat>>)
      requires Valid() && start < end <= U64_MAX
      modifies this
      ensures Valid()
      ensures r.Some? ==>
        && CutsValid(start, end, r.value) && CutsValid(0, end - start, Unshifted(start, r.value))
        && Embedded(input, old(position), EncodeCutList(Unshifted(start, r.value)))
        && position == old(position) + |EncodeCutList(Unshifted(start, r.value))|
      ensures r.None? ==> NoCuts(input, old(position), end - start)
    {
      hide Varint.Encode, EncodeList, NoCuts, CutsValid, Varint.NoneAt;
      ghost var from := position;
      var count := VarU64();
      if count.None? || count.value > end - start - 1 {
        NoCutsByCount(input, from, end - start, count);
        return None;
      }
      var cuts: seq<nat> := [];
      ghost var found: seq<nat> := [];
      ghost var list := position;
      ListStart(Varint.Encode, Any, input, list);
      for i := 0 to count.value
        invariant Valid() && |found| == i && cuts == Shifted(start, found)
        invariant ListFound(Varint.Encode, Any, input, list, found, position)
      {
        ghost var middle := position;
        var relative := VarU64();
        if relative.None? {
          NoCutsByItem(input, from, end - start, count.value, found, middle);
          return None;
        }
        ListGrows(Varint.Encode, Any, input, list, found, middle, relative.value, position);
        found := found + [relative.value];
        if start + relative.value > U64_MAX {
          BeyondUnit(end - start, found);
          NoCutsByValue(input, from, end - start, count.value, found, position);
          return None;
        }
        cuts := cuts + [start + relative.value];
      }
      CutsShift(start, end, found);
      var valid := ValidateUnit(start, end, cuts);
      if !valid {
        NoCutsByValue(input, from, end - start, count.value, found, position);
        return None;
      }
      EmbeddedJoin(input, from, Varint.Encode(count.value), EncodeList(Varint.Encode, found));
      r := Some(cuts);
    }
  
    /** Reads one alternative of an ambiguous unit. */
    method ReadCandidate(start: nat, end: nat, selected: bool) returns (r: Option<Candidate>)
      requires Valid() && start < end <= U64_MAX
      modifies this
      ensures Valid()
      ensures r.Some? ==>
        && r.value.selected == selected && CutsValid(start, end, r.value.cuts)
        && Found(EncodeRelative, RelativeFits(end - start), input, old(position),
                 Some(Relative(Unshifted(start, r.value.cuts), r.value.scoreBits)), position)
      ensures r.None? ==> Found(EncodeRelative, RelativeFits(end - start), input, old(position), None, position)
    {
      hide EncodeCutList, ReadU32, U32, CutsValid, NoCuts, IsFinite;
      ghost var from := position;
      NoRelativeBy(input, from, end - start);
      var score := TakeU32();
      if score.None? || !IsFinite(score.value) {
        return None;
      }
      var cuts := ReadRelativeCuts(start, end);
      if cuts.None? {
        NoRelativeWithout(input, from, end - start);
        return None;
      }
      RelativeJoined(input, from, Relative(Unshifted(start, cuts.value), score.value));
      r := Some(Candidate(cuts.value, score.value, selected));
    }

    /** Reads the alternatives of an ambiguous unit. */
    method ReadAlternatives(start: nat, end: nat, count: nat, index: nat) returns (r: Option<seq<Candidate>>)
      requires Valid() && start < end <= U64_MAX
      modifies this
      ensures Valid()
      ensures r.Some? ==>
        && |r.value| == count && r.value == Absolute(start, index, RelativesOf(start, r.value))
        && ListFound(EncodeRelative, RelativeFits(end - start), input, old(position), RelativesOf(start, r.value), position)
      ensures r.None? ==> NoList(EncodeRelative, RelativeFits(end - start), input, old(position), count)
    {
      hide EncodeRelative, EncodeList, CutsValid, RelativeFits, Found, ListFound, NoList, PrefixFree;
      ghost var from, length := position, end - start;
      var candidates: seq<Candidate> := [];
      ListStart(EncodeRelative, RelativeFits(length), input, from);
      RelativeFitsPrefixFree(length);
      assert RelativesOf(start, []) == [];
      for i := 0 to count
        invariant Valid() && |candidates| == i
        invariant candidates == Absolute(start, index, RelativesOf(start, candidates))
        invariant ListFound(EncodeRelative, RelativeFits(length), input, from, RelativesOf(start, candidates), position)
      {
        ghost var middle := position;
        ghost var found := RelativesOf(start, candidates);
        var candidate := ReadCandidate(start, end, i == index);
        if candidate.None? {
          ListMisses(EncodeRelative, RelativeFits(length), input, from, found, middle, count, position);
          return None;
        }
        AbsolutePush(start, end, index, candidates, candidate.value);
        ListGrows(EncodeRelative, RelativeFits(length), input, from, found, middle,
                  Relative(Unshifted(start, candidate.value.cuts), candidate.value.scoreBits), position);
        candidates := candidates + [candidate.value];
      }
      r := Some(candidates);
    }

    /** Reads the candidates of a unit; the flag says whether there are several. */
    method ReadCandidates(start: nat, end: nat, ambiguous: bool)
      returns (r: Option<seq<Candidate>>, ghost selected: nat, ghost found: seq<Relative>)
      requires Valid() && start < end <= U64_MAX
      modifies this
      ensures Valid()
      ensures r.Some? ==>
        && CandidatesRead(input, old(position), end - start, ambiguous, selected, found, position)
        && r.value == Absolute(start, selected, found)
      ensures r.None? ==> NoCandidates(input, old(position), end - start, ambiguous)
    {
      hide EncodeRelative, EncodeCutList, Varint.Encode, EncodeList, CutsValid, NoCuts, IsFinite, Varint.NoneAt;
      ghost var from := position;
      selected, found := 0, [];
      if !ambiguous {
        var cuts := ReadRelativeCuts(start, end);
        if cuts.None? {
          NoLoneWithout(input, from, end - start);
          r := None;
        } else {
          CutsShift(start, end, cuts.value);
          found := [Relative(Unshifted(start, cuts.value), 0)];
          LoneRead(input, from, end - start, found[0], position);
          r := Some([Candidate(cuts.value, 0, true)]);
        }
        return;
      }
      var count := VarU64();
      if count.None? || count.value < 2 || count.value > MAX_CANDIDATES {
        NoCandidatesByCount(input, from, end - start, count);
        return None, selected, found;
      }
      ghost var middle := position;
      var index := VarU64();
      if index.None? || index.value >= count.value {
        NoCandidatesByIndex(input, from, end - start, count.value, middle, index);
        return None, selected, found;
      }
      selected := index.value;
      var candidates := ReadAlternatives(start, end, count.value, index.value);
      if candidates.None? {
        NoCandidatesByItem(input, from, end - start, count.value, index.value);
        return None, selected, found;
      }
      found := RelativesOf(start, candidates.value);
      AlternativesRead(input, from, end - start, count.value, index.value, found, position);
      r := candidates;
    }
  }

  lemma BeyondUnit(length: nat, found: seq<nat>)
    requires found != [] && found[|found| - 1] >= length
    ensures !CutsValid(0, length, found)
  {
  }

  lemma AbsolutePush(start: nat, end: nat, index: nat, cs: seq<Candidate>, c: Candidate)
    requires start <= end && cs == Absolute(start, index, RelativesOf(start, cs))
    requires c.selected == (|cs| == index) && CutsValid(start, end, c.cuts)
    ensures RelativesOf(start, cs + [c]) == RelativesOf(start, cs) + [Relative(Unshifted(start, c.cuts), c.scoreBits)]
    ensures cs + [c] == Absolute(start, index, RelativesOf(start, cs + [c]))
  {
    CutsShift(start, end, c.cuts);
    var more := cs + [c];
    assert RelativesOf(start, more) == RelativesOf(start, cs) + [Relative(Unshifted(start, c.cuts), c.scoreBits)];
    forall i: nat | i < |more|
      ensures more[i] == Absolute(start, index, RelativesOf(start, more))[i]
    {
      if i < |cs| {
        assert cs[i] == Absolute(start, index, RelativesOf(start, cs))[i];
      }
    }
  }
}
