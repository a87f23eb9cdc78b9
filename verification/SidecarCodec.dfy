/** The sidecar's byte form and its reader. */
module SidecarCodec {
  import opened Wrappers
  import opened Bytes
  import opened LosslessFormat
  import opened SidecarFormat
  import Varint

  // ------------------------------------------------------------------- byte form

  function EncodeCutList(cuts: seq<nat>): seq<byte> {
    Varint.Encode(|cuts|) + EncodeList(Varint.Encode, cuts)
  }

  function EncodeRelative(r: Relative): seq<byte> {
    U32(r.scoreBits % 0x1_0000_0000) + EncodeCutList(r.cuts)
  }

  function Flags(body: Body): byte {
    if 1 <= body.kind <= 8 && 1 <= body.mode <= 3 && body.state <= 2 then
      PackFlags(body.kind, body.mode, body.state, |body.candidates| > 1)
    else 0
  }

  function EncodeCandidates(body: Body): seq<byte> {
    if |body.candidates| > 1 then
      Varint.Encode(|body.candidates|) + (Varint.Encode(body.selected) + EncodeList(EncodeRelative, body.candidates))
    else if |body.candidates| == 1 then EncodeCutList(body.candidates[0].cuts)
    else []
  }

  function EncodeBody(body: Body): seq<byte> {
    Varint.Encode(body.length) + ([Flags(body)] + EncodeCandidates(body))
  }

  // ------------------------------------------------------------------ prefix codes

  predicate Any(value: nat) {
    true
  }

  predicate ScoreFits(r: Relative) {
    r.scoreBits <= U32_MAX
  }

  lemma VarintPrefixFree()
    ensures PrefixFree(Varint.Encode, Any)
  {
    hide Varint.Encode;
    forall bytes: seq<byte>, position: nat, x: nat, y: nat
      | Embedded(bytes, position, Varint.Encode(x)) && Embedded(bytes, position, Varint.Encode(y))
      ensures x == y
    {
      Varint.EncodeUnique(bytes, position, x, y);
    }
  }

  lemma CutListUnique(bytes: seq<byte>, position: nat, x: seq<nat>, y: seq<nat>)
    requires Embedded(bytes, position, EncodeCutList(x)) && Embedded(bytes, position, EncodeCutList(y))
    ensures x == y
  {
    hide Varint.Encode, EncodeList;
    EmbeddedSplit(bytes, position, Varint.Encode(|x|), EncodeList(Varint.Encode, x));
    EmbeddedSplit(bytes, position, Varint.Encode(|y|), EncodeList(Varint.Encode, y));
    Varint.EncodeUnique(bytes, position, |x|, |y|);
    VarintPrefixFree();
    ListUnique(Varint.Encode, Any, x, y, bytes, position + |Varint.Encode(|x|)|);
  }

  lemma RelativePrefixFree()
    ensures PrefixFree(EncodeRelative, ScoreFits)
  {
    hide EncodeCutList, U32;
    forall bytes: seq<byte>, position: nat, x: Relative, y: Relative
      | ScoreFits(x) && ScoreFits(y)
        && Embedded(bytes, position, EncodeRelative(x)) && Embedded(bytes, position, EncodeRelative(y))
      ensures x == y
    {
      RelativeParts(bytes, position, x);
      RelativeParts(bytes, position, y);
      CutListUnique(bytes, position + 4, x.cuts, y.cuts);
    }
  }

  lemma RelativeParts(bytes: seq<byte>, position: nat, r: Relative)
    requires ScoreFits(r) && Embedded(bytes, position, EncodeRelative(r))
    ensures position + 4 <= |bytes| && ReadU32(bytes, position) == r.scoreBits
    ensures Embedded(bytes, position + 4, EncodeCutList(r.cuts))
  {
    hide EncodeCutList, U32, ReadU32;
    EmbeddedSplit(bytes, position, U32(r.scoreBits), EncodeCutList(r.cuts));
    ReadOfU32(bytes, position, r.scoreBits);
  }

  /** The parts every body starts with. */
  lemma BodyParts(bytes: seq<byte>, position: nat, body: Body)
    requires Embedded(bytes, position, EncodeBody(body))
    ensures Embedded(bytes, position, Varint.Encode(body.length))
    ensures var flags := position + |Varint.Encode(body.length)|;
      flags < |bytes| && bytes[flags] == Flags(body) && Embedded(bytes, flags + 1, EncodeCandidates(body))
  {
    hide Varint.Encode, EncodeCandidates, Flags;
    EmbeddedSplit(bytes, position, Varint.Encode(body.length), [Flags(body)] + EncodeCandidates(body));
    var flags := position + |Varint.Encode(body.length)|;
    EmbeddedSplit(bytes, flags, [Flags(body)], EncodeCandidates(body));
    assert bytes[flags..flags + 1][0] == bytes[flags];
  }

  lemma BodyJoined(bytes: seq<byte>, position: nat, body: Body)
    requires Embedded(bytes, position, Varint.Encode(body.length))
    requires var flags := position + |Varint.Encode(body.length)|;
      flags < |bytes| && bytes[flags] == Flags(body) && Embedded(bytes, flags + 1, EncodeCandidates(body))
    ensures Embedded(bytes, position, EncodeBody(body))
    ensures |EncodeBody(body)| == |Varint.Encode(body.length)| + 1 + |EncodeCandidates(body)|
  {
    hide Varint.Encode, EncodeCandidates, Flags;
    var flags := position + |Varint.Encode(body.length)|;
    assert bytes[flags..flags + 1] == [bytes[flags]];
    EmbeddedJoin(bytes, flags, [Flags(body)], EncodeCandidates(body));
    EmbeddedJoin(bytes, position, Varint.Encode(body.length), [Flags(body)] + EncodeCandidates(body));
  }

  /** What the flag byte of a valid body says. */
  lemma FlagsOf(body: Body)
    requires BodyValid(body)
    ensures UnpackKind(Flags(body)) == body.kind && UnpackMode(Flags(body)) == Some(body.mode)
    ensures UnpackState(Flags(body)) == body.state && UnpackAmbiguous(Flags(body)) == (|body.candidates| > 1)
  {
    FlagsRoundTrip(Flags(body), body.kind, body.mode, body.state, |body.candidates| > 1);
  }

  /** The parts of the candidates of an ambiguous unit. */
  lemma CandidatesParts(bytes: seq<byte>, position: nat, body: Body)
    requires |body.candidates| > 1 && Embedded(bytes, position, EncodeCandidates(body))
    ensures var n := Varint.Encode(|body.candidates|);
      var k := Varint.Encode(body.selected);
      && Embedded(bytes, position, n) && Embedded(bytes, position + |n|, k)
      && Embedded(bytes, position + |n| + |k|, EncodeList(EncodeRelative, body.candidates))
  {
    hide Varint.Encode, EncodeList;
    var list := EncodeList(EncodeRelative, body.candidates);
    EmbeddedSplit(bytes, position, Varint.Encode(|body.candidates|), Varint.Encode(body.selected) + list);
    EmbeddedSplit(bytes, position + |Varint.Encode(|body.candidates|)|, Varint.Encode(body.selected), list);
  }

  lemma CandidatesJoined(bytes: seq<byte>, position: nat, body: Body)
    requires |body.candidates| > 1
    requires var n := Varint.Encode(|body.candidates|);
      var k := Varint.Encode(body.selected);
      && Embedded(bytes, position, n) && Embedded(bytes, position + |n|, k)
      && Embedded(bytes, position + |n| + |k|, EncodeList(EncodeRelative, body.candidates))
    ensures Embedded(bytes, position, EncodeCandidates(body))
    ensures |EncodeCandidates(body)| == |Varint.Encode(|body.candidates|)| + |Varint.Encode(body.selected)|
                                        + |EncodeList(EncodeRelative, body.candidates)|
  {
    hide Varint.Encode, EncodeList;
    var list := EncodeList(EncodeRelative, body.candidates);
    EmbeddedJoin(bytes, position + |Varint.Encode(|body.candidates|)|, Varint.Encode(body.selected), list);
    EmbeddedJoin(bytes, position, Varint.Encode(|body.candidates|), Varint.Encode(body.selected) + list);
  }

  lemma ScoresFit(body: Body)
    requires BodyValid(body)
    ensures AllValid(ScoreFits, body.candidates)
  {
    forall i: nat | i < |body.candidates|
      ensures ScoreFits(body.candidates[i])
    {
      assert RelativeValid(body.length, body.candidates[i]);
    }
  }

  lemma BodyPrefixFree()
    ensures PrefixFree(EncodeBody, BodyValid)
  {
    hide EncodeBody, BodyValid;
    forall bytes: seq<byte>, position: nat, x: Body, y: Body
      | BodyValid(x) && BodyValid(y)
        && Embedded(bytes, position, EncodeBody(x)) && Embedded(bytes, position, EncodeBody(y))
      ensures x == y
    {
      BodyUnique(bytes, position, x, y);
    }
  }

  lemma BodyUnique(bytes: seq<byte>, position: nat, x: Body, y: Body)
    requires BodyValid(x) && BodyValid(y)
    requires Embedded(bytes, position, EncodeBody(x)) && Embedded(bytes, position, EncodeBody(y))
    ensures x == y
  {
    hide EncodeBody, BodyValid, EncodeCandidates, Flags, Varint.Encode, Embedded;
    BodyParts(bytes, position, x);
    BodyParts(bytes, position, y);
    Varint.EncodeUnique(bytes, position, x.length, y.length);
    FlagsOf(x);
    FlagsOf(y);
    var start := position + |Varint.Encode(x.length)| + 1;
    CandidatesUnique(bytes, start, x, y);
  }

  lemma CandidatesUnique(bytes: seq<byte>, start: nat, x: Body, y: Body)
    requires BodyValid(x) && BodyValid(y) && (|x.candidates| > 1 <==> |y.candidates| > 1)
    requires Embedded(bytes, start, EncodeCandidates(x)) && Embedded(bytes, start, EncodeCandidates(y))
    ensures x.candidates == y.candidates && x.selected == y.selected
  {
    hide Varint.Encode, EncodeList, Embedded, RelativeValid, EncodeCutList;
    if |x.candidates| > 1 {
      CandidatesParts(bytes, start, x);
      CandidatesParts(bytes, start, y);
      Varint.EncodeUnique(bytes, start, |x.candidates|, |y.candidates|);
      var middle := start + |Varint.Encode(|x.candidates|)|;
      Varint.EncodeUnique(bytes, middle, x.selected, y.selected);
      RelativePrefixFree();
      ScoresFit(x);
      ScoresFit(y);
      ListUnique(EncodeRelative, ScoreFits, x.candidates, y.candidates, bytes, middle + |Varint.Encode(x.selected)|);
    } else {
      CutListUnique(bytes, start, x.candidates[0].cuts, y.candidates[0].cuts);
      assert x.candidates[0] == y.candidates[0];
      assert x.candidates == [x.candidates[0]] && y.candidates == [y.candidates[0]];
    }
  }
}
