/** Long control units take the byte-wise path of the splitter: when their parts are text, and that they need not be. */
module ControlParts {
  import opened Wrappers
  import opened Bytes
  import opened LexicalClasses
  import opened Text
  import opened Splitting
  import opened Document
  import opened Pipeline
  import opened PipelineRun
  import PipelineUnique
  import Utf8

  /** One of the characters of raw[s..e] starts at the place. */
  ghost predicate StartsCharacter(raw: seq<byte>, s: nat, e: nat, x: nat)
    requires s <= e <= |raw| && IsText(raw, s, e)
  {
    exists c :: c in CharsOf(raw, s, e).value && c.start == x
  }

  /** Text ends inside a text only where a character starts. */
  lemma {:induction false} TextEndStarts(raw: seq<byte>, s: nat, x: nat, e: nat)
    requires s <= x < e <= |raw| && IsText(raw, s, x) && IsText(raw, s, e)
    ensures StartsCharacter(raw, s, e, x)
    decreases x - s
  {
    hide ScalarAt;
    var (value, width) := ScalarAt(raw, s).value;
    var chars := CharsOf(raw, s, e).value;
    if s == x {
      assert chars[0] == Char(value, s, s + width);
    } else {
      TextEndStarts(raw, s + width, x, e);
      var c :| c in CharsOf(raw, s + width, e).value && c.start == x;
      assert c in chars;
    }
  }

  lemma StartCuts(raw: seq<byte>, s: nat, e: nat, x: nat)
    requires s <= x < e <= |raw| && IsText(raw, s, e) && StartsCharacter(raw, s, e, x)
    ensures IsText(raw, s, x)
  {
    hide CharsOf;
    var c :| c in CharsOf(raw, s, e).value && c.start == x;
    assert c.start == x || c.end == x;
    CharCut(raw, s, x, e);
  }

  // ------------------------------------------------------------------ byte chunks

  /** Greedy byte chunks start at the multiples of the maximum. */
  lemma {:induction false} ChunkAt(raw: seq<byte>, maximum: nat, chunks: seq<(nat, nat)>, s: nat, e: nat, k: nat)
    requires PipelineUnique.GreedyTile(raw, maximum, true, chunks, s, e) && k < |chunks|
    ensures chunks[k].0 == s + k * maximum
    ensures chunks[k].1 == if k + 1 < |chunks| then s + (k + 1) * maximum else e
    ensures chunks[k].0 < chunks[k].1 <= e && chunks[k].1 - chunks[k].0 <= maximum
  {
    if k > 0 {
      ChunkAt(raw, maximum, chunks, s, e, k - 1);
      assert chunks[k - 1].1 == chunks[k].0;
    }
    assert ChunkFits(raw, maximum, true, chunks[k]);
    assert k + 1 < |chunks| ==> ChunkLength(raw, true, chunks[k]) == maximum;
    assert (k + 1) * maximum == k * maximum + maximum;
  }

  /** There is a chunk for every multiple before the end. */
  lemma ChunkFor(raw: seq<byte>, maximum: nat, chunks: seq<(nat, nat)>, s: nat, e: nat, k: nat)
    requires PipelineUnique.GreedyTile(raw, maximum, true, chunks, s, e) && s + k * maximum < e
    ensures k < |chunks|
  {
    hide PipelineUnique.GreedyTile;
    SomeChunk(raw, maximum, chunks, s, e);
    var last: nat := |chunks| - 1;
    ChunkAt(raw, maximum, chunks, s, e, last);
    Below(k, last + 1, maximum, s, e);
  }

  lemma SomeChunk(raw: seq<byte>, maximum: nat, chunks: seq<(nat, nat)>, s: nat, e: nat)
    requires PipelineUnique.GreedyTile(raw, maximum, true, chunks, s, e)
    ensures chunks != []
  {
  }

  lemma Below(k: nat, n: nat, maximum: nat, s: nat, e: nat)
    requires s + k * maximum < e <= s + n * maximum
    ensures k < n
  {
  }

  ghost predicate ChunksAreText(raw: seq<byte>, chunks: seq<(nat, nat)>) {
    forall i: nat | i < |chunks| :: chunks[i].0 <= chunks[i].1 <= |raw| && IsText(raw, chunks[i].0, chunks[i].1)
  }

  /** Every multiple of the maximum from the start on is the start of a character. */
  ghost predicate MultiplesStart(raw: seq<byte>, maximum: nat, s: nat, e: nat)
    requires s <= e <= |raw| && IsText(raw, s, e)
  {
    forall k: nat | s + k * maximum < e :: StartsCharacter(raw, s, e, s + k * maximum)
  }

  /** If the chunks are text, so is everything before a chunk. */
  lemma {:induction false} TextBefore(raw: seq<byte>, maximum: nat, chunks: seq<(nat, nat)>, s: nat, e: nat, k: nat)
    requires PipelineUnique.GreedyTile(raw, maximum, true, chunks, s, e) && ChunksAreText(raw, chunks) && k < |chunks|
    ensures s <= chunks[k].0 <= |raw| && IsText(raw, s, chunks[k].0)
  {
    hide PipelineUnique.GreedyTile, CharsOf;
    ChunkAt(raw, maximum, chunks, s, e, k);
    if k == 0 {
      assert CharsOf(raw, s, s) == Some([]) by {
        Nothing(raw, s);
      }
    } else {
      ChunkAt(raw, maximum, chunks, s, e, k - 1);
      TextBefore(raw, maximum, chunks, s, e, k - 1);
      TextJoin(raw, s, chunks[k - 1].0, chunks[k - 1].1);
    }
  }

  lemma Nothing(raw: seq<byte>, s: nat)
    requires s <= |raw|
    ensures CharsOf(raw, s, s) == Some([])
  {
  }

  lemma TextChunksStart(raw: seq<byte>, maximum: nat, chunks: seq<(nat, nat)>, s: nat, e: nat)
    requires PipelineUnique.GreedyTile(raw, maximum, true, chunks, s, e) && s <= e <= |raw| && IsText(raw, s, e)
    requires ChunksAreText(raw, chunks)
    ensures MultiplesStart(raw, maximum, s, e)
  {
    hide PipelineUnique.GreedyTile, StartsCharacter, CharsOf, ChunksAreText;
    forall k: nat | s + k * maximum < e
      ensures StartsCharacter(raw, s, e, s + k * maximum)
    {
      ChunkFor(raw, maximum, chunks, s, e, k);
      ChunkAt(raw, maximum, chunks, s, e, k);
      TextBefore(raw, maximum, chunks, s, e, k);
      TextEndStarts(raw, s, chunks[k].0, e);
    }
  }

  lemma StartsMakeTextChunks(raw: seq<byte>, maximum: nat, chunks: seq<(nat, nat)>, s: nat, e: nat)
    requires PipelineUnique.GreedyTile(raw, maximum, true, chunks, s, e) && s <= e <= |raw| && IsText(raw, s, e)
    requires MultiplesStart(raw, maximum, s, e)
    ensures ChunksAreText(raw, chunks)
  {
    hide PipelineUnique.GreedyTile, StartsCharacter, CharsOf, MultiplesStart;
    forall i: nat | i < |chunks|
      ensures chunks[i].0 <= chunks[i].1 <= |raw| && IsText(raw, chunks[i].0, chunks[i].1)
    {
      ChunkAt(raw, maximum, chunks, s, e, i);
      TextToStart(raw, maximum, chunks, s, e, i);
      if i + 1 < |chunks| {
        ChunkAt(raw, maximum, chunks, s, e, i + 1);
        TextToStart(raw, maximum, chunks, s, e, i + 1);
      }
      TextBetween(raw, s, chunks[i].0, chunks[i].1);
    }
  }

  lemma TextToStart(raw: seq<byte>, maximum: nat, chunks: seq<(nat, nat)>, s: nat, e: nat, i: nat)
    requires PipelineUnique.GreedyTile(raw, maximum, true, chunks, s, e) && s <= e <= |raw| && IsText(raw, s, e)
    requires MultiplesStart(raw, maximum, s, e) && i < |chunks|
    ensures s <= chunks[i].0 <= e && IsText(raw, s, chunks[i].0)
  {
    hide PipelineUnique.GreedyTile, StartsCharacter, CharsOf;
    ChunkAt(raw, maximum, chunks, s, e, i);
    StartCuts(raw, s, e, s + i * maximum);
  }

  // ------------------------------------------------------------------ control units

  ghost predicate PartsAreText(raw: seq<byte>, parts: seq<TokenizedUnit>) {
    forall i: nat | i < |parts| :: parts[i].start <= parts[i].end <= |raw| && IsText(raw, parts[i].start, parts[i].end)
  }

  /** The parts of a control unit that is text are all text exactly if the unit needs no cutting, or
      every place it is cut at is the start of a character. */
  lemma ControlPartsAreTextIff(m: Morphology, raw: seq<byte>, unit: TokenizedUnit, maximum: nat, parts: seq<TokenizedUnit>)
    requires Ready(raw, unit) && unit.kind == Control && IsText(raw, unit.start, unit.end)
    requires PartsOf(m, raw, unit, maximum, parts)
    ensures PartsAreText(raw, parts) <==>
      unit.end - unit.start <= maximum || MultiplesStart(raw, maximum, unit.start, unit.end)
  {
    hide CharsOf, ChunksTile, Greedy, ChunkFits, MultiplesStart, UnknownChunk;
    ControlIsOpaque(raw, unit);
    var chunks: seq<(nat, nat)> :| ChunkedAs(m, raw, unit, maximum, chunks, parts);
    PipelineUnique.ChunkedIsGreedy(m, raw, unit, maximum, chunks, parts);
    var s, e := unit.start, unit.end;
    PartsFollowChunks(m, raw, unit, maximum, chunks, parts);
    if ChunksAreText(raw, chunks) {
      TextChunksStart(raw, maximum, chunks, s, e);
    }
    if MultiplesStart(raw, maximum, s, e) {
      StartsMakeTextChunks(raw, maximum, chunks, s, e);
    }
    if e - s <= maximum {
      OneChunk(raw, maximum, chunks, s, e);
    }
  }

  lemma ControlIsOpaque(raw: seq<byte>, unit: TokenizedUnit)
    requires Ready(raw, unit) && unit.kind == Control
    ensures unit.mode == OpaqueMode && MaySplit(unit) && unit.start < unit.end <= |raw| && !unit.status.Unknown?
  {
    hide IsText;
  }

  lemma PartsFollowChunks(m: Morphology, raw: seq<byte>, unit: TokenizedUnit, maximum: nat, chunks: seq<(nat, nat)>,
                          parts: seq<TokenizedUnit>)
    requires ChunkedAs(m, raw, unit, maximum, chunks, parts)
    ensures PartsAreText(raw, parts) <==> ChunksAreText(raw, chunks)
  {
    hide CharsOf, Greedy, ChunkFits, UnknownChunk;
    forall i: nat | i < |chunks|
      ensures i < |parts| && parts[i].start == chunks[i].0 && parts[i].end == chunks[i].1
    {
      assert |chunks| != 1 ==> IsPart(m, raw, unit, chunks[i], parts[i]);
    }
  }

  lemma OneChunk(raw: seq<byte>, maximum: nat, chunks: seq<(nat, nat)>, s: nat, e: nat)
    requires PipelineUnique.GreedyTile(raw, maximum, true, chunks, s, e) && s < e <= |raw| && e - s <= maximum
    requires IsText(raw, s, e)
    ensures ChunksAreText(raw, chunks)
  {
    hide CharsOf, ChunkFits;
    PipelineUnique.FirstChunk(raw, maximum, true, chunks, s, e);
  }

  // ------------------------------------------------------------------- the witness

  /** The one C1 control character whose code is the bytes C2 80. */
  const C1_BYTES: seq<byte> := [0xC2, 0x80]

  const C1_UNIT: TokenizedUnit := TokenizedUnit(0, 2, Control, OpaqueMode, OpaqueStatus, None, [], None)

  function C1Part(i: nat): TokenizedUnit {
    TokenizedUnit(i, i + 1, Control, OpaqueMode, OpaqueStatus, None, [], None)
  }

  lemma C1IsText()
    ensures IsText(C1_BYTES, 0, 2) && CharsOf(C1_BYTES, 0, 2) == Some([Char(0x80, 0, 2)])
  {
    Utf8.DecodeTwo(C1_BYTES, 0, 0x80);
    assert ScalarAt(C1_BYTES, 0) == Some((0x80, 2));
    CharsOfOne(C1_BYTES, 0);
  }

  /** With a maximum of one, the unit of that character is cut inside the character: it is a valid
      control unit and text, its parts are two, and neither is text. */
  lemma ControlPartsMayBreakScalars(m: Morphology) returns (parts: seq<TokenizedUnit>)
    ensures Ready(C1_BYTES, C1_UNIT) && C1_UNIT.kind == Control && IsText(C1_BYTES, 0, 2)
    ensures PartsOf(m, C1_BYTES, C1_UNIT, 1, parts) && |parts| == 2 && !PartsAreText(C1_BYTES, parts)
  {
    hide CharsOf;
    C1IsText();
    parts := [C1Part(0), C1Part(1)];
    var chunks: seq<(nat, nat)> := [(0, 1), (1, 2)];
    assert ChunkLength(C1_BYTES, true, chunks[0]) == 1;
    assert IsPart(m, C1_BYTES, C1_UNIT, chunks[0], parts[0]) && IsPart(m, C1_BYTES, C1_UNIT, chunks[1], parts[1]);
    assert ChunkedAs(m, C1_BYTES, C1_UNIT, 1, chunks, parts);
    ControlPartsAreTextIff(m, C1_BYTES, C1_UNIT, 1, parts);
    C1IsCutInside();
  }

  lemma C1IsCutInside()
    ensures IsText(C1_BYTES, 0, 2) && !MultiplesStart(C1_BYTES, 1, 0, 2)
  {
    hide CharsOf;
    C1IsText();
    assert !StartsCharacter(C1_BYTES, 0, 2, 1);
    var k: nat := 1;
    assert 0 + k * 1 < 2 && !StartsCharacter(C1_BYTES, 0, 2, 0 + k * 1);
  }
}
