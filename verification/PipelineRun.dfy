/** The run of the pipeline over a whole document. */
module PipelineRun {
  import opened Wrappers
  import opened Bytes
  import opened LexicalClasses
  import opened Text
  import opened LosslessFormat
  import opened Splitting
  import opened Alignment
  import opened Document
  import opened Pipeline
  import Splitters
  import Scanner
  import ScannerLoops
  import CodeSpans
  import Utf8
  import InnerGroups

  // ------------------------------------------------------------------ all sentences

  predicate IsSentenceBoundary(raw: seq<byte>, unit: TokenizedUnit)
    requires unit.start <= unit.end <= |raw|
  {
    && unit.kind == Punctuation
    && var bytes := raw[unit.start..unit.end];
      bytes == ['.' as int] || bytes == ['!' as int] || bytes == ['?' as int]
  }

  /** The units of a document while sentences are analysed: the first i are finished or pending. */
  ghost predicate Analysing(raw: seq<byte>, before: seq<TokenizedUnit>, now: seq<TokenizedUnit>, i: nat, segment: seq<nat>)
  {
    && |now| == |before|
    && (forall k: nat | k < |segment| :: segment[k] < i && segment[k] < |before| && before[segment[k]].mode == Turkish)
    && (forall j: nat, k: nat | j < k < |segment| :: segment[j] != segment[k])
    && (forall k: nat | k < |now| :: Progress(before[k], now[k]))
    && (forall k: nat | k < |now| && (k >= i || k in segment) :: now[k] == before[k])
  }

  lemma AnalysingPending(raw: seq<byte>, before: seq<TokenizedUnit>, now: seq<TokenizedUnit>, i: nat, segment: seq<nat>)
    requires AllFresh(raw, before) && Analysing(raw, before, now, i, segment)
    ensures Pending(raw, now, segment)
  {
    hide FreshText, Progress;
  }

  lemma AnalysingFlushed(raw: seq<byte>, before: seq<TokenizedUnit>, middle: seq<TokenizedUnit>, now: seq<TokenizedUnit>,
                         i: nat, segment: seq<nat>)
    requires Analysing(raw, before, middle, i, segment) && |now| == |middle|
    requires forall k: nat | k < |now| :: if k in segment then Progress(middle[k], now[k]) else now[k] == middle[k]
    ensures Analysing(raw, before, now, i, [])
  {
    hide UnitOk;
  }

  lemma AnalysingSkip(raw: seq<byte>, before: seq<TokenizedUnit>, now: seq<TokenizedUnit>, i: nat, segment: seq<nat>)
    requires Analysing(raw, before, now, i, segment)
    ensures Analysing(raw, before, now, i + 1, segment)
  {
    hide Progress;
  }

  lemma AnalysingPush(raw: seq<byte>, before: seq<TokenizedUnit>, now: seq<TokenizedUnit>, i: nat, segment: seq<nat>)
    requires Analysing(raw, before, now, i, segment) && i < |before| && before[i].mode == Turkish
    ensures Analysing(raw, before, now, i + 1, segment + [i])
  {
    hide Progress;
  }

  lemma AnalysingStarts(raw: seq<byte>, units: seq<TokenizedUnit>)
    requires AllFresh(raw, units)
    ensures Analysing(raw, units, units, 0, [])
  {
    hide UnitOk, IsText;
    forall k: nat | k < |units|
      ensures Progress(units[k], units[k])
    {
      assert FreshText(raw, units[k]);
      FreshIsOk(units[k]);
    }
  }

  /** The sentences of the first units: those that have ended, and the units of the open one. */
  datatype Segments = Segments(ended: seq<seq<nat>>, open: seq<nat>)

  predicate Inside(raw: seq<byte>, units: seq<TokenizedUnit>) {
    forall i: nat | i < |units| :: units[i].start <= units[i].end <= |raw|
  }

  /** A unit that ends a sentence without belonging to it. */
  predicate Divides(unit: TokenizedUnit) {
    unit.mode != Turkish || unit.kind == LineBreak || unit.kind == Control || unit.kind == Opaque
  }

  function SegmentsUpTo(raw: seq<byte>, units: seq<TokenizedUnit>, maximum: nat, n: nat): Segments
    requires n <= |units| && Inside(raw, units)
  {
    if n == 0 then Segments([], [])
    else
      var before, unit := SegmentsUpTo(raw, units, maximum, n - 1), units[n - 1];
      if Divides(unit) then Segments(before.ended + [before.open], [])
      else if unit.kind == Whitespace then before
      else
        var more := before.open + [n - 1];
        if IsSentenceBoundary(raw, unit) || |more| >= maximum then Segments(before.ended + [more], [])
        else Segments(before.ended, more)
  }

  /** A unit stands in one sentence at most. */
  lemma {:induction false} SegmentsApart(raw: seq<byte>, units: seq<TokenizedUnit>, maximum: nat, n: nat)
    requires n <= |units| && Inside(raw, units)
    ensures Apart(SegmentsUpTo(raw, units, maximum, n), n)
  {
    hide IsSentenceBoundary, Divides;
    if n > 0 {
      SegmentsApart(raw, units, maximum, n - 1);
      var before := SegmentsUpTo(raw, units, maximum, n - 1);
      PushApart(before, n - 1);
      EndApart(before, n - 1);
      EndApart(Segments(before.ended, before.open + [n - 1]), n);
    }
  }

  predicate Below(xs: seq<nat>, n: nat) {
    forall x | x in xs :: x < n
  }

  predicate Disjoint(xs: seq<nat>, ys: seq<nat>) {
    forall x | x in xs :: x !in ys
  }

  predicate Apart(s: Segments, n: nat) {
    Below(s.open, n) && forall k: nat | k < |s.ended| :: Below(s.ended[k], n) && Disjoint(s.ended[k], s.open)
  }

  lemma PushApart(s: Segments, n: nat)
    requires Apart(s, n)
    ensures Apart(s, n + 1) && Apart(Segments(s.ended, s.open + [n]), n + 1)
  {
    forall k: nat | k < |s.ended|
      ensures Below(s.ended[k], n + 1) && Disjoint(s.ended[k], s.open + [n])
    {
      assert Below(s.ended[k], n) && Disjoint(s.ended[k], s.open);
    }
  }

  lemma EndApart(s: Segments, n: nat)
    requires Apart(s, n)
    ensures Apart(Segments(s.ended + [s.open], []), n) && Apart(Segments(s.ended + [s.open], []), n + 1)
  {
    hide Disjoint;
    var ended := s.ended + [s.open];
    forall k: nat | k < |ended|
      ensures Below(ended[k], n) && Below(ended[k], n + 1) && Disjoint(ended[k], [])
    {
      NothingInside(ended[k]);
      if k < |s.ended| {
        assert ended[k] == s.ended[k];
      }
    }
  }

  lemma NothingInside(xs: seq<nat>)
    ensures Disjoint(xs, [])
  {
  }

  /** Every unit in one of the sentences carries its chosen candidate, and no other unit changed. */
  ghost predicate SentencesDone(m: Morphology, isNumeric: int -> bool, contextual: bool, raw: seq<byte>,
                                before: seq<TokenizedUnit>, now: seq<TokenizedUnit>, sentences: seq<seq<nat>>)
  {
    && |now| == |before|
    && (forall k: nat | k < |sentences| :: Sentence(m, isNumeric, contextual, raw, before, now, sentences[k]))
    && (forall x: nat | x < |now| && (forall k: nat | k < |sentences| :: x !in sentences[k]) :: now[x] == before[x])
  }

  /** All units are analysed, sentence by sentence. */
  ghost predicate Analysed(m: Morphology, isNumeric: int -> bool, contextual: bool, maximum: nat, raw: seq<byte>,
                           before: seq<TokenizedUnit>, after: seq<TokenizedUnit>)
  {
    && Inside(raw, before)
    && var s := SegmentsUpTo(raw, before, maximum, |before|);
      SentencesDone(m, isNumeric, contextual, raw, before, after, s.ended + [s.open])
  }

  lemma SentenceKept(m: Morphology, isNumeric: int -> bool, contextual: bool, raw: seq<byte>, before: seq<TokenizedUnit>,
                     middle: seq<TokenizedUnit>, now: seq<TokenizedUnit>, sentence: seq<nat>)
    requires Sentence(m, isNumeric, contextual, raw, before, middle, sentence) && |now| == |middle|
    requires forall x | x in sentence :: x < |now| ==> now[x] == middle[x]
    ensures Sentence(m, isNumeric, contextual, raw, before, now, sentence)
  {
    hide Finished, CandidatesOf, FreshText;
    forall j: nat | j < |sentence|
      ensures sentence[j] < |now| && now[sentence[j]] == middle[sentence[j]]
    {
      assert sentence[j] in sentence;
    }
  }

  lemma SentenceRebased(m: Morphology, isNumeric: int -> bool, contextual: bool, raw: seq<byte>, before: seq<TokenizedUnit>,
                        middle: seq<TokenizedUnit>, now: seq<TokenizedUnit>, sentence: seq<nat>)
    requires Sentence(m, isNumeric, contextual, raw, middle, now, sentence) && |before| == |middle|
    requires forall x | x in sentence :: x < |middle| ==> middle[x] == before[x]
    ensures Sentence(m, isNumeric, contextual, raw, before, now, sentence)
  {
    hide Finished, CandidatesOf, FreshText;
    forall j: nat | j < |sentence|
      ensures sentence[j] < |middle| && before[sentence[j]] == middle[sentence[j]]
    {
      assert sentence[j] in sentence;
    }
    assert Pending(raw, before, sentence);
    assert SetsOf(m, raw, before, sentence) == SetsOf(m, raw, middle, sentence);
  }

  lemma SentenceDone(m: Morphology, isNumeric: int -> bool, contextual: bool, raw: seq<byte>, before: seq<TokenizedUnit>,
                     middle: seq<TokenizedUnit>, now: seq<TokenizedUnit>, sentences: seq<seq<nat>>, sentence: seq<nat>)
    requires SentencesDone(m, isNumeric, contextual, raw, before, middle, sentences) && |now| == |middle|
    requires Sentence(m, isNumeric, contextual, raw, middle, now, sentence)
    requires forall x | x in sentence :: x < |middle| ==> middle[x] == before[x]
    requires forall x: nat | x < |now| && x !in sentence :: now[x] == middle[x]
    requires forall k: nat | k < |sentences| :: Disjoint(sentences[k], sentence)
    ensures SentencesDone(m, isNumeric, contextual, raw, before, now, sentences + [sentence])
  {
    hide Sentence;
    var more := sentences + [sentence];
    SentenceRebased(m, isNumeric, contextual, raw, before, middle, now, sentence);
    forall k: nat | k < |more|
      ensures Sentence(m, isNumeric, contextual, raw, before, now, more[k])
    {
      if k < |sentences| {
        SentenceKept(m, isNumeric, contextual, raw, before, middle, now, sentences[k]);
      }
    }
    forall x: nat | x < |now| && (forall k: nat | k < |more| :: x !in more[k])
      ensures now[x] == before[x]
    {
      assert x !in more[|sentences|];
      forall k: nat | k < |sentences|
        ensures x !in sentences[k]
      {
        assert x !in more[k];
      }
    }
  }

  /** Analyses the units sentence by sentence. */
  method ApplyContextualAnalysis(m: Morphology, isNumeric: int -> bool, contextual: bool, maxSentenceTokens: nat,
                                 raw: seq<byte>, units: array<TokenizedUnit>) returns (ok: bool)
    requires m.Lawful() && AllFresh(raw, units[..])
    modifies units
    ensures ok
    ensures Analysed(m, isNumeric, contextual, maxSentenceTokens, raw, old(units[..]), units[..])
    ensures forall i: nat | i < units.Length :: Progress(old(units[i]), units[i])
  {
    hide Progress, FreshText, Analysing, Pending, Morphology.Lawful, IsText, AllFresh, SentencesDone, IsSentenceBoundary;
    ghost var before := units[..];
    FreshInside(raw, before);
    var segment: seq<nat> := [];
    ghost var ended: seq<seq<nat>> := [];
    AnalysingStarts(raw, before);
    NothingDone(m, isNumeric, contextual, raw, before);
    for i := 0 to units.Length
      invariant Analysing(raw, before, units[..], i, segment)
      invariant SegmentsUpTo(raw, before, maxSentenceTokens, i) == Segments(ended, segment)
      invariant SentencesDone(m, isNumeric, contextual, raw, before, units[..], ended)
    {
      Untouched(raw, before, units[..], i, segment);
      SegmentsApart(raw, before, maxSentenceTokens, i);
      SegmentsApart(raw, before, maxSentenceTokens, i + 1);
      var unit := units[i];
      if unit.mode != Turkish || unit.kind == LineBreak || unit.kind == Control || unit.kind == Opaque {
        ok := Flush(m, isNumeric, contextual, raw, units, segment, before, i, ended);
        ended := ended + [segment];
        segment := [];
        AnalysingSkip(raw, before, units[..], i, segment);
        continue;
      }
      if unit.kind == Whitespace {
        AnalysingSkip(raw, before, units[..], i, segment);
        continue;
      }
      AnalysingPush(raw, before, units[..], i, segment);
      segment := segment + [i];
      if IsSentenceBoundary(raw, unit) || |segment| >= maxSentenceTokens {
        ok := Flush(m, isNumeric, contextual, raw, units, segment, before, i + 1, ended);
        ended := ended + [segment];
        segment := [];
      }
    }
    SegmentsApart(raw, before, maxSentenceTokens, units.Length);
    ok := Flush(m, isNumeric, contextual, raw, units, segment, before, units.Length, ended);
    AnalysingDone(raw, before, units[..], units.Length);
  }

  lemma FreshInside(raw: seq<byte>, units: seq<TokenizedUnit>)
    requires AllFresh(raw, units)
    ensures Inside(raw, units)
  {
    hide IsText;
    forall i: nat | i < |units|
      ensures units[i].start <= units[i].end <= |raw|
    {
      assert FreshText(raw, units[i]);
    }
  }

  lemma NothingDone(m: Morphology, isNumeric: int -> bool, contextual: bool, raw: seq<byte>, units: seq<TokenizedUnit>)
    ensures SentencesDone(m, isNumeric, contextual, raw, units, units, [])
  {
  }

  lemma Untouched(raw: seq<byte>, before: seq<TokenizedUnit>, now: seq<TokenizedUnit>, i: nat, segment: seq<nat>)
    requires AllFresh(raw, before) && Analysing(raw, before, now, i, segment) && i < |now|
    ensures now[i] == before[i] && now[i].start <= now[i].end <= |raw|
  {
    hide Progress, IsText;
    assert FreshText(raw, before[i]);
  }

  lemma AnalysingDone(raw: seq<byte>, before: seq<TokenizedUnit>, now: seq<TokenizedUnit>, i: nat)
    requires Analysing(raw, before, now, i, [])
    ensures |now| == |before| && forall k: nat | k < |now| :: Progress(before[k], now[k])
  {
    hide Progress;
  }

  method Flush(m: Morphology, isNumeric: int -> bool, contextual: bool, raw: seq<byte>, units: array<TokenizedUnit>,
               segment: seq<nat>, ghost before: seq<TokenizedUnit>, ghost i: nat, ghost ended: seq<seq<nat>>)
    returns (ok: bool)
    requires m.Lawful() && AllFresh(raw, before) && Analysing(raw, before, units[..], i, segment)
    requires SentencesDone(m, isNumeric, contextual, raw, before, units[..], ended)
    requires forall k: nat | k < |ended| :: Disjoint(ended[k], segment)
    modifies units
    ensures ok && Analysing(raw, before, units[..], i, [])
    ensures SentencesDone(m, isNumeric, contextual, raw, before, units[..], ended + [segment])
  {
    hide Progress, FreshText, Analysing, Pending, Morphology.Lawful, IsText, AllFresh, SentencesDone, Sentence;
    ghost var middle := units[..];
    AnalysingPending(raw, before, middle, i, segment);
    ok := FlushSegment(m, isNumeric, contextual, raw, units, segment);
    AnalysingFlushed(raw, before, middle, units[..], i, segment);
    AnalysingKeeps(raw, before, middle, i, segment);
    SentenceDone(m, isNumeric, contextual, raw, before, middle, units[..], ended, segment);
  }

  lemma AnalysingKeeps(raw: seq<byte>, before: seq<TokenizedUnit>, now: seq<TokenizedUnit>, i: nat, segment: seq<nat>)
    requires Analysing(raw, before, now, i, segment)
    ensures |now| == |before| && forall x | x in segment :: x < |now| ==> now[x] == before[x]
  {
    hide Progress;
  }

  // --------------------------------------------------------------- long units

  /** Chunks tile a stretch. */
  ghost predicate ChunksTile(chunks: seq<(nat, nat)>, s: nat, e: nat) {
    && chunks != [] && chunks[0].0 == s && chunks[|chunks| - 1].1 == e
    && (forall i: nat | i < |chunks| :: s <= chunks[i].0 < chunks[i].1 <= e)
    && (forall i: nat | 0 < i < |chunks| :: chunks[i - 1].1 == chunks[i].0)
  }

  /** A chunk is short enough, in bytes or in characters. */
  ghost predicate ChunkFits(raw: seq<byte>, maximum: nat, byteGeneral: bool, chunk: (nat, nat))
    requires chunk.0 <= chunk.1 <= |raw|
  {
    if byteGeneral then chunk.1 - chunk.0 <= maximum
    else IsText(raw, chunk.0, chunk.1) && |CharsOf(raw, chunk.0, chunk.1).value| <= maximum
  }

  /** The length of a chunk in the unit that counts. */
  ghost function ChunkLength(raw: seq<byte>, byteGeneral: bool, chunk: (nat, nat)): int {
    if byteGeneral then chunk.1 - chunk.0
    else if chunk.0 <= chunk.1 <= |raw| && IsText(raw, chunk.0, chunk.1) then |CharsOf(raw, chunk.0, chunk.1).value| else 0
  }

  /** Every chunk but the last is as long as it may be. */
  ghost predicate Greedy(raw: seq<byte>, maximum: nat, byteGeneral: bool, chunks: seq<(nat, nat)>) {
    forall i: nat | i + 1 < |chunks| :: ChunkLength(raw, byteGeneral, chunks[i]) == maximum
  }

  method ChunkBytes(s: nat, e: nat, maximum: nat) returns (chunks: seq<(nat, nat)>)
    requires s < e && maximum > 0
    ensures ChunksTile(chunks, s, e) && forall i: nat | i < |chunks| :: chunks[i].1 - chunks[i].0 <= maximum
    ensures forall i: nat | i + 1 < |chunks| :: chunks[i].1 - chunks[i].0 == maximum
  {
    chunks := [];
    var start: nat := s;
    while start < e
      invariant s <= start <= e && (chunks == [] <==> start == s)
      invariant chunks != [] ==> ChunksTile(chunks, s, start)
      invariant forall i: nat | i < |chunks| :: chunks[i].1 - chunks[i].0 <= maximum
      invariant start < e ==> forall i: nat | i < |chunks| :: chunks[i].1 - chunks[i].0 == maximum
      invariant forall i: nat | i + 1 < |chunks| :: chunks[i].1 - chunks[i].0 == maximum
      decreases e - start
    {
      var end := if start + maximum < e then start + maximum else e;
      ChunksPush(chunks, s, start, end);
      chunks := chunks + [(start, end)];
      start := end;
    }
  }

  lemma ChunksPush(chunks: seq<(nat, nat)>, s: nat, start: nat, end: nat)
    requires s <= start < end && (chunks == [] ==> start == s) && (chunks != [] ==> ChunksTile(chunks, s, start))
    ensures ChunksTile(chunks + [(start, end)], s, end)
  {
  }

  /** Cuts a stretch into chunks of at most so many bytes or characters. */
  method ChunkSpan(raw: seq<byte>, s: nat, e: nat, maximum: nat, byteGeneral: bool) returns (r: Option<seq<(nat, nat)>>)
    requires s < e <= |raw| && maximum > 0
    ensures r.Some? <==> byteGeneral || IsText(raw, s, e)
    ensures r.Some? ==> ChunksTile(r.value, s, e) && forall i: nat | i < |r.value| :: ChunkFits(raw, maximum, byteGeneral, r.value[i])
    ensures r.Some? ==> Greedy(raw, maximum, byteGeneral, r.value)
  {
    hide CharsOf;
    if byteGeneral {
      if e - s <= maximum {
        return Some([(s, e)]);
      }
      var bytes := ChunkBytes(s, e, maximum);
      return Some(bytes);
    }
    var chars := CharsOf(raw, s, e);
    if chars.None? {
      return None;
    }
    CharsAdjoin(raw, s, e);
    if |chars.value| <= maximum {
      return Some([(s, e)]);
    }
    var chunks: seq<(nat, nat)> := [];
    var chunkStart: nat, count := s, 0;
    ghost var first := 0;
    for index := 0 to |chars.value|
      invariant count == index - first <= maximum && first <= index
      invariant first < |chars.value| && chars.value[first].start == chunkStart
      invariant index > 0 ==> first < index
      invariant chunks == [] ==> chunkStart == s
      invariant chunks != [] ==> ChunksTile(chunks, s, chunkStart)
      invariant forall i: nat | i < |chunks| :: ChunkFits(raw, maximum, false, chunks[i])
      invariant forall i: nat | i < |chunks| :: ChunkLength(raw, false, chunks[i]) == maximum
    {
      if count == maximum {
        CharChunk(raw, s, e, first, index, maximum);
        ChunksPush(chunks, s, chunkStart, chars.value[index].start);
        chunks := chunks + [(chunkStart, chars.value[index].start)];
        chunkStart := chars.value[index].start;
        first := index;
        count := 0;
      }
      count := count + 1;
    }
    CharChunk(raw, s, e, first, |chars.value|, maximum);
    ChunksPush(chunks, s, chunkStart, e);
    chunks := chunks + [(chunkStart, e)];
    r := Some(chunks);
  }

  lemma {:induction false} CharChunk(raw: seq<byte>, s: nat, e: nat, first: nat, index: nat, maximum: nat)
    requires s < e <= |raw| && IsText(raw, s, e) && first < index <= |CharsOf(raw, s, e).value| && index - first <= maximum
    ensures var chars := CharsOf(raw, s, e).value;
      var end := if index < |chars| then chars[index].start else e;
      && s <= chars[first].start < end <= e && ChunkFits(raw, maximum, false, (chars[first].start, end))
      && ChunkLength(raw, false, (chars[first].start, end)) == index - first
  {
    hide CharsOf;
    CharsAdjoin(raw, s, e);
    var chars := CharsOf(raw, s, e).value;
    SliceChars(raw, s, e, first, index);
    Splitters.NextStart(chars, s, e, index - 1);
  }

  /** A unit ready for grouping. */
  ghost predicate Ready(raw: seq<byte>, unit: TokenizedUnit) {
    UnitOk(unit) && unit.groupId.None? && unit.end <= |raw| && (unit.mode != OpaqueMode ==> IsText(raw, unit.start, unit.end))
  }

  ghost predicate AllReady(raw: seq<byte>, units: seq<TokenizedUnit>) {
    forall i: nat | i < |units| :: Ready(raw, units[i])
  }

  predicate MaySplit(unit: TokenizedUnit) {
    unit.status.Unknown? || unit.status.CodeStatus? || unit.mode == OpaqueMode
  }

  /** A part of a long unit on its own chunk; a part of an unknown word is an unknown word. */
  ghost predicate IsPart(m: Morphology, raw: seq<byte>, unit: TokenizedUnit, chunk: (nat, nat), part: TokenizedUnit) {
    && part == TokenizedUnit(chunk.0, chunk.1, unit.kind, unit.mode, unit.status, None, [], part.analysis)
    && if unit.status.Unknown?
       then chunk.0 <= chunk.1 <= |raw| && IsText(raw, chunk.0, chunk.1)
            && part.analysis == Some(UnknownChunk(m, raw, chunk.0, chunk.1))
       else part.analysis == None
  }

  /** What a unit is replaced with: its parts on greedy chunks, if it may be split and needs to be. */
  ghost predicate PartsOf(m: Morphology, raw: seq<byte>, unit: TokenizedUnit, maximum: nat, parts: seq<TokenizedUnit>) {
    if !MaySplit(unit) then parts == [unit]
    else exists chunks: seq<(nat, nat)> :: ChunkedAs(m, raw, unit, maximum, chunks, parts)
  }

  ghost predicate ChunkedAs(m: Morphology, raw: seq<byte>, unit: TokenizedUnit, maximum: nat, chunks: seq<(nat, nat)>,
                            parts: seq<TokenizedUnit>)
  {
    && ChunksTile(chunks, unit.start, unit.end) && Greedy(raw, maximum, unit.mode == OpaqueMode, chunks)
    && unit.end <= |raw| && (forall i: nat | i < |chunks| :: ChunkFits(raw, maximum, unit.mode == OpaqueMode, chunks[i]))
    && if |chunks| == 1 then parts == [unit]
       else |parts| == |chunks| && forall i: nat | i < |parts| :: IsPart(m, raw, unit, chunks[i], parts[i])
  }

  /** The parts a long unit is replaced with. */
  method SplitLongUnit(m: Morphology, raw: seq<byte>, unit: TokenizedUnit, maximum: nat) returns (r: Option<seq<TokenizedUnit>>)
    requires Ready(raw, unit) && maximum > 0 && unit.start < unit.end
    ensures r.Some? && AllReady(raw, r.value) && UnitsAdjoin(r.value, unit.start, unit.end)
    ensures PartsOf(m, raw, unit, maximum, r.value)
  {
    hide CharsOf, UnitOk, ChunkFits, UnknownChunk, Greedy;
    if !(unit.status.Unknown? || unit.status.CodeStatus? || unit.mode == OpaqueMode) {
      return Some([unit]);
    }
    TextUnlessOpaque(raw, unit);
    var spans := ChunkSpan(raw, unit.start, unit.end, maximum, unit.mode == OpaqueMode);
    if spans.None? {
      return None;
    }
    if |spans.value| == 1 {
      assert ChunkedAs(m, raw, unit, maximum, spans.value, [unit]);
      return Some([unit]);
    }
    var output: seq<TokenizedUnit> := [];
    for i := 0 to |spans.value|
      invariant |output| == i && AllReady(raw, output)
      invariant forall k: nat | k < i :: output[k].start == spans.value[k].0 && output[k].end == spans.value[k].1
      invariant forall k: nat | k < i :: IsPart(m, raw, unit, spans.value[k], output[k])
    {
      var (start, end) := spans.value[i];
      ChunkText(raw, unit, spans.value, i, maximum);
      var analysis := None;
      if unit.status.Unknown? {
        analysis := Some(UnknownChunk(m, raw, start, end));
      }
      var chunk := TokenizedUnit(start, end, unit.kind, unit.mode, unit.status, None, [], analysis);
      ChunkIsReady(m, raw, unit, chunk);
      output := output + [chunk];
    }
    ChunksAdjoin(spans.value, output, unit.start, unit.end);
    assert ChunkedAs(m, raw, unit, maximum, spans.value, output);
    r := Some(output);
  }

  lemma TextUnlessOpaque(raw: seq<byte>, unit: TokenizedUnit)
    requires Ready(raw, unit)
    ensures unit.start < unit.end <= |raw|
    ensures unit.mode != OpaqueMode ==> IsText(raw, unit.start, unit.end)
    ensures unit.status.Unknown? ==> unit.mode == Turkish
    ensures (unit.kind == Opaque || unit.kind == Control) <==> unit.mode == OpaqueMode
  {
    hide CharsOf;
  }

  lemma ChunkText(raw: seq<byte>, unit: TokenizedUnit, chunks: seq<(nat, nat)>, i: nat, maximum: nat)
    requires unit.start < unit.end <= |raw| && ChunksTile(chunks, unit.start, unit.end) && i < |chunks|
    requires ChunkFits(raw, maximum, unit.mode == OpaqueMode, chunks[i])
    ensures unit.start <= chunks[i].0 < chunks[i].1 <= unit.end
    ensures unit.mode != OpaqueMode ==> IsText(raw, chunks[i].0, chunks[i].1)
  {
    hide CharsOf;
  }

  /** The parts of a long unit are valid units. */
  lemma ChunkIsReady(m: Morphology, raw: seq<byte>, unit: TokenizedUnit, chunk: TokenizedUnit)
    requires Ready(raw, unit) && unit.start <= chunk.start < chunk.end <= unit.end
    requires unit.status.Unknown? || unit.status.CodeStatus? || unit.mode == OpaqueMode
    requires unit.mode != OpaqueMode ==> IsText(raw, chunk.start, chunk.end)
    requires chunk.kind == unit.kind && chunk.mode == unit.mode && chunk.status == unit.status
    requires chunk.groupId.None? && chunk.cuts == []
    requires chunk.analysis
          == if unit.status.Unknown? && IsText(raw, chunk.start, chunk.end)
             then Some(UnknownChunk(m, raw, chunk.start, chunk.end)) else None
    ensures Ready(raw, chunk)
  {
    hide CharsOf, MorphemesOk, UnknownChunk;
    if unit.status.Unknown? {
      UnknownChunkIsOk(m, raw, chunk);
    }
  }

  lemma ChunksAdjoin(chunks: seq<(nat, nat)>, units: seq<TokenizedUnit>, s: nat, e: nat)
    requires ChunksTile(chunks, s, e) && |units| == |chunks|
    requires forall k: nat | k < |units| :: units[k].start == chunks[k].0 && units[k].end == chunks[k].1
    ensures UnitsAdjoin(units, s, e)
  {
    forall i: nat | 0 < i < |units|
      ensures units[i - 1].end == units[i].start
    {
      assert chunks[i - 1].1 == chunks[i].0;
    }
  }

  lemma {:induction false} AdjoinCount(units: seq<TokenizedUnit>, start: nat, end: nat)
    requires UnitsAdjoin(units, start, end) && start <= end
    ensures |units| <= end - start
  {
    if units != [] {
      var body, last := units[..|units| - 1], units[|units| - 1];
      if body != [] {
        assert units[|units| - 1 - 1].end == units[|units| - 1].start;
      }
      BodyAdjoins(units, start, end);
      AdjoinCount(body, start, last.start);
    }
  }

  lemma {:induction false} AdjoinOrder(units: seq<TokenizedUnit>, start: nat, end: nat, i: nat, j: nat)
    requires UnitsAdjoin(units, start, end) && i < j < |units|
    ensures units[i].end <= units[j].start
    decreases j
  {
    assert units[j - 1].end == units[j].start;
    if i < j - 1 {
      AdjoinOrder(units, start, end, i, j - 1);
    }
  }

  lemma BodyAdjoins(units: seq<TokenizedUnit>, start: nat, end: nat)
    requires UnitsAdjoin(units, start, end) && units != []
    ensures UnitsAdjoin(units[..|units| - 1], start, units[|units| - 1].start)
  {
    var body, last := units[..|units| - 1], |units| - 1;
    if body != [] {
      assert units[last - 1].end == units[last].start;
    }
    forall i: nat | i < |body|
      ensures body[i].end <= units[last].start
    {
      AdjoinOrder(units, start, end, i, last);
    }
  }

  lemma AdjoinConcat(first: seq<TokenizedUnit>, second: seq<TokenizedUnit>, start: nat, middle: nat, end: nat)
    requires UnitsAdjoin(first, start, middle) && UnitsAdjoin(second, middle, end) && start <= middle <= end
    ensures UnitsAdjoin(first + second, start, end)
  {
    var all := first + second;
    forall i: nat | 0 < i < |all|
      ensures all[i - 1].end == all[i].start
    {
      if i > |first| {
        assert second[i - |first| - 1].end == second[i - |first|].start;
      }
    }
  }

  function Flatten(parts: seq<seq<TokenizedUnit>>): seq<TokenizedUnit> {
    if parts == [] then [] else Flatten(parts[..|parts| - 1]) + parts[|parts| - 1]
  }

  lemma {:induction false} FlattenPush(parts: seq<seq<TokenizedUnit>>, last: seq<TokenizedUnit>)
    ensures Flatten(parts + [last]) == Flatten(parts) + last
  {
    assert (parts + [last])[..|parts|] == parts;
  }

  /** Every unit is replaced with its parts, in order. */
  ghost predicate LongSplit(m: Morphology, raw: seq<byte>, maximum: nat, units: seq<TokenizedUnit>,
                            parts: seq<seq<TokenizedUnit>>, output: seq<TokenizedUnit>)
  {
    && |parts| == |units| && output == Flatten(parts)
    && forall i: nat | i < |units| :: PartsOf(m, raw, units[i], maximum, parts[i])
  }

  /** Replaces long units by their parts. */
  method SplitLongFallbackUnits(m: Morphology, raw: seq<byte>, units: seq<TokenizedUnit>, maximum: nat)
    returns (r: Option<seq<TokenizedUnit>>, ghost parts: seq<seq<TokenizedUnit>>)
    requires AllReady(raw, units) && UnitsAdjoin(units, 0, |raw|) && maximum > 0
    ensures r.Some? && AllReady(raw, r.value) && UnitsAdjoin(r.value, 0, |raw|)
    ensures LongSplit(m, raw, maximum, units, parts, r.value)
  {
    hide Ready, PartsOf, Flatten;
    parts := [];
    NothingFlat(parts);
    var output: seq<TokenizedUnit> := [];
    var covered: nat := 0;
    for i := 0 to |units|
      invariant AllReady(raw, output) && UnitsAdjoin(output, 0, covered)
      invariant covered == if i == 0 then 0 else units[i - 1].end
      invariant |parts| == i && output == Flatten(parts)
      invariant forall k: nat | k < i :: PartsOf(m, raw, units[k], maximum, parts[k])
    {
      if i > 0 {
        assert units[i - 1].end == units[i].start;
      }
      var split := SplitLongUnit(m, raw, units[i], maximum);
      if split.None? {
        return None, parts;
      }
      AdjoinConcat(output, split.value, 0, covered, units[i].end);
      FlattenPush(parts, split.value);
      output := output + split.value;
      parts := parts + [split.value];
      covered := units[i].end;
    }
    r := Some(output);
  }

  lemma {:induction false} NothingFlat(parts: seq<seq<TokenizedUnit>>)
    requires parts == []
    ensures Flatten(parts) == []
  {
  }

  // ------------------------------------------------------------------ the document

  datatype Config = Config(requested: Requested, maxSentenceTokens: nat, maxFallbackChars: nat, contextual: bool,
                           detectUnmarkedCode: bool)

  /** The heuristics for code and the tables for identifiers, left open. */
  datatype CodeRules = CodeRules(
    wholeFile: seq<byte> -> bool, select: seq<CodeSpans.Span> -> seq<bool>, looksLike: seq<byte> -> bool, cases: Cases,
    unmarked: seq<byte> -> bool, artifact: seq<byte> -> bool, isClitic: seq<int> -> bool)
  {
    ghost predicate Lawful() {
      forall lines: seq<CodeSpans.Span> :: |select(lines)| == |lines|
    }
  }

  lemma {:induction false} ScannedIsLexical(u: Properties, raw: seq<byte>)
    ensures LexicalOk(raw, Scanner.Units(u, raw, 0))
  {
    hide Scanner.Units, IsText, Utf8.WellFormed;
    var units := Scanner.Units(u, raw, 0);
    Scanner.UnitsTile(u, raw, 0);
    Scanner.UnitsFit(u, raw, 0);
    Scanner.TilesAdjoin(units, 0, |raw|);
    forall i: nat | i < |units|
      ensures units[i].kind != Opaque ==> units[i].end <= |raw| && IsText(raw, units[i].start, units[i].end)
    {
      assert units[i] in units;
      assert Scanner.Fits(raw, units[i].start, units[i].end, units[i].kind);
      TextIsWellFormed(raw, units[i].start, units[i].end);
    }
  }

  /** The units of the split, before analysis. */
  function FreshUnits(pieces: seq<Piece>): (units: seq<TokenizedUnit>)
    ensures |units| == |pieces|
  {
    seq(|pieces|, i requires 0 <= i < |pieces| =>
      TokenizedUnit(pieces[i].start, pieces[i].end, pieces[i].kind, pieces[i].mode, InitialStatus(pieces[i].mode), None, [], None))
  }

  lemma FreshUnitsAre(raw: seq<byte>, q: Cases, lexical: seq<Scanner.Unit>, codeSpans: seq<CodeSpans.Span>,
                      requested: Requested, pieces: seq<Piece>)
    requires LexicalOk(raw, lexical) && CodeSpans.AllExact(raw, codeSpans)
    requires SplitSpec(raw, q, lexical, codeSpans, requested, pieces)
    ensures AllFresh(raw, FreshUnits(pieces)) && UnitsAdjoin(FreshUnits(pieces), 0, |raw|)
  {
    hide LexicalOk, CodeSpans.AllExact, IsText, Edge, Boundary;
    var units := FreshUnits(pieces);
    forall i: nat | i < |units|
      ensures FreshText(raw, units[i])
    {
      assert Placed(lexical, codeSpans, requested, pieces[i]);
      if pieces[i].kind != Opaque {
        PiecesAreText(raw, q, lexical, codeSpans, requested, pieces, i);
      }
    }
    forall i: nat | 0 < i < |units|
      ensures units[i - 1].end == units[i].start
    {
      assert pieces[i - 1].end == pieces[i].start;
    }
  }

  function HintsOf(rules: CodeRules, raw: seq<byte>): CodeSpans.Hints {
    CodeSpans.Hints('`' as int in raw, rules.unmarked(raw), rules.artifact(raw))
  }

  /** The code spans of a document in its mode: none, the delimited ones, or the automatic ones. */
  ghost predicate SpansFor(c: Config, rules: CodeRules, raw: seq<byte>, spans: seq<CodeSpans.Span>) {
    if !c.requested.Auto? then spans == []
    else if !c.detectUnmarkedCode then CodeSpans.ExplicitSpans(raw, spans)
    else
      exists explicit: seq<CodeSpans.Span>, inferred: seq<CodeSpans.Span>, artifacts: seq<CodeSpans.Span> ::
        CodeSpans.AutoSpans(raw, HintsOf(rules, raw), rules.wholeFile(raw), rules.select, rules.looksLike, spans,
                            explicit, inferred, artifacts)
  }

  /** The code spans of a document in its mode. */
  method CodeSpansOf(c: Config, rules: CodeRules, raw: seq<byte>, hasBacktick: bool) returns (spans: seq<CodeSpans.Span>)
    requires rules.Lawful() && hasBacktick == ('`' as int in raw)
    ensures CodeSpans.AllExact(raw, spans)
    ensures SpansFor(c, rules, raw, spans)
  {
    hide CodeSpans.Exact, CodeSpans.ExplicitSpans, CodeSpans.AutoSpans;
    if c.requested.Auto? && c.detectUnmarkedCode {
      var hints := HintsOf(rules, raw);
      ghost var explicit: seq<CodeSpans.Span>, inferred: seq<CodeSpans.Span>, artifacts: seq<CodeSpans.Span>;
      spans, explicit, inferred, artifacts := CodeSpans.AutoCodeSpans(raw, hints, rules.wholeFile(raw), rules.select, rules.looksLike);
      assert CodeSpans.AutoSpans(raw, hints, rules.wholeFile(raw), rules.select, rules.looksLike, spans, explicit, inferred, artifacts);
    } else if c.requested.Auto? {
      spans := CodeSpans.ExplicitCodeSpans(raw);
    } else {
      spans := [];
    }
  }

  /** What grouping sees of a unit. */
  function View(rules: CodeRules, raw: seq<byte>, unit: TokenizedUnit): InnerGroups.UnitView
    requires unit.start <= unit.end <= |raw|
  {
    InnerGroups.UnitView(
      unit.mode == Turkish, unit.kind == Whitespace, unit.kind == LineBreak,
      IsText(raw, unit.start, unit.end) && rules.isClitic(Values(CharsOf(raw, unit.start, unit.end).value)))
  }

  lemma {:induction false} OpenedBound(views: seq<InnerGroups.UnitView>, n: nat)
    requires n <= |views|
    ensures InnerGroups.Opened(views, n) <= n
  {
    if n > 0 {
      OpenedBound(views, n - 1);
    }
  }

  function GroupIds(units: seq<TokenizedUnit>): seq<Option<nat>> {
    seq(|units|, i requires 0 <= i < |units| => units[i].groupId)
  }

  /** Every unit in view of the grouping. */
  function Views(rules: CodeRules, raw: seq<byte>, units: seq<TokenizedUnit>): (views: seq<InnerGroups.UnitView>)
    requires Inside(raw, units)
    ensures |views| == |units|
  {
    seq(|units|, i requires 0 <= i < |units| => View(rules, raw, units[i]))
  }

  /** Each unit has the group that is assigned to it, and is otherwise as before. */
  ghost predicate Grouped(rules: CodeRules, raw: seq<byte>, units: seq<TokenizedUnit>, grouped: seq<TokenizedUnit>) {
    && Inside(raw, units) && |grouped| == |units|
    && (forall i: nat | i < |units| :: grouped[i] == units[i].(groupId := grouped[i].groupId))
    && InnerGroups.Assigned(Views(rules, raw, units), |units|, GroupIds(grouped))
  }

  /** Writes the groups into the units; the numbers are ones that the sidecar can encode. */
  method Group(rules: CodeRules, raw: seq<byte>, units: seq<TokenizedUnit>) returns (r: Option<seq<TokenizedUnit>>)
    requires AllReady(raw, units) && UnitsAdjoin(units, 0, |raw|)
    ensures |raw| <= U32_MAX ==> r.Some?
    ensures r.Some? ==> DocumentOk(r.value, |raw|) && InnerGroups.IdsAfter(GroupIds(r.value)).Some?
    ensures r.Some? ==> Grouped(rules, raw, units, r.value)
  {
    hide UnitOk, IsText, CharsOf, InnerGroups.Assigned, Grouped, DocumentOk;
    var views := Views(rules, raw, units);
    var groups := new Option<nat>[|units|](_ => None);
    var ok := InnerGroups.AssignInnerGroups(views, groups);
    AdjoinCount(units, 0, |raw|);
    OpenedBound(views, |views|);
    if !ok {
      return None;
    }
    var ids := groups[..];
    var grouped := seq(|units|, i requires 0 <= i < |units| && |ids| == |units| => units[i].(groupId := ids[i]));
    WithIds(rules, raw, units, grouped, ids);
    r := Some(grouped);
  }

  lemma {:induction false} WithIds(
    rules: CodeRules, raw: seq<byte>, units: seq<TokenizedUnit>, grouped: seq<TokenizedUnit>, ids: seq<Option<nat>>)
    requires AllReady(raw, units) && Inside(raw, units) && UnitsAdjoin(units, 0, |raw|)
    requires |grouped| == |units| == |ids|
    requires forall i: nat | i < |units| :: grouped[i] == units[i].(groupId := ids[i])
    requires InnerGroups.Assigned(Views(rules, raw, units), |units|, ids)
    ensures GroupIds(grouped) == ids && DocumentOk(grouped, |raw|) && Grouped(rules, raw, units, grouped)
  {
    hide UnitOk, Ready, IsText, CharsOf, InnerGroups.Assigned, Views, UnitsAdjoin;
    GroupKeepsUnits(raw, units, grouped);
    GroupKeepsPlaces(units, grouped, |raw|);
    assert GroupIds(grouped) == ids;
  }

  lemma {:induction false} GroupKeepsUnits(raw: seq<byte>, units: seq<TokenizedUnit>, grouped: seq<TokenizedUnit>)
    requires AllReady(raw, units) && |grouped| == |units|
    requires forall i: nat | i < |units| :: grouped[i] == units[i].(groupId := grouped[i].groupId)
    ensures forall i: nat | i < |grouped| :: UnitOk(grouped[i])
  {
    hide UnitOk, IsText, CharsOf;
    forall i: nat | i < |grouped|
      ensures UnitOk(grouped[i])
    {
      assert Ready(raw, units[i]);
      GroupKeepsOk(units[i], grouped[i].groupId);
    }
  }

  lemma GroupKeepsOk(unit: TokenizedUnit, id: Option<nat>)
    requires UnitOk(unit)
    ensures UnitOk(unit.(groupId := id))
  {
    hide CutsValid, MorphemesOk;
  }

  lemma GroupKeepsPlaces(units: seq<TokenizedUnit>, grouped: seq<TokenizedUnit>, end: nat)
    requires UnitsAdjoin(units, 0, end) && |grouped| == |units|
    requires forall i: nat | i < |units| :: grouped[i].start == units[i].start && grouped[i].end == units[i].end
    ensures UnitsAdjoin(grouped, 0, end)
  {
    forall i: nat | 0 < i < |grouped|
      ensures grouped[i - 1].end == grouped[i].start
    {
      assert units[i - 1].end == units[i].start;
    }
  }

  lemma AnalysedIsReady(raw: seq<byte>, before: seq<TokenizedUnit>, after: seq<TokenizedUnit>)
    requires AllFresh(raw, before) && UnitsAdjoin(before, 0, |raw|) && |after| == |before|
    requires forall i: nat | i < |after| :: Progress(before[i], after[i])
    ensures AllReady(raw, after) && UnitsAdjoin(after, 0, |raw|)
  {
    hide UnitOk, IsText;
    forall i: nat | i < |after|
      ensures Ready(raw, after[i]) && after[i].start == before[i].start && after[i].end == before[i].end
    {
      assert Progress(before[i], after[i]) && FreshText(raw, before[i]);
    }
    GroupKeepsPlaces(before, after, |raw|);
  }

  /** What the stages of the pipeline hand on. */
  datatype Stages = Stages(codeSpans: seq<CodeSpans.Span>, pieces: seq<Piece>, analysed: seq<TokenizedUnit>,
                           parts: seq<seq<TokenizedUnit>>, split: seq<TokenizedUnit>)

  /** The result comes from the bytes by exactly the stages of the pipeline. */
  ghost predicate Produced(c: Config, m: Morphology, u: Properties, rules: CodeRules, raw: seq<byte>, s: Stages,
                           result: seq<TokenizedUnit>)
  {
    && SpansFor(c, rules, raw, s.codeSpans) && LexicalOk(raw, Scanner.Units(u, raw, 0))
    && SplitSpec(raw, rules.cases, Scanner.Units(u, raw, 0), s.codeSpans, c.requested, s.pieces)
    && Analysed(m, u.isNumeric, c.contextual, c.maxSentenceTokens, raw, FreshUnits(s.pieces), s.analysed)
    && LongSplit(m, raw, c.maxFallbackChars, s.analysed, s.parts, s.split)
    && Grouped(rules, raw, s.split, result)
  }

  /** Tokenizes a document. Whatever its bytes, the result passes the validation that every
      document goes through; only a document with more groups than 32 bits can number fails. */
  method Tokenize(c: Config, m: Morphology, u: Properties, rules: CodeRules, raw: seq<byte>)
    returns (r: Option<seq<TokenizedUnit>>, ghost stages: Stages)
    requires m.Lawful() && rules.Lawful() && c.maxFallbackChars > 0
    ensures r.Some? ==> Produced(c, m, u, rules, raw, stages, r.value)
    ensures r.Some? ==> DocumentOk(r.value, |raw|) && InnerGroups.IdsAfter(GroupIds(r.value)).Some?
    ensures |raw| <= U32_MAX ==> r.Some?
  {
    hide LexicalOk, SplitSpec, AllFresh, AllReady, UnitsAdjoin, Progress, DocumentOk, Scanner.Units, CodeSpans.AllExact,
         InnerGroups.IdsAfter, GroupIds, Morphology.Lawful, CodeRules.Lawful, Analysed, LongSplit, Grouped, SpansFor;
    stages := Stages([], [], [], [], []);
    var scanned := ScannerLoops.Scan(u, raw);
    if scanned.None? {
      return None, stages;
    }
    var (lexical, hasBacktick) := scanned.value;
    ScannedIsLexical(u, raw);
    var codeSpans := CodeSpansOf(c, rules, raw, hasBacktick);
    var pieces := Splitters.SplitUnits(raw, rules.cases, lexical, codeSpans, c.requested);
    if pieces.None? {
      return None, stages;
    }
    FreshUnitsAre(raw, rules.cases, lexical, codeSpans, c.requested, pieces.value);
    var fresh_ := FreshUnits(pieces.value);
    var units := new TokenizedUnit[|fresh_|](i requires 0 <= i < |fresh_| => fresh_[i]);
    assert units[..] == fresh_;
    var analysed := ApplyContextualAnalysis(m, u.isNumeric, c.contextual, c.maxSentenceTokens, raw, units);
    if !analysed {
      return None, stages;
    }
    AnalysedIsReady(raw, fresh_, units[..]);
    var split, parts := SplitLongFallbackUnits(m, raw, units[..], c.maxFallbackChars);
    if split.None? {
      return None, stages;
    }
    stages := Stages(codeSpans, pieces.value, units[..], parts, split.value);
    var grouped := Group(rules, raw, split.value);
    if grouped.None? {
      return None, stages;
    }
    var valid := Validate(grouped.value, |raw|);
    r := if valid then grouped else None;
  }
}
