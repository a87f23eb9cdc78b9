/** The work around the batch protocol: cutting a batch into chunks, the analysis cache of a
    worker, and joining the chunks of flat training streams. */
module BatchChunks {
  import opened Wrappers
  import opened Bytes
  import opened BatchProtocol
  import opened Sorting

  const MIN_BATCH_CHUNK_BYTES: nat := 0x10_0000
  const BATCH_CHUNKS_PER_WORKER: nat := 16

  function Max(a: nat, b: nat): nat {
    if a < b then b else a
  }

  function DivCeil(a: nat, b: nat): nat
    requires b > 0
  {
    (a + b - 1) / b
  }

  function TotalBytes(inputs: seq<seq<byte>>): nat {
    if inputs == [] then 0 else TotalBytes(inputs[..|inputs| - 1]) + |inputs[|inputs| - 1]|
  }

  /** The chunks finished so far tile a prefix. */
  ghost predicate TilesPrefix(ranges: seq<Chunk>, start: nat) {
    if ranges == [] then start == 0 else Tiles(ranges, start)
  }

  lemma TilesPush(ranges: seq<Chunk>, start: nat, end: nat)
    requires TilesPrefix(ranges, start) && start <= end
    ensures Tiles(ranges + [Chunk(start, end)], end)
  {
    var more := ranges + [Chunk(start, end)];
    forall i: nat | 0 < i < |more|
      ensures more[i - 1].end == more[i].start
    {
      if i < |ranges| {
        assert ranges[i - 1].end == ranges[i].start;
      }
    }
  }

  /** A chunk before the last one reached the target size, and did so with its last input. */
  ghost predicate Cut(inputs: seq<seq<byte>>, target: nat, c: Chunk)
    requires c.start <= c.end <= |inputs|
  {
    && c.start < c.end && TotalBytes(inputs[c.start..c.end]) >= target
    && (c.start < c.end - 1 ==> TotalBytes(inputs[c.start..c.end - 1]) < target)
  }

  /** Cuts a batch greedily into chunks of at least the target size. */
  method BuildBatchRanges(inputs: seq<seq<byte>>, threads: nat) returns (ranges: seq<Chunk>)
    requires inputs != []
    ensures Tiles(ranges, |inputs|)
    ensures forall c | c in ranges :: c.start < c.end <= |inputs|
    ensures var wanted := if threads == 0 then 1 else threads * 16;
      var share := (TotalBytes(inputs) + wanted - 1) / wanted;
      var target := if share < 1_048_576 then 1_048_576 else share;
      forall c | c in ranges[..|ranges| - 1] :: Cut(inputs, target, c)
  {
    hide Tiles, TilesPrefix, Cut, TotalBytes;
    NoBytes(inputs);
    var totalBytes := 0;
    for i := 0 to |inputs|
      invariant totalBytes == TotalBytes(inputs[..i])
    {
      MoreBytes(inputs, 0, i);
      assert inputs[0..i + 1] == inputs[..i + 1] && inputs[0..i] == inputs[..i];
      totalBytes := totalBytes + |inputs[i]|;
    }
    assert inputs[..|inputs|] == inputs;
    var desired := Max(threads * BATCH_CHUNKS_PER_WORKER, 1);
    var target := Max(DivCeil(totalBytes, desired), MIN_BATCH_CHUNK_BYTES);
    ranges := [];
    var start := 0;
    var bytes := 0;
    NoTiles();
    for i := 0 to |inputs|
      invariant start <= i && (i == |inputs| ==> start < i)
      invariant TilesPrefix(ranges, start)
      invariant forall c | c in ranges :: c.start < c.end <= |inputs| && Cut(inputs, target, c)
      invariant bytes == TotalBytes(inputs[start..i])
      invariant start < i ==> bytes < target || i == |inputs|
    {
      MoreBytes(inputs, start, i);
      bytes := bytes + |inputs[i]|;
      var end := i + 1;
      if bytes >= target && end < |inputs| {
        IsCut(inputs, target, start, end);
        TilesPush(ranges, start, end);
        TilesNonEmpty(ranges + [Chunk(start, end)], end);
        ranges := ranges + [Chunk(start, end)];
        start := end;
        bytes := 0;
      }
    }
    TilesPush(ranges, start, |inputs|);
    ghost var before := ranges;
    ranges := ranges + [Chunk(start, |inputs|)];
    assert ranges[..|ranges| - 1] == before;
  }

  lemma NoBytes(inputs: seq<seq<byte>>)
    ensures forall i: nat | i <= |inputs| :: TotalBytes(inputs[i..i]) == 0
    ensures TotalBytes(inputs[..0]) == 0
  {
  }

  lemma MoreBytes(inputs: seq<seq<byte>>, start: nat, i: nat)
    requires start <= i < |inputs|
    ensures TotalBytes(inputs[start..i + 1]) == TotalBytes(inputs[start..i]) + |inputs[i]|
  {
    assert inputs[start..i + 1][..i - start] == inputs[start..i];
  }

  lemma IsCut(inputs: seq<seq<byte>>, target: nat, start: nat, end: nat)
    requires start < end <= |inputs| && TotalBytes(inputs[start..end]) >= target
    requires start < end - 1 ==> TotalBytes(inputs[start..end - 1]) < target
    ensures Cut(inputs, target, Chunk(start, end))
  {
    hide TotalBytes;
  }

  lemma NoTiles()
    ensures TilesPrefix([], 0)
  {
  }

  lemma TilesNonEmpty(ranges: seq<Chunk>, end: nat)
    requires Tiles(ranges, end)
    ensures TilesPrefix(ranges, end)
  {
  }

  // --------------------------------------------------------------- the analysis cache

  type Analyses(==, !new)

  /** A worker's cache of analysed surfaces. It never holds more than its capacity. */
  class AnalysisCache {
    ghost const analyze: string -> Result<Analyses, Failure>
    const capacity: nat
    var entries: map<string, Analyses>

    ghost predicate Valid()
      reads this
    {
      |entries| <= capacity && forall token | token in entries :: analyze(token) == Success(entries[token])
    }

    constructor (capacity: nat, ghost analyze: string -> Result<Analyses, Failure>)
      ensures Valid() && this.analyze == analyze && this.capacity == capacity
    {
      this.capacity := capacity;
      this.analyze := analyze;
      entries := map[];
    }

    /** The analyses of a surface, whatever the cache holds. */
    method Analyze(morphology: string -> Result<Analyses, Failure>, token: string)
      returns (r: Result<Analyses, Failure>)
      requires Valid() && morphology == analyze
      modifies this
      ensures Valid() && r == analyze(token)
      ensures entries == if token in old(entries) || r.Failure? || |old(entries)| == capacity then old(entries)
                         else old(entries)[token := r.value]
    {
      if token in entries {
        return Success(entries[token]);
      }
      r := morphology(token);
      if r.Success? && |entries| < capacity {
        entries := entries[token := r.value];
      }
    }
  }

  /** Tokenization of one document around the analysis of its surfaces: the surfaces of each
      segment, what is decided about a segment from the analyses so far, and the document. */
  datatype Pipeline = Pipeline(
    segments: seq<byte> -> Result<seq<seq<string>>, Failure>,
    decide: (seq<byte>, seq<seq<Analyses>>) -> Option<Failure>,
    finish: (seq<byte>, seq<seq<Analyses>>) -> Result<Document, Failure>)

  function AnalyzeAll(analyze: string -> Result<Analyses, Failure>, tokens: seq<string>)
    : Result<seq<Analyses>, Failure>
  {
    if tokens == [] then Success([])
    else
      var body := AnalyzeAll(analyze, tokens[..|tokens| - 1]);
      if body.Failure? then body
      else
        var last := analyze(tokens[|tokens| - 1]);
        if last.Failure? then Result.Failure(last.error) else Success(body.value + [last.value])
  }

  function AnalyzeSegments(p: Pipeline, analyze: string -> Result<Analyses, Failure>, raw: seq<byte>,
                           segments: seq<seq<string>>): Result<seq<seq<Analyses>>, Failure>
  {
    if segments == [] then Success([])
    else
      var body := AnalyzeSegments(p, analyze, raw, segments[..|segments| - 1]);
      if body.Failure? then body
      else
        var last := AnalyzeAll(analyze, segments[|segments| - 1]);
        if last.Failure? then Result.Failure(last.error)
        else
          var sets := body.value + [last.value];
          var refused := p.decide(raw, sets);
          if refused.Some? then Result.Failure(refused.value) else Success(sets)
  }

  /** One document without any cache. */
  function Tokenize(p: Pipeline, analyze: string -> Result<Analyses, Failure>, raw: seq<byte>): Result<Document, Failure> {
    var segments := p.segments(raw);
    if segments.Failure? then Result.Failure(segments.error)
    else
      var sets := AnalyzeSegments(p, analyze, raw, segments.value);
      if sets.Failure? then Result.Failure(sets.error) else p.finish(raw, sets.value)
  }

  function CachelessTokenizer(p: Pipeline, analyze: string -> Result<Analyses, Failure>): Tokenizer {
    (raw: seq<byte>) => Tokenize(p, analyze, raw)
  }

  lemma {:induction false} AnalyzeAllFails(analyze: string -> Result<Analyses, Failure>, tokens: seq<string>, i: nat)
    requires i <= |tokens| && AnalyzeAll(analyze, tokens[..i]).Failure?
    ensures AnalyzeAll(analyze, tokens) == AnalyzeAll(analyze, tokens[..i])
  {
    if i < |tokens| {
      var body := tokens[..|tokens| - 1];
      assert body[..i] == tokens[..i];
      AnalyzeAllFails(analyze, body, i);
    } else {
      assert tokens[..i] == tokens;
    }
  }

  lemma {:induction false} SegmentsFail(p: Pipeline, analyze: string -> Result<Analyses, Failure>, raw: seq<byte>,
                                        segments: seq<seq<string>>, i: nat)
    requires i <= |segments| && AnalyzeSegments(p, analyze, raw, segments[..i]).Failure?
    ensures AnalyzeSegments(p, analyze, raw, segments) == AnalyzeSegments(p, analyze, raw, segments[..i])
  {
    if i < |segments| {
      var body := segments[..|segments| - 1];
      assert body[..i] == segments[..i];
      SegmentsFail(p, analyze, raw, body, i);
    } else {
      assert segments[..i] == segments;
    }
  }

  lemma {:induction false} InputsFail(t: Tokenizer, inputs: seq<seq<byte>>, i: nat)
    requires i <= |inputs| && TokenizeAll(t, inputs[..i]).Failure?
    ensures TokenizeAll(t, inputs) == TokenizeAll(t, inputs[..i])
  {
    if i < |inputs| {
      var body := inputs[..|inputs| - 1];
      assert body[..i] == inputs[..i];
      InputsFail(t, body, i);
    } else {
      assert inputs[..i] == inputs;
    }
  }

  method FlushSegment(morphology: string -> Result<Analyses, Failure>, tokens: seq<string>, cache: AnalysisCache)
    returns (r: Result<seq<Analyses>, Failure>)
    requires cache.Valid() && cache.analyze == morphology
    modifies cache
    ensures cache.Valid() && r == AnalyzeAll(morphology, tokens)
  {
    var sets: seq<Analyses> := [];
    for i := 0 to |tokens|
      invariant cache.Valid()
      invariant AnalyzeAll(morphology, tokens[..i]) == Success(sets)
    {
      var set_ := cache.Analyze(morphology, tokens[i]);
      assert tokens[..i + 1][..i] == tokens[..i];
      if set_.Failure? {
        AnalyzeAllFails(morphology, tokens, i + 1);
        return Result.Failure(set_.error);
      }
      sets := sets + [set_.value];
    }
    assert tokens[..|tokens|] == tokens;
    r := Success(sets);
  }

  /** Tokenizing through a cache gives what tokenizing without one gives, whatever it holds. */
  method TokenizeWithCache(p: Pipeline, morphology: string -> Result<Analyses, Failure>, raw: seq<byte>, cache: AnalysisCache)
    returns (r: Result<Document, Failure>)
    requires cache.Valid() && cache.analyze == morphology
    modifies cache
    ensures cache.Valid() && r == Tokenize(p, morphology, raw)
  {
    hide AnalyzeAll;
    var found := p.segments(raw);
    if found.Failure? {
      return Result.Failure(found.error);
    }
    var segments := found.value;
    var sets: seq<seq<Analyses>> := [];
    for i := 0 to |segments|
      invariant cache.Valid()
      invariant AnalyzeSegments(p, morphology, raw, segments[..i]) == Success(sets)
    {
      var set_ := FlushSegment(morphology, segments[i], cache);
      assert segments[..i + 1][..i] == segments[..i];
      if set_.Failure? {
        SegmentsFail(p, morphology, raw, segments, i + 1);
        return Result.Failure(set_.error);
      }
      var refused := p.decide(raw, sets + [set_.value]);
      if refused.Some? {
        SegmentsFail(p, morphology, raw, segments, i + 1);
        return Result.Failure(refused.value);
      }
      sets := sets + [set_.value];
    }
    assert segments[..|segments|] == segments;
    r := p.finish(raw, sets);
  }

  /** What a worker does with a chunk, and what a single worker does with the whole batch. */
  method TokenizeChunk(p: Pipeline, morphology: string -> Result<Analyses, Failure>, inputs: seq<seq<byte>>,
                       cache: AnalysisCache) returns (r: Result<seq<Document>, Failure>)
    requires cache.Valid() && cache.analyze == morphology
    modifies cache
    ensures cache.Valid() && r == TokenizeAll(CachelessTokenizer(p, morphology), inputs)
  {
    hide Tokenize;
    ghost var t := CachelessTokenizer(p, morphology);
    var documents: seq<Document> := [];
    for i := 0 to |inputs|
      invariant cache.Valid()
      invariant TokenizeAll(t, inputs[..i]) == Success(documents)
    {
      var document := TokenizeWithCache(p, morphology, inputs[i], cache);
      assert inputs[..i + 1][..i] == inputs[..i];
      if document.Failure? {
        InputsFail(t, inputs, i + 1);
        return Result.Failure(document.error);
      }
      documents := documents + [document.value];
    }
    assert inputs[..|inputs|] == inputs;
    r := Success(documents);
  }

  // ------------------------------------------------------------ flat training chunks

  datatype TrainingBatch = TrainingBatch(ids: seq<nat>, lengths: seq<nat>, documentOffsets: seq<nat>)

  /** The offsets cut the streams into documents. */
  ghost predicate Cuts(b: TrainingBatch) {
    && |b.ids| == |b.lengths| && b.documentOffsets != [] && b.documentOffsets[0] == 0
    && b.documentOffsets[|b.documentOffsets| - 1] == |b.ids|
    && forall i: nat | 0 < i < |b.documentOffsets| :: b.documentOffsets[i - 1] <= b.documentOffsets[i] <= |b.ids|
  }

  /** The check made of every chunk. */
  predicate Consistent(b: TrainingBatch) {
    |b.ids| == |b.lengths| && b.documentOffsets != [] && b.documentOffsets[0] == 0
  }

  ghost function DocumentSlice(b: TrainingBatch, k: nat): (seq<nat>, seq<nat>)
    requires Cuts(b) && k + 1 < |b.documentOffsets|
  {
    var lo, hi := b.documentOffsets[k + 1 - 1], b.documentOffsets[k + 1];
    (b.ids[lo..hi], b.lengths[lo..hi])
  }

  /** The documents of a batch. */
  ghost function Slices(b: TrainingBatch): seq<(seq<nat>, seq<nat>)>
    requires Cuts(b)
  {
    seq(|b.documentOffsets| - 1, k requires 0 <= k < |b.documentOffsets| - 1 => DocumentSlice(b, k))
  }

  ghost function AllSlices(chunks: seq<TrainingBatch>): seq<(seq<nat>, seq<nat>)>
    requires forall i: nat | i < |chunks| :: Cuts(chunks[i])
  {
    if chunks == [] then [] else AllSlices(chunks[..|chunks| - 1]) + Slices(chunks[|chunks| - 1])
  }

  /** One chunk behind another, its offsets rebased. */
  function Append(output: TrainingBatch, b: TrainingBatch): TrainingBatch
    requires b.documentOffsets != []
  {
    TrainingBatch(
      output.ids + b.ids, output.lengths + b.lengths,
      output.documentOffsets + Rebased(b.documentOffsets, |output.ids|))
  }

  function Rebased(offsets: seq<nat>, base: nat): (r: seq<nat>)
    requires offsets != []
    ensures |r| == |offsets| - 1
  {
    seq(|offsets| - 1, i requires 0 <= i < |offsets| - 1 => base + offsets[i + 1])
  }

  lemma AppendCuts(output: TrainingBatch, b: TrainingBatch)
    requires Cuts(output) && Cuts(b)
    ensures Cuts(Append(output, b))
  {
    var more := Append(output, b);
    var n, base := |output.documentOffsets|, |output.ids|;
    forall i: nat | 0 < i < |more.documentOffsets|
      ensures more.documentOffsets[i - 1] <= more.documentOffsets[i] <= |more.ids|
    {
      if i < n {
        assert output.documentOffsets[i - 1] <= output.documentOffsets[i];
      } else {
        assert more.documentOffsets[i] == base + b.documentOffsets[i - n + 1];
        assert b.documentOffsets[i - n + 1 - 1] <= b.documentOffsets[i - n + 1];
      }
    }
  }

  /** Every document keeps its own slice when chunks are joined. */
  lemma AppendSlices(output: TrainingBatch, b: TrainingBatch)
    requires Cuts(output) && Cuts(b)
    ensures Cuts(Append(output, b)) && Slices(Append(output, b)) == Slices(output) + Slices(b)
  {
    AppendCuts(output, b);
    var more := Append(output, b);
    var n := |output.documentOffsets| - 1;
    forall k: nat | k < |more.documentOffsets| - 1
      ensures DocumentSlice(more, k) == if k < n then DocumentSlice(output, k) else DocumentSlice(b, k - n)
    {
      if k < n {
        SliceBefore(output, b, k);
      } else {
        SliceBehind(output, b, k - n);
      }
    }
    assert forall k: nat | k < |more.documentOffsets| - 1 ::
      Slices(more)[k] == (Slices(output) + Slices(b))[k];
  }

  lemma SliceBefore(output: TrainingBatch, b: TrainingBatch, k: nat)
    requires Cuts(output) && Cuts(b) && Cuts(Append(output, b)) && k + 1 < |output.documentOffsets|
    ensures DocumentSlice(Append(output, b), k) == DocumentSlice(output, k)
  {
    var lo, hi := output.documentOffsets[k], output.documentOffsets[k + 1];
    assert output.documentOffsets[k + 1 - 1] <= output.documentOffsets[k + 1] <= |output.ids|;
    assert (output.ids + b.ids)[lo..hi] == output.ids[lo..hi];
    assert (output.lengths + b.lengths)[lo..hi] == output.lengths[lo..hi];
  }

  lemma SliceBehind(output: TrainingBatch, b: TrainingBatch, k: nat)
    requires Cuts(output) && Cuts(b) && Cuts(Append(output, b)) && k + 1 < |b.documentOffsets|
    ensures DocumentSlice(Append(output, b), |output.documentOffsets| - 1 + k) == DocumentSlice(b, k)
  {
    var more, n, base := Append(output, b), |output.documentOffsets|, |output.ids|;
    var lo, hi := b.documentOffsets[k], b.documentOffsets[k + 1];
    assert b.documentOffsets[k + 1 - 1] <= b.documentOffsets[k + 1] <= |b.ids|;
    assert more.documentOffsets[n + k] == base + hi;
    assert more.documentOffsets[n - 1 + k] == base + lo;
    assert (output.ids + b.ids)[base + lo..base + hi] == b.ids[lo..hi];
    assert (output.lengths + b.lengths)[base + lo..base + hi] == b.lengths[lo..hi];
  }

  type NumberedChunk = (nat, TrainingBatch)

  function Batches(chunks: seq<NumberedChunk>): (r: seq<TrainingBatch>)
    ensures |r| == |chunks| && forall i: nat | i < |r| :: r[i] == chunks[i].1
  {
    seq(|chunks|, i requires 0 <= i < |chunks| => chunks[i].1)
  }

  /** Every number comes before all larger ones. */
  predicate Ascending(chunks: seq<NumberedChunk>) {
    forall i: nat, j: nat | i < j < |chunks| :: chunks[i].0 <= chunks[j].0
  }

  /** The numbers are also distinct, as those of a batch are. */
  predicate InOrder(chunks: seq<NumberedChunk>) {
    forall i: nat, j: nat | i < j < |chunks| :: chunks[i].0 < chunks[j].0
  }

  function InsertChunk(chunks: seq<NumberedChunk>, c: NumberedChunk): seq<NumberedChunk> {
    if chunks == [] || chunks[|chunks| - 1].0 <= c.0 then chunks + [c]
    else InsertChunk(chunks[..|chunks| - 1], c) + [chunks[|chunks| - 1]]
  }

  function SortChunks(chunks: seq<NumberedChunk>): seq<NumberedChunk> {
    if chunks == [] then [] else InsertChunk(SortChunks(chunks[..|chunks| - 1]), chunks[|chunks| - 1])
  }

  lemma {:induction false} InsertMembers(chunks: seq<NumberedChunk>, c: NumberedChunk)
    ensures multiset(InsertChunk(chunks, c)) == multiset(chunks) + multiset{c}
  {
    if chunks != [] && chunks[|chunks| - 1].0 > c.0 {
      InsertMembers(chunks[..|chunks| - 1], c);
      assert chunks == chunks[..|chunks| - 1] + [chunks[|chunks| - 1]];
    }
  }

  lemma AscendingUnder(body: seq<NumberedChunk>, c: NumberedChunk, last: NumberedChunk, inserted: seq<NumberedChunk>)
    requires Ascending(body + [last]) && c.0 <= last.0 && Ascending(inserted)
    requires multiset(inserted) == multiset(body) + multiset{c}
    ensures Ascending(inserted + [last])
  {
    forall i: nat | i < |inserted|
      ensures inserted[i].0 <= last.0
    {
      assert inserted[i] in multiset(inserted);
      if inserted[i] != c {
        var k: nat :| k < |body| && body[k] == inserted[i];
        assert (body + [last])[k].0 <= (body + [last])[|body|].0;
      }
    }
  }

  lemma {:induction false} InsertKeepsAscending(chunks: seq<NumberedChunk>, c: NumberedChunk)
    requires Ascending(chunks)
    ensures Ascending(InsertChunk(chunks, c))
  {
    if chunks != [] && chunks[|chunks| - 1].0 > c.0 {
      var body, last := chunks[..|chunks| - 1], chunks[|chunks| - 1];
      assert chunks == body + [last];
      InsertKeepsAscending(body, c);
      InsertMembers(body, c);
      AscendingUnder(body, c, last, InsertChunk(body, c));
    }
  }

  lemma {:induction false} SortChunksSorts(chunks: seq<NumberedChunk>)
    ensures Ascending(SortChunks(chunks)) && multiset(SortChunks(chunks)) == multiset(chunks)
  {
    if chunks != [] {
      var body, last := chunks[..|chunks| - 1], chunks[|chunks| - 1];
      SortChunksSorts(body);
      InsertKeepsAscending(SortChunks(body), last);
      InsertMembers(SortChunks(body), last);
      assert chunks == body + [last];
    }
  }

  /** Chunks with distinct numbers have one order, however they came in. */
  lemma {:induction false} OrderUnique(sorted: seq<NumberedChunk>, ordered: seq<NumberedChunk>)
    requires Ascending(sorted) && InOrder(ordered) && multiset(sorted) == multiset(ordered)
    ensures sorted == ordered
    decreases |sorted|
  {
    assert |multiset(sorted)| == |sorted| && |multiset(ordered)| == |ordered|;
    if sorted != [] {
      var body, last := sorted[..|sorted| - 1], sorted[|sorted| - 1];
      var rest, top := ordered[..|ordered| - 1], ordered[|ordered| - 1];
      assert last in multiset(ordered) && top in multiset(sorted);
      assert last == top;
      assert sorted == body + [last] && ordered == rest + [last];
      CancelOne(multiset(body), multiset(rest), last);
      OrderUnique(body, rest);
    }
  }

  /** Sorts the chunks by number and joins them. Chunks are refused exactly if one of them is
      inconsistent; otherwise every document keeps its slice, in the order of the numbers. */
  method ConcatenateSurfaceChunks(chunks: seq<NumberedChunk>) returns (r: Option<TrainingBatch>)
    ensures r.Some? <==> forall c | c in chunks :: Consistent(c.1)
    ensures forall ordered: seq<NumberedChunk> | InOrder(ordered) && multiset(ordered) == multiset(chunks) ::
      (forall i: nat | i < |ordered| :: Cuts(ordered[i].1)) ==>
        r.Some? && Cuts(r.value) && Slices(r.value) == AllSlices(Batches(ordered))
  {
    hide Cuts, Slices, AllSlices, Consistent, Ascending, InOrder, SortChunks, Batches;
    var sorted := SortChunks(chunks);
    SortChunksSorts(chunks);
    SameMembers(chunks, sorted);
    r := JoinChunks(Batches(sorted));
    forall ordered: seq<NumberedChunk> | InOrder(ordered) && multiset(ordered) == multiset(chunks)
      ensures ordered == sorted
    {
      OrderUnique(sorted, ordered);
    }
  }

  lemma SameMembers(chunks: seq<NumberedChunk>, sorted: seq<NumberedChunk>)
    requires multiset(chunks) == multiset(sorted)
    ensures (forall c | c in chunks :: Consistent(c.1)) <==> (forall i: nat | i < |sorted| :: Consistent(sorted[i].1))
  {
    hide Consistent;
    assert forall c :: c in chunks <==> c in multiset(chunks);
    assert forall c :: c in sorted <==> c in multiset(sorted);
  }

  /** Joins chunks in their order. */
  method JoinChunks(chunks: seq<TrainingBatch>) returns (r: Option<TrainingBatch>)
    ensures r.Some? <==> forall i: nat | i < |chunks| :: Consistent(chunks[i])
    ensures (forall i: nat | i < |chunks| :: Cuts(chunks[i])) ==>
      r.Some? && Cuts(r.value) && Slices(r.value) == AllSlices(chunks)
  {
    hide Cuts, Slices, DocumentSlice;
    var output := TrainingBatch([], [], [0]);
    ghost var sound := forall i: nat | i < |chunks| :: Cuts(chunks[i]);
    NoSlices();
    for i := 0 to |chunks|
      invariant output.documentOffsets != []
      invariant forall k: nat | k < i :: Consistent(chunks[k])
      invariant sound ==> Cuts(output) && Slices(output) == AllSlices(chunks[..i])
    {
      CutsAreConsistent(chunks[i]);
      var batch := chunks[i];
      if |batch.ids| != |batch.lengths| || batch.documentOffsets == [] || batch.documentOffsets[0] != 0 {
        return None;
      }
      if sound {
        AppendSlices(output, batch);
        assert chunks[..i + 1][..i] == chunks[..i];
      }
      var base := |output.ids|;
      var offsets := output.documentOffsets;
      for k := 1 to |batch.documentOffsets|
        invariant offsets == output.documentOffsets + Rebased(batch.documentOffsets, base)[..k - 1]
      {
        offsets := offsets + [base + batch.documentOffsets[k]];
      }
      ghost var joined := Append(output, batch);
      assert Rebased(batch.documentOffsets, base)[..|batch.documentOffsets| - 1] == Rebased(batch.documentOffsets, base);
      output := TrainingBatch(output.ids + batch.ids, output.lengths + batch.lengths, offsets);
      assert output == joined;
    }
    assert chunks[..|chunks|] == chunks;
    r := Some(output);
  }

  lemma NoSlices()
    ensures Cuts(TrainingBatch([], [], [0])) && Slices(TrainingBatch([], [], [0])) == []
  {
  }

  lemma CutsAreConsistent(b: TrainingBatch)
    ensures Cuts(b) ==> Consistent(b)
  {
  }
}
