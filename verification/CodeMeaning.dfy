/** Code spans and artifacts told from the bytes. */
module CodeMeaning {
  import opened Bytes
  import opened CodeSpans
  import opened Text

  /** `count` backticks stand at the position. */
  predicate Ticks(raw: seq<byte>, k: nat, count: nat) {
    k + count <= |raw| && forall i: nat | k <= i < k + count :: raw[i] == 0x60
  }

  /** Exactly so many stand there before something else. */
  predicate TickRun(raw: seq<byte>, k: nat, count: nat) {
    Ticks(raw, k, count) && (k + count == |raw| || raw[k + count] != 0x60)
  }

  /** Code is opened by a run of backticks: three or more are closed by as many, one or two by a single
      one. It ends behind the first such mark after the opening one. */
  ghost predicate DelimitedCode(raw: seq<byte>, start: nat, end: nat) {
    exists run: nat, mark: nat, close: nat ::
      TickRun(raw, start, run) && MarksCode(raw, start, run, mark, close) && end == close + mark
  }

  predicate MarksCode(raw: seq<byte>, start: nat, run: nat, mark: nat, close: nat) {
    && run >= 1 && mark == (if run >= 3 then run else 1)
    && start + mark <= close && Ticks(raw, close, mark)
    && forall k: nat | start + mark <= k < close :: !Ticks(raw, k, mark)
  }

  lemma {:induction false} RunIs(raw: seq<byte>, k: nat, count: nat)
    requires k <= |raw|
    ensures TickRun(raw, k, count) <==> BacktickRun(raw, k) == count
    decreases |raw| - k
  {
    if k < |raw| && raw[k] == 0x60 {
      if count > 0 {
        RunIs(raw, k + 1, count - 1);
      }
    }
  }

  lemma ClosesIs(raw: seq<byte>, k: nat, count: nat)
    requires k < |raw| && count > 0
    ensures Closes(raw, k, count) <==> Ticks(raw, k, count)
  {
    hide BacktickRun;
    var run := BacktickRun(raw, k);
    RunIs(raw, k, run);
    if Ticks(raw, k, count) {
      assert raw[k] == 0x60;
    }
  }

  /** The spans of delimited code are these. */
  lemma DelimitedIs(raw: seq<byte>, span: Span)
    ensures Delimited(raw, span) <==> span.start < span.end <= |raw| && DelimitedCode(raw, span.start, span.end)
  {
    hide BacktickRun, Closes, Ticks;
    if Delimited(raw, span) {
      var mark: nat, close: nat :| DelimitedBy(raw, span, mark, close);
      var run := BacktickRun(raw, span.start);
      RunIs(raw, span.start, run);
      NotEmptyRun(raw, span.start);
      forall k: nat | span.start + mark <= k <= close
        ensures Closes(raw, k, mark) <==> Ticks(raw, k, mark)
      {
        ClosesIs(raw, k, mark);
      }
      assert MarksCode(raw, span.start, run, mark, close);
    }
    if span.start < span.end <= |raw| && DelimitedCode(raw, span.start, span.end) {
      var run: nat, mark: nat, close: nat :|
        TickRun(raw, span.start, run) && MarksCode(raw, span.start, run, mark, close) && span.end == close + mark;
      RunIs(raw, span.start, run);
      NotEmptyRun(raw, span.start);
      forall k: nat | span.start + mark <= k <= close && k < |raw|
        ensures Closes(raw, k, mark) <==> Ticks(raw, k, mark)
      {
        ClosesIs(raw, k, mark);
      }
      assert DelimitedBy(raw, span, mark, close);
    }
  }

  lemma NotEmptyRun(raw: seq<byte>, k: nat)
    requires k < |raw|
    ensures BacktickRun(raw, k) >= 1 <==> raw[k] == 0x60
  {
  }

  // ------------------------------------------------------------ inline artifacts

  /** Blanks, control bytes, the delete byte and backticks part fields. */
  predicate PartsFields(b: byte) {
    b <= 0x20 || b == 0x7F || b == 0x60
  }

  /** A maximal stretch between such bytes; round, square, curly and angle brackets and quotes are dropped
      in front, and behind also full stop, comma, semicolon, exclamation and question mark. */
  ghost predicate TrimmedField(raw: seq<byte>, start: nat, end: nat, left: nat, right: nat) {
    && start <= left < right <= end <= |raw|
    && (start > 0 ==> PartsFields(raw[start - 1])) && (end < |raw| ==> PartsFields(raw[end]))
    && (forall k: nat | start <= k < end :: !PartsFields(raw[k]))
    && (forall k: nat | start <= k < left :: raw[k] in {0x28, 0x5B, 0x7B, 0x3C, 0x22, 0x27})
    && raw[left] !in {0x28, 0x5B, 0x7B, 0x3C, 0x22, 0x27}
    && (forall k: nat | right <= k < end ::
      raw[k] in {0x2E, 0x2C, 0x3B, 0x21, 0x3F, 0x29, 0x5D, 0x7D, 0x3E, 0x22, 0x27})
    && raw[right - 1] !in {0x2E, 0x2C, 0x3B, 0x21, 0x3F, 0x29, 0x5D, 0x7D, 0x3E, 0x22, 0x27}
  }

  lemma ByteClasses(b: byte)
    ensures IsInlineSeparator(b) <==> PartsFields(b)
    ensures IsOpening(b) <==> b in {0x28, 0x5B, 0x7B, 0x3C, 0x22, 0x27}
    ensures IsTrailing(b) <==> b in {0x2E, 0x2C, 0x3B, 0x21, 0x3F, 0x29, 0x5D, 0x7D, 0x3E, 0x22, 0x27}
  {
  }

  /** The inline artifacts are the trimmed fields that look like one. */
  lemma ArtifactIs(raw: seq<byte>, looksLike: seq<byte> -> bool, span: Span)
    ensures Artifact(raw, looksLike, span) <==>
      exists start: nat, end: nat ::
        TrimmedField(raw, start, end, span.start, span.end) && looksLike(raw[span.start..span.end])
  {
    hide IsInlineSeparator, IsOpening, IsTrailing, PartsFields;
    forall b: byte
      ensures IsInlineSeparator(b) <==> PartsFields(b)
      ensures IsOpening(b) <==> b in {0x28, 0x5B, 0x7B, 0x3C, 0x22, 0x27}
      ensures IsTrailing(b) <==> b in {0x2E, 0x2C, 0x3B, 0x21, 0x3F, 0x29, 0x5D, 0x7D, 0x3E, 0x22, 0x27}
    {
      ByteClasses(b);
    }
    if Artifact(raw, looksLike, span) {
      var start: nat, end: nat :| ArtifactOf(raw, looksLike, start, end, span);
      assert TrimmedField(raw, start, end, span.start, span.end);
    }
    if start: nat, end: nat :| TrimmedField(raw, start, end, span.start, span.end) && looksLike(raw[span.start..span.end]) {
      assert ArtifactOf(raw, looksLike, start, end, span);
    }
  }

  // ------------------------------------------------------------ lines and the spans of a document

  /** Lines end behind line feeds and at the end of the bytes, and nowhere else. */
  lemma {:induction false} LineEnds(raw: seq<byte>, lines: seq<Span>, end: nat, x: nat)
    requires AllLines(raw, lines) && Tiled(lines, 0, end) && end <= |raw|
    requires lines != [] ==> end == |raw| || raw[end - 1] == 0x0A
    ensures (exists i: nat :: i < |lines| && lines[i].end == x)
       <==> 0 < x <= end && (raw[x - 1] == 0x0A || x == |raw|)
    decreases |lines|
  {
    if lines != [] {
      var body, last := lines[..|lines| - 1], lines[|lines| - 1];
      LinesBefore(raw, lines, end);
      LineEnds(raw, body, last.start, x);
      LastLine(raw, lines, end, x);
    }
  }

  lemma LinesBefore(raw: seq<byte>, lines: seq<Span>, end: nat)
    requires lines != [] && AllLines(raw, lines) && Tiled(lines, 0, end) && end <= |raw|
    ensures var body, last := lines[..|lines| - 1], lines[|lines| - 1];
      && AllLines(raw, body) && Tiled(body, 0, last.start) && last.start < last.end == end
      && (body != [] ==> raw[last.start - 1] == 0x0A)
  {
    hide Clean;
    var body, last := lines[..|lines| - 1], lines[|lines| - 1];
    assert IsLine(raw, last);
    if body != [] {
      assert lines[|lines| - 1 - 1].end == lines[|lines| - 1].start;
      assert IsLine(raw, lines[|lines| - 2]);
      forall i: nat | 0 < i < |body|
        ensures body[i - 1].end == body[i].start
      {
        assert lines[i - 1].end == lines[i].start;
      }
    }
  }

  lemma LastLine(raw: seq<byte>, lines: seq<Span>, end: nat, x: nat)
    requires lines != [] && AllLines(raw, lines) && lines[|lines| - 1].end == end <= |raw|
    requires end == |raw| || raw[end - 1] == 0x0A
    requires var body, last := lines[..|lines| - 1], lines[|lines| - 1];
      (exists i: nat :: i < |body| && body[i].end == x) <==> 0 < x <= last.start && (raw[x - 1] == 0x0A || x == |raw|)
    ensures (exists i: nat :: i < |lines| && lines[i].end == x)
       <==> 0 < x <= end && (raw[x - 1] == 0x0A || x == |raw|)
  {
    hide Clean;
    var body, last := lines[..|lines| - 1], lines[|lines| - 1];
    assert IsLine(raw, last);
    if i: nat :| i < |lines| && lines[i].end == x {
      if i < |body| {
        assert body[i].end == x;
      }
    }
    if 0 < x <= end && (raw[x - 1] == 0x0A || x == |raw|) {
      if x <= last.start {
        var i: nat :| i < |body| && body[i].end == x;
        assert lines[i].end == x;
      } else {
        assert x == end;
        assert lines[|lines| - 1].end == x;
      }
    }
  }
}
