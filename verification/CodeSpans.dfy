/** Code spans: explicit backtick spans, inline artifacts, selected lines, and their union. */
module CodeSpans {
  import opened Wrappers
  import opened Bytes
  import opened Text

  datatype Span = Span(start: nat, end: nat)

  const BACKTICK: byte := 0x60

  /** The span is inside the bytes, not empty, and starts and ends outside of scalars. */
  predicate Exact(raw: seq<byte>, span: Span) {
    span.start < span.end <= |raw| && Clean(raw, span.start) && Clean(raw, span.end)
  }

  predicate AllExact(raw: seq<byte>, spans: seq<Span>) {
    forall i: nat | i < |spans| :: Exact(raw, spans[i])
  }

  // -------------------------------------------------------------- backtick spans

  /** How many backticks stand from a position on. */
  function BacktickRun(raw: seq<byte>, start: nat): (run: nat)
    requires start <= |raw|
    ensures start + run <= |raw| && forall k: nat | start <= k < start + run :: raw[k] == BACKTICK
    decreases |raw| - start
  {
    if start < |raw| && raw[start] == BACKTICK then 1 + BacktickRun(raw, start + 1) else 0
  }

  predicate Closes(raw: seq<byte>, index: nat, delimiter: nat)
    requires index < |raw|
  {
    raw[index] == BACKTICK && BacktickRun(raw, index) >= delimiter
  }

  method FindClosing(raw: seq<byte>, start: nat, delimiter: nat) returns (r: Option<nat>)
    ensures r.Some? ==> start <= r.value < |raw| && Closes(raw, r.value, delimiter)
    ensures forall k: nat | start <= k < |raw| && (r.None? || k < r.value) :: !Closes(raw, k, delimiter)
  {
    var index := start;
    while index < |raw|
      invariant start <= index
      invariant forall k: nat | start <= k < |raw| && k < index :: !Closes(raw, k, delimiter)
    {
      if raw[index] == BACKTICK && BacktickRun(raw, index) >= delimiter {
        return Some(index);
      }
      index := index + 1;
    }
    return None;
  }

  /** A span from an opening run to the first closing run of its delimiter. */
  ghost predicate Delimited(raw: seq<byte>, span: Span) {
    && span.start < span.end <= |raw|
    && exists delimiter: nat, close: nat :: DelimitedBy(raw, span, delimiter, close)
  }

  predicate DelimitedBy(raw: seq<byte>, span: Span, delimiter: nat, close: nat) {
    && span.start < |raw| && span.end == close + delimiter && span.start + delimiter <= close < |raw|
    && delimiter == (if BacktickRun(raw, span.start) >= 3 then BacktickRun(raw, span.start) else 1)
    && raw[span.start] == BACKTICK && Closes(raw, close, delimiter)
    && forall k: nat | span.start + delimiter <= k < close :: !Closes(raw, k, delimiter)
  }

  lemma DelimitedIsExact(raw: seq<byte>, span: Span)
    requires Delimited(raw, span)
    ensures Exact(raw, span)
  {
    hide BacktickRun;
    var delimiter: nat, close: nat :| DelimitedBy(raw, span, delimiter, close);
    assert raw[span.start] < 0x80;
    assert raw[close + delimiter - 1] == BACKTICK;
  }

  /** Ordered spans without overlap. */
  predicate Ordered(spans: seq<Span>) {
    forall i: nat | 0 < i < |spans| :: spans[i - 1].end <= spans[i].start
  }

  function Delimiter(raw: seq<byte>, start: nat): nat
    requires start <= |raw|
  {
    if BacktickRun(raw, start) >= 3 then BacktickRun(raw, start) else 1
  }

  /** A run of backticks whose delimiter never comes again. */
  ghost predicate Unclosed(raw: seq<byte>, start: nat) {
    && start < |raw| && raw[start] == BACKTICK
    && forall k: nat | start + Delimiter(raw, start) <= k < |raw| :: !Closes(raw, k, Delimiter(raw, start))
  }

  /** A backtick that belongs to an unclosed run. */
  ghost predicate Loose(raw: seq<byte>, k: nat) {
    exists start: nat :: start <= k && Unclosed(raw, start) && k < start + BacktickRun(raw, start)
  }

  ghost predicate Accounted(raw: seq<byte>, spans: seq<Span>, n: nat) {
    forall k: nat | k < n && k < |raw| && raw[k] == BACKTICK :: Covered(spans, k) || Loose(raw, k)
  }

  /** The spans of delimited code: every backtick lies in one of them or in an unclosed run. */
  ghost predicate ExplicitSpans(raw: seq<byte>, spans: seq<Span>) {
    && (forall i: nat | i < |spans| :: Delimited(raw, spans[i])) && Ordered(spans)
    && Accounted(raw, spans, |raw|)
  }

  lemma AccountedSpan(raw: seq<byte>, spans: seq<Span>, index: nat, end: nat)
    requires Accounted(raw, spans, index) && index <= end
    ensures Accounted(raw, spans + [Span(index, end)], end)
  {
    hide Covered, Loose;
    CoveredPush(spans, Span(index, end));
  }

  lemma AccountedRun(raw: seq<byte>, spans: seq<Span>, index: nat)
    requires Accounted(raw, spans, index) && Unclosed(raw, index)
    ensures Accounted(raw, spans, index + BacktickRun(raw, index))
  {
    hide Covered, Closes, BacktickRun;
    forall k: nat | index <= k < index + BacktickRun(raw, index)
      ensures Loose(raw, k)
    {
    }
  }

  method ExplicitCodeSpans(raw: seq<byte>) returns (spans: seq<Span>)
    ensures ExplicitSpans(raw, spans) && AllExact(raw, spans)
    ensures BACKTICK !in raw ==> spans == []
  {
    hide BacktickRun, Delimited, Exact, Accounted, Closes;
    NothingAccounted(raw);
    spans := [];
    var index := 0;
    while index < |raw|
      invariant forall i: nat | i < |spans| :: Delimited(raw, spans[i]) && Exact(raw, spans[i])
      invariant Ordered(spans) && (spans != [] ==> spans[|spans| - 1].end <= index)
      invariant BACKTICK !in raw ==> spans == []
      invariant index <= |raw| && Accounted(raw, spans, index)
      decreases |raw| - index
    {
      if raw[index] != BACKTICK {
        AccountedSkip(raw, spans, index);
        index := index + 1;
        continue;
      }
      RunStarts(raw, index);
      var run := BacktickRun(raw, index);
      var delimiter := if run >= 3 then run else 1;
      var close := FindClosing(raw, index + delimiter, delimiter);
      if close.Some? {
        var end := close.value + delimiter;
        RunDelimits(raw, index, close.value, delimiter);
        AccountedSpan(raw, spans, index, end);
        DelimitedIsExact(raw, Span(index, end));
        spans := spans + [Span(index, end)];
        index := end;
      } else {
        AccountedRun(raw, spans, index);
        index := index + run;
      }
    }
  }

  lemma NothingAccounted(raw: seq<byte>)
    ensures Accounted(raw, [], 0)
    ensures BACKTICK !in raw ==> ExplicitSpans(raw, [])
  {
  }

  lemma AccountedSkip(raw: seq<byte>, spans: seq<Span>, index: nat)
    requires index < |raw| && raw[index] != BACKTICK && Accounted(raw, spans, index)
    ensures Accounted(raw, spans, index + 1)
  {
    hide Covered, Loose;
  }

  lemma {:induction false} RunStarts(raw: seq<byte>, index: nat)
    requires index < |raw| && raw[index] == BACKTICK
    ensures BacktickRun(raw, index) >= 1
  {
  }

  lemma {:induction false} RunDelimits(raw: seq<byte>, index: nat, close: nat, delimiter: nat)
    requires index < |raw| && raw[index] == BACKTICK
    requires delimiter == (if BacktickRun(raw, index) >= 3 then BacktickRun(raw, index) else 1)
    requires index + delimiter <= close < |raw| && Closes(raw, close, delimiter)
    requires forall k: nat | index + delimiter <= k < close :: !Closes(raw, k, delimiter)
    ensures Delimited(raw, Span(index, close + delimiter)) && index < close + delimiter <= |raw|
  {
    hide BacktickRun;
    assert DelimitedBy(raw, Span(index, close + delimiter), delimiter, close);
  }

  // ------------------------------------------------------------- inline artifacts

  predicate IsAsciiWhitespace(b: byte) {
    b == 0x20 || b == 0x09 || b == 0x0A || b == 0x0C || b == 0x0D
  }

  predicate IsInlineSeparator(b: byte) {
    IsAsciiWhitespace(b) || b < 0x20 || b == 0x7F || b == BACKTICK
  }

  predicate IsOpening(b: byte) {
    b as char in {'(', '[', '{', '<', '"', '\''}
  }

  predicate IsTrailing(b: byte) {
    b as char in {'.', ',', ';', '!', '?', ')', ']', '}', '>', '"', '\''}
  }

  /** A longest stretch without separators. */
  ghost predicate Field(raw: seq<byte>, start: nat, end: nat) {
    && start < end <= |raw|
    && (start == 0 || IsInlineSeparator(raw[start - 1])) && (end == |raw| || IsInlineSeparator(raw[end]))
    && forall k: nat | start <= k < end :: !IsInlineSeparator(raw[k])
  }

  /** What is left without the opening marks in front and the trailing marks behind. */
  ghost predicate TrimmedTo(raw: seq<byte>, start: nat, end: nat, left: nat, right: nat) {
    && start <= left <= right <= end <= |raw|
    && (forall k: nat | start <= k < left :: IsOpening(raw[k])) && (left == end || !IsOpening(raw[left]))
    && (forall k: nat | right <= k < end :: IsTrailing(raw[k])) && (right == left || !IsTrailing(raw[right - 1]))
  }

  ghost predicate ArtifactOf(raw: seq<byte>, looksLike: seq<byte> -> bool, start: nat, end: nat, span: Span) {
    && Field(raw, start, end) && TrimmedTo(raw, start, end, span.start, span.end)
    && span.start < span.end && looksLike(raw[span.start..span.end])
  }

  /** An artifact is a trimmed field that looks like one. */
  ghost predicate Artifact(raw: seq<byte>, looksLike: seq<byte> -> bool, span: Span) {
    exists start: nat, end: nat :: ArtifactOf(raw, looksLike, start, end, span)
  }

  /** The artifacts whose fields end by n. */
  ghost predicate ArtifactBy(raw: seq<byte>, looksLike: seq<byte> -> bool, n: nat, span: Span) {
    exists start: nat, end: nat :: end <= n && ArtifactOf(raw, looksLike, start, end, span)
  }

  lemma TrimUnique(raw: seq<byte>, start: nat, end: nat, left: nat, right: nat, left': nat, right': nat)
    requires TrimmedTo(raw, start, end, left, right) && TrimmedTo(raw, start, end, left', right')
    ensures left == left' && right == right'
  {
    hide IsOpening, IsTrailing;
  }

  /** Behind a separator the next field is the first stretch of other bytes. */
  lemma NextFieldUnique(raw: seq<byte>, from: nat, start: nat, end: nat, start': nat, end': nat)
    requires Field(raw, start, end) && from <= start && forall k: nat | from <= k < start :: IsInlineSeparator(raw[k])
    requires Field(raw, start', end') && from < end' <= end && (from == 0 || IsInlineSeparator(raw[from]))
    ensures start' == start && end' == end
  {
    hide IsInlineSeparator;
    assert !IsInlineSeparator(raw[start']);
    var atFrom := IsInlineSeparator(raw[from]);
    assert start <= start';
    var before := start' > 0 && IsInlineSeparator(raw[start' - 1]);
    var behind := end' < |raw| && IsInlineSeparator(raw[end']);
  }

  /** Drops opening brackets and quotes in front and closing marks behind. */
  method Trim(raw: seq<byte>, start: nat, end: nat) returns (left: nat, right: nat)
    requires start <= end <= |raw|
    ensures TrimmedTo(raw, start, end, left, right)
    ensures (left == start || raw[left - 1] < 0x80) && (right == end || raw[right] < 0x80)
  {
    left, right := start, end;
    while left < right && IsOpening(raw[left])
      invariant start <= left <= right
      invariant left == start || raw[left - 1] < 0x80
      invariant forall k: nat | start <= k < left :: IsOpening(raw[k])
    {
      left := left + 1;
    }
    while right > left && IsTrailing(raw[right - 1])
      invariant left <= right <= end
      invariant right == end || raw[right] < 0x80
      invariant forall k: nat | right <= k < end :: IsTrailing(raw[k])
    {
      right := right - 1;
    }
  }

  /** The next stretch without separators. */
  method NextField(raw: seq<byte>, from: nat) returns (start: nat, end: nat)
    requires from < |raw| && (from == 0 || IsInlineSeparator(raw[from]))
    ensures from <= start <= end <= |raw| && from < end
    ensures start == 0 || IsInlineSeparator(raw[start - 1])
    ensures end == |raw| || IsInlineSeparator(raw[end])
    ensures forall k: nat | start <= k < end :: !IsInlineSeparator(raw[k])
    ensures forall k: nat | from <= k < start :: IsInlineSeparator(raw[k])
    ensures start == end ==> end == |raw|
  {
    hide IsInlineSeparator;
    start := from;
    while start < |raw| && IsInlineSeparator(raw[start])
      invariant from <= start <= |raw|
      invariant start == from || IsInlineSeparator(raw[start - 1])
      invariant forall k: nat | from <= k < start :: IsInlineSeparator(raw[k])
    {
      start := start + 1;
    }
    end := start;
    while end < |raw| && !IsInlineSeparator(raw[end])
      invariant start <= end <= |raw|
      invariant forall k: nat | start <= k < end :: !IsInlineSeparator(raw[k])
    {
      end := end + 1;
    }
  }

  /** The trimmed stretches between separators that look like an artifact, whatever that means. */
  method InlineArtifactSpans(raw: seq<byte>, looksLike: seq<byte> -> bool) returns (spans: seq<Span>)
    ensures AllExact(raw, spans) && Ordered(spans)
    ensures forall span :: span in spans <==> Artifact(raw, looksLike, span)
  {
    hide ArtifactBy, TrimmedTo, Exact, Artifact;
    spans := [];
    var index := 0;
    NoArtifactYet(raw, looksLike);
    while index < |raw|
      invariant index <= |raw| && AllExact(raw, spans) && Ordered(spans)
      invariant spans != [] ==> spans[|spans| - 1].end <= index
      invariant forall span :: span in spans <==> ArtifactBy(raw, looksLike, index, span)
      invariant index == 0 || index == |raw| || IsInlineSeparator(raw[index])
      decreases |raw| - index
    {
      var start, end := NextField(raw, index);
      var left, right := Trim(raw, start, end);
      TrimInside(raw, start, end, left, right);
      var candidate := raw[left..right];
      NextArtifacts(raw, looksLike, index, start, end, left, right);
      if candidate != [] && looksLike(candidate) {
        TrimmedIsExact(raw, start, end, left, right);
        spans := spans + [Span(left, right)];
      }
      index := end;
    }
    AllArtifacts(raw, looksLike);
  }

  lemma NoArtifactYet(raw: seq<byte>, looksLike: seq<byte> -> bool)
    ensures forall span :: !ArtifactBy(raw, looksLike, 0, span)
  {
  }

  lemma AllArtifacts(raw: seq<byte>, looksLike: seq<byte> -> bool)
    ensures forall span :: ArtifactBy(raw, looksLike, |raw|, span) <==> Artifact(raw, looksLike, span)
  {
    hide TrimmedTo;
  }

  lemma TrimInside(raw: seq<byte>, start: nat, end: nat, left: nat, right: nat)
    requires TrimmedTo(raw, start, end, left, right)
    ensures start <= left <= right <= end <= |raw|
  {
  }

  /** The next field adds its artifact, if it is one, and nothing else. */
  lemma NextArtifacts(raw: seq<byte>, looksLike: seq<byte> -> bool, index: nat, start: nat, end: nat, left: nat, right: nat)
    requires index <= start <= end <= |raw| && index < end && (index == 0 || IsInlineSeparator(raw[index]))
    requires start == 0 || IsInlineSeparator(raw[start - 1])
    requires end == |raw| || IsInlineSeparator(raw[end])
    requires forall k: nat | start <= k < end :: !IsInlineSeparator(raw[k])
    requires forall k: nat | index <= k < start :: IsInlineSeparator(raw[k])
    requires start <= left <= right <= end && TrimmedTo(raw, start, end, left, right)
    ensures forall span :: ArtifactBy(raw, looksLike, end, span) <==>
      ArtifactBy(raw, looksLike, index, span) || (span == Span(left, right) && left < right && looksLike(raw[left..right]))
  {
    hide IsInlineSeparator, TrimmedTo, Field;
    forall span
      ensures ArtifactBy(raw, looksLike, end, span) <==>
        ArtifactBy(raw, looksLike, index, span) || (span == Span(left, right) && left < right && looksLike(raw[left..right]))
    {
      if ArtifactBy(raw, looksLike, end, span) && !ArtifactBy(raw, looksLike, index, span) {
        var s: nat, e: nat :| e <= end && ArtifactOf(raw, looksLike, s, e, span);
        SameArtifact(raw, index, start, end, left, right, s, e, span);
      }
      if ArtifactBy(raw, looksLike, index, span) {
        var s: nat, e: nat :| e <= index && ArtifactOf(raw, looksLike, s, e, span);
        assert e <= end && ArtifactOf(raw, looksLike, s, e, span);
      }
      if span == Span(left, right) && left < right && looksLike(raw[left..right]) {
        IsField(raw, start, end);
        assert ArtifactOf(raw, looksLike, start, end, span);
      }
    }
  }

  lemma IsField(raw: seq<byte>, start: nat, end: nat)
    requires start < end <= |raw|
    requires start == 0 || IsInlineSeparator(raw[start - 1])
    requires end == |raw| || IsInlineSeparator(raw[end])
    requires forall k: nat | start <= k < end :: !IsInlineSeparator(raw[k])
    ensures Field(raw, start, end)
  {
  }

  lemma SameArtifact(raw: seq<byte>, index: nat, start: nat, end: nat, left: nat, right: nat, s: nat, e: nat, span: Span)
    requires index <= start <= end <= |raw| && index < e <= end && (index == 0 || IsInlineSeparator(raw[index]))
    requires start == 0 || IsInlineSeparator(raw[start - 1])
    requires end == |raw| || IsInlineSeparator(raw[end])
    requires forall k: nat | start <= k < end :: !IsInlineSeparator(raw[k])
    requires forall k: nat | index <= k < start :: IsInlineSeparator(raw[k])
    requires TrimmedTo(raw, start, end, left, right) && Field(raw, s, e) && TrimmedTo(raw, s, e, span.start, span.end)
    ensures span == Span(left, right)
  {
    hide IsInlineSeparator, TrimmedTo;
    assert !IsInlineSeparator(raw[e - 1]);
    assert start < end;
    IsField(raw, start, end);
    NextFieldUnique(raw, index, start, end, s, e);
    TrimUnique(raw, start, end, left, right, span.start, span.end);
  }

  lemma TrimmedIsExact(raw: seq<byte>, start: nat, end: nat, left: nat, right: nat)
    requires start <= left < right <= end <= |raw|
    requires start == 0 || IsInlineSeparator(raw[start - 1])
    requires end == |raw| || IsInlineSeparator(raw[end])
    requires (left == start || raw[left - 1] < 0x80) && (right == end || raw[right] < 0x80)
    ensures Exact(raw, Span(left, right))
  {
  }

  // --------------------------------------------------------------------- lines

  /** A line ends behind its line feed, or with the bytes. */
  predicate IsLine(raw: seq<byte>, line: Span) {
    && Exact(raw, line) && (forall k: nat | line.start <= k < line.end - 1 :: raw[k] != 0x0A)
    && (line.end == |raw| || raw[line.end - 1] == 0x0A)
  }

  predicate AllLines(raw: seq<byte>, lines: seq<Span>) {
    forall i: nat | i < |lines| :: IsLine(raw, lines[i])
  }

  lemma LinesAreExact(raw: seq<byte>, lines: seq<Span>)
    requires AllLines(raw, lines)
    ensures AllExact(raw, lines)
  {
    hide Exact;
    forall i: nat | i < |lines|
      ensures Exact(raw, lines[i])
    {
      assert IsLine(raw, lines[i]);
    }
  }

  /** The lines of the bytes, each with its line break. */
  method CodeLines(raw: seq<byte>) returns (lines: seq<Span>)
    ensures AllLines(raw, lines) && AllExact(raw, lines) && Tiled(lines, 0, |raw|)
  {
    hide IsLine;
    lines := [];
    var start := 0;
    while start < |raw|
      invariant start <= |raw| && (start == 0 || start == |raw| || raw[start - 1] == 0x0A)
      invariant AllLines(raw, lines) && Tiled(lines, 0, start)
    {
      var end := start;
      while end < |raw| && raw[end] != 0x0A
        invariant start <= end <= |raw|
        invariant forall k: nat | start <= k < end :: raw[k] != 0x0A
      {
        end := end + 1;
      }
      if end < |raw| {
        end := end + 1;
      }
      LineIs(raw, start, end);
      lines := lines + [Span(start, end)];
      start := end;
    }
    LinesAreExact(raw, lines);
  }

  lemma LineIs(raw: seq<byte>, start: nat, end: nat)
    requires start < end <= |raw| && (start == 0 || raw[start - 1] == 0x0A)
    requires forall k: nat | start <= k < end - 1 :: raw[k] != 0x0A
    requires end == |raw| || raw[end - 1] == 0x0A
    ensures IsLine(raw, Span(start, end))
  {
  }

  predicate Tiled(spans: seq<Span>, start: nat, end: nat) {
    && (forall i: nat | 0 < i < |spans| :: spans[i - 1].end == spans[i].start)
    && if spans == [] then start == end else spans[0].start == start && spans[|spans| - 1].end == end
  }

  /** The place lies in a selected line among the first n. */
  ghost predicate Chosen(lines: seq<Span>, selected: seq<bool>, n: nat, x: nat)
    requires n <= |lines| == |selected|
  {
    exists k: nat :: k < n && selected[k] && lines[k].start <= x < lines[k].end
  }

  /** A run of selected lines covers from its first start to its last end. */
  lemma {:induction false} ChosenRun(lines: seq<Span>, selected: seq<bool>, first: nat, last: nat, x: nat)
    requires first < last <= |lines| == |selected|
    requires forall k: nat | first <= k < last :: selected[k] && lines[k].start < lines[k].end
    requires forall i: nat | 0 < i < |lines| :: lines[i - 1].end == lines[i].start
    ensures lines[first].start < lines[last - 1].end
    ensures Chosen(lines, selected, last, x)
       <==> Chosen(lines, selected, first, x) || lines[first].start <= x < lines[last - 1].end
  {
    if last == first + 1 {
      ChosenStep(lines, selected, first, x);
    } else {
      ChosenRun(lines, selected, first, last - 1, x);
      ChosenStep(lines, selected, last - 1, x);
      assert lines[last - 1 - 1].end == lines[last - 1].start;
    }
  }

  lemma ChosenStep(lines: seq<Span>, selected: seq<bool>, n: nat, x: nat)
    requires n < |lines| == |selected|
    ensures Chosen(lines, selected, n + 1, x)
       <==> Chosen(lines, selected, n, x) || (selected[n] && lines[n].start <= x < lines[n].end)
  {
  }

  /** Joins runs of selected lines into spans, whatever selected them. */
  method SelectedSpans(raw: seq<byte>, lines: seq<Span>, selected: seq<bool>) returns (spans: seq<Span>)
    requires |selected| == |lines| && AllExact(raw, lines) && Tiled(lines, 0, |raw|)
    ensures AllExact(raw, spans)
    ensures forall x: nat :: Covered(spans, x) <==> Chosen(lines, selected, |lines|, x)
  {
    hide Clean, Chosen, Covered;
    spans := [];
    var index := 0;
    NothingChosen(lines, selected);
    while index < |lines|
      invariant index <= |lines| && AllExact(raw, spans)
      invariant forall x: nat :: Covered(spans, x) <==> Chosen(lines, selected, index, x)
    {
      if !selected[index] {
        forall x: nat
          ensures Chosen(lines, selected, index + 1, x) <==> Chosen(lines, selected, index, x)
        {
          ChosenStep(lines, selected, index, x);
        }
        index := index + 1;
        continue;
      }
      ghost var first := index;
      var start := lines[index].start;
      var end := lines[index].end;
      index := index + 1;
      while index < |lines| && selected[index]
        invariant first < index <= |lines| && end == lines[index - 1].end
        invariant forall k: nat | first <= k < index :: selected[k]
      {
        end := lines[index].end;
        index := index + 1;
      }
      forall x: nat
        ensures Chosen(lines, selected, index, x) <==> Chosen(lines, selected, first, x) || start <= x < end
        ensures start < end
      {
        ChosenRun(lines, selected, first, index, x);
      }
      assert start < end by {
        ChosenRun(lines, selected, first, index, 0);
      }
      assert Exact(raw, lines[first]) && Exact(raw, lines[index - 1]);
      CoveredPush(spans, Span(start, end));
      spans := spans + [Span(start, end)];
    }
  }

  lemma NothingChosen(lines: seq<Span>, selected: seq<bool>)
    requires |lines| == |selected|
    ensures forall x: nat :: !Chosen(lines, selected, 0, x) && !Covered([], x)
  {
  }

  // ------------------------------------------------------------------- union

  ghost predicate Covered(spans: seq<Span>, x: nat) {
    exists i: nat :: i < |spans| && spans[i].start <= x < spans[i].end
  }

  lemma CoveredPush(spans: seq<Span>, span: Span)
    ensures forall x: nat :: Covered(spans + [span], x) <==> Covered(spans, x) || span.start <= x < span.end
  {
    forall x: nat
      ensures Covered(spans + [span], x) <==> Covered(spans, x) || span.start <= x < span.end
    {
      if Covered(spans, x) {
        var i: nat :| i < |spans| && spans[i].start <= x < spans[i].end;
        assert (spans + [span])[i] == spans[i];
      }
      if span.start <= x < span.end {
        assert (spans + [span])[|spans|] == span;
      }
    }
  }

  predicate Before(a: Span, b: Span) {
    a.start < b.start || (a.start == b.start && a.end <= b.end)
  }

  ghost predicate Sorted(spans: seq<Span>) {
    forall i: nat, j: nat | i < j < |spans| :: Before(spans[i], spans[j])
  }

  function InsertSpan(spans: seq<Span>, span: Span): seq<Span> {
    if spans == [] || Before(spans[|spans| - 1], span) then spans + [span]
    else InsertSpan(spans[..|spans| - 1], span) + [spans[|spans| - 1]]
  }

  function SortSpans(spans: seq<Span>): seq<Span> {
    if spans == [] then [] else InsertSpan(SortSpans(spans[..|spans| - 1]), spans[|spans| - 1])
  }

  lemma SortedAppend(spans: seq<Span>, span: Span)
    requires Sorted(spans) && forall i: nat | i < |spans| :: Before(spans[i], span)
    ensures Sorted(spans + [span])
  {
  }

  lemma {:induction false} InsertKeeps(spans: seq<Span>, span: Span)
    ensures multiset(InsertSpan(spans, span)) == multiset(spans) + multiset{span}
  {
    if spans != [] && !Before(spans[|spans| - 1], span) {
      InsertKeeps(spans[..|spans| - 1], span);
      assert spans == spans[..|spans| - 1] + [spans[|spans| - 1]];
    }
  }

  lemma {:induction false} InsertSorts(spans: seq<Span>, span: Span)
    requires Sorted(spans)
    ensures Sorted(InsertSpan(spans, span)) && multiset(InsertSpan(spans, span)) == multiset(spans) + multiset{span}
  {
    hide Sorted;
    InsertKeeps(spans, span);
    if spans != [] && !Before(spans[|spans| - 1], span) {
      var body, last := spans[..|spans| - 1], spans[|spans| - 1];
      assert body + [last] == spans;
      SortedBody(body, last);
      InsertSorts(body, span);
      var more := InsertSpan(body, span);
      forall i: nat | i < |more|
        ensures Before(more[i], last)
      {
        assert more[i] in multiset(body) + multiset{span};
      }
      SortedAppend(more, last);
    } else {
      BeforeAll(spans, span);
      SortedAppend(spans, span);
    }
  }

  lemma SortedBody(body: seq<Span>, last: Span)
    requires Sorted(body + [last])
    ensures Sorted(body) && forall x | x in body :: Before(x, last)
  {
    var spans := body + [last];
    forall i: nat, j: nat | i < j < |body|
      ensures Before(body[i], body[j])
    {
      assert Before(spans[i], spans[j]);
    }
    forall x | x in body
      ensures Before(x, last)
    {
      var i: nat :| i < |body| && body[i] == x;
      assert Before(spans[i], spans[|body|]);
    }
  }

  lemma BeforeAll(spans: seq<Span>, span: Span)
    requires Sorted(spans) && (spans != [] ==> Before(spans[|spans| - 1], span))
    ensures forall i: nat | i < |spans| :: Before(spans[i], span)
  {
    forall i: nat | i < |spans|
      ensures Before(spans[i], span)
    {
      assert i < |spans| - 1 ==> Before(spans[i], spans[|spans| - 1]);
    }
  }

  /** Sorting orders the spans and keeps each of them. */
  lemma {:induction false} SortSorts(spans: seq<Span>)
    ensures Sorted(SortSpans(spans)) && multiset(SortSpans(spans)) == multiset(spans)
  {
    if spans != [] {
      SortSorts(spans[..|spans| - 1]);
      InsertSorts(SortSpans(spans[..|spans| - 1]), spans[|spans| - 1]);
      assert spans == spans[..|spans| - 1] + [spans[|spans| - 1]];
    }
  }

  /** Between two spans there is at least one place that neither covers. */
  predicate Separated(spans: seq<Span>) {
    && (forall i: nat | i < |spans| :: spans[i].start < spans[i].end)
    && (forall i: nat | 0 < i < |spans| :: spans[i - 1].end < spans[i].start)
  }

  /** The span widened by one that starts inside it or right behind it. */
  lemma CoveredWiden(spans: seq<Span>, span: Span, end: nat, after: seq<Span>)
    requires spans != [] && spans[|spans| - 1].start <= span.start <= spans[|spans| - 1].end
    requires end == if spans[|spans| - 1].end < span.end then span.end else spans[|spans| - 1].end
    requires after == spans[|spans| - 1 := Span(spans[|spans| - 1].start, end)]
    ensures forall x: nat :: Covered(after, x) <==> Covered(spans, x) || span.start <= x < span.end
  {
    var last := |spans| - 1;
    var body, wide := spans[..last], Span(spans[last].start, end);
    assert spans == body + [spans[last]] && spans[last := wide] == body + [wide];
    CoveredPush(body, spans[last]);
    CoveredPush(body, wide);
  }

  /** Spans that are not empty, keep to the bytes and have clean ends. */
  ghost predicate ExactUnlessEmpty(raw: seq<byte>, spans: seq<Span>) {
    forall i: nat | i < |spans| && spans[i].start < spans[i].end :: Exact(raw, spans[i])
  }

  ghost predicate SameUnion(first: seq<Span>, second: seq<Span>) {
    forall x: nat :: Covered(first, x) <==> Covered(second, x)
  }

  /** No span from position i on starts before the last merged one. */
  ghost predicate Ahead(merged: seq<Span>, sorted: seq<Span>, i: nat) {
    merged != [] ==> forall k: nat | i <= k < |sorted| :: merged[|merged| - 1].start <= sorted[k].start
  }

  /** The first i spans are merged. */
  ghost predicate Merging(raw: seq<byte>, sorted: seq<Span>, i: nat, merged: seq<Span>)
    requires i <= |sorted|
  {
    && Separated(merged) && Ahead(merged, sorted, i) && SameUnion(merged, sorted[..i])
    && (ExactUnlessEmpty(raw, sorted) ==> AllExact(raw, merged))
  }

  lemma AheadNext(sorted: seq<Span>, i: nat, merged: seq<Span>)
    requires Sorted(sorted) && i < |sorted| && Ahead(merged, sorted, i)
    ensures Ahead(merged, sorted, i + 1) && forall k: nat | i < k < |sorted| :: sorted[i].start <= sorted[k].start
  {
    forall k: nat | i < k < |sorted|
      ensures sorted[i].start <= sorted[k].start
    {
      assert Before(sorted[i], sorted[k]);
    }
  }

  lemma UnionNext(sorted: seq<Span>, i: nat, merged: seq<Span>, after: seq<Span>)
    requires i < |sorted| && SameUnion(merged, sorted[..i])
    requires forall x: nat :: Covered(after, x) <==> Covered(merged, x) || sorted[i].start <= x < sorted[i].end
    ensures SameUnion(after, sorted[..i + 1])
  {
    hide Covered;
    assert sorted[..i + 1] == sorted[..i] + [sorted[i]];
    CoveredPush(sorted[..i], sorted[i]);
  }

  lemma MergeSkip(raw: seq<byte>, sorted: seq<Span>, i: nat, merged: seq<Span>)
    requires Sorted(sorted) && i < |sorted| && Merging(raw, sorted, i, merged) && sorted[i].start >= sorted[i].end
    ensures Merging(raw, sorted, i + 1, merged)
  {
    hide Separated, Ahead, SameUnion, Sorted, ExactUnlessEmpty, AllExact, Covered;
    AheadNext(sorted, i, merged);
    UnionNext(sorted, i, merged, merged);
  }

  lemma MergeAppend(raw: seq<byte>, sorted: seq<Span>, i: nat, merged: seq<Span>)
    requires Sorted(sorted) && i < |sorted| && Merging(raw, sorted, i, merged) && sorted[i].start < sorted[i].end
    requires merged != [] ==> merged[|merged| - 1].end < sorted[i].start
    ensures Merging(raw, sorted, i + 1, merged + [sorted[i]])
  {
    hide SameUnion, Sorted, Covered, Exact;
    AheadNext(sorted, i, merged);
    CoveredPush(merged, sorted[i]);
    UnionNext(sorted, i, merged, merged + [sorted[i]]);
  }

  lemma MergeWiden(raw: seq<byte>, sorted: seq<Span>, i: nat, merged: seq<Span>, end: nat)
    requires Sorted(sorted) && i < |sorted| && Merging(raw, sorted, i, merged) && sorted[i].start < sorted[i].end
    requires merged != [] && sorted[i].start <= merged[|merged| - 1].end
    requires end == if merged[|merged| - 1].end < sorted[i].end then sorted[i].end else merged[|merged| - 1].end
    ensures Merging(raw, sorted, i + 1, merged[|merged| - 1 := Span(merged[|merged| - 1].start, end)])
  {
    hide SameUnion, Sorted, Covered, Exact, Separated;
    AheadNext(sorted, i, merged);
    SeparatedWiden(merged, end);
    var after := merged[|merged| - 1 := Span(merged[|merged| - 1].start, end)];
    CoveredWiden(merged, sorted[i], end, after);
    UnionNext(sorted, i, merged, after);
    if ExactUnlessEmpty(raw, sorted) {
      WidenExact(raw, merged[|merged| - 1], sorted[i]);
    }
  }

  lemma MergeStart(raw: seq<byte>, sorted: seq<Span>)
    ensures Merging(raw, sorted, 0, [])
  {
    assert sorted[..0] == [];
  }

  lemma MergeEnd(raw: seq<byte>, spans: seq<Span>, sorted: seq<Span>, merged: seq<Span>)
    requires multiset(spans) == multiset(sorted) && Merging(raw, sorted, |sorted|, merged)
    ensures Separated(merged) && forall x: nat :: Covered(merged, x) <==> Covered(spans, x)
    ensures ExactUnlessEmpty(raw, spans) ==> AllExact(raw, merged)
  {
    hide Covered, Separated, AllExact, ExactUnlessEmpty, Ahead;
    assert sorted[..|sorted|] == sorted;
    SameCovered(spans, sorted);
    SortedExact(raw, spans, sorted);
  }

  /** The union of spans, as ordered spans with gaps between them. */
  method MergeSpans(spans: seq<Span>, ghost raw: seq<byte>) returns (merged: seq<Span>)
    ensures Separated(merged)
    ensures forall x: nat :: Covered(merged, x) <==> Covered(spans, x)
    ensures ExactUnlessEmpty(raw, spans) ==> AllExact(raw, merged)
  {
    hide Covered, Exact, Separated, Merging, Sorted, ExactUnlessEmpty, AllExact;
    var sorted := SortSpans(spans);
    SortSorts(spans);
    merged := [];
    MergeStart(raw, sorted);
    for i := 0 to |sorted|
      invariant Merging(raw, sorted, i, merged)
    {
      var span := sorted[i];
      if span.start >= span.end {
        MergeSkip(raw, sorted, i, merged);
        continue;
      }
      var last := |merged| - 1;
      if merged != [] && span.start <= merged[last].end {
        var end := if merged[last].end < span.end then span.end else merged[last].end;
        MergeWiden(raw, sorted, i, merged, end);
        merged := merged[last := Span(merged[last].start, end)];
        continue;
      }
      MergeAppend(raw, sorted, i, merged);
      merged := merged + [span];
    }
    MergeEnd(raw, spans, sorted, merged);
  }

  lemma SeparatedWiden(spans: seq<Span>, end: nat)
    requires Separated(spans) && spans != [] && spans[|spans| - 1].end <= end
    ensures Separated(spans[|spans| - 1 := Span(spans[|spans| - 1].start, end)])
  {
    var wide := spans[|spans| - 1 := Span(spans[|spans| - 1].start, end)];
    forall i: nat | 0 < i < |wide|
      ensures wide[i - 1].end < wide[i].start
    {
      assert spans[i - 1].end < spans[i].start;
    }
  }

  lemma WidenExact(raw: seq<byte>, first: Span, second: Span)
    requires Exact(raw, first) && Exact(raw, second)
    ensures Exact(raw, Span(first.start, if first.end < second.end then second.end else first.end))
  {
    hide Clean;
  }

  lemma SortedExact(raw: seq<byte>, spans: seq<Span>, sorted: seq<Span>)
    requires multiset(spans) == multiset(sorted)
    ensures ExactUnlessEmpty(raw, spans) ==> ExactUnlessEmpty(raw, sorted)
  {
    hide Exact;
    forall i: nat | i < |sorted| && ExactUnlessEmpty(raw, spans) && sorted[i].start < sorted[i].end
      ensures Exact(raw, sorted[i])
    {
      assert sorted[i] in multiset(spans);
    }
  }

  lemma SameCovered(spans: seq<Span>, sorted: seq<Span>)
    requires multiset(spans) == multiset(sorted)
    ensures forall x: nat :: Covered(spans, x) <==> Covered(sorted, x)
  {
    forall x: nat
      ensures Covered(spans, x) <==> Covered(sorted, x)
    {
      if Covered(spans, x) {
        var i: nat :| i < |spans| && spans[i].start <= x < spans[i].end;
        assert spans[i] in multiset(sorted);
      }
      if Covered(sorted, x) {
        var i: nat :| i < |sorted| && sorted[i].start <= x < sorted[i].end;
        assert sorted[i] in multiset(spans);
      }
    }
  }

  /** Hints collected by the scanner. */
  datatype Hints = Hints(hasBacktick: bool, mayContainUnmarkedCode: bool, mayContainInlineArtifact: bool)

  /** Separated spans that cover exactly the delimited code, the inferred code and the artifacts. */
  ghost predicate AutoSpans(raw: seq<byte>, hints: Hints, wholeFile: bool, select: seq<Span> -> seq<bool>,
                            looksLike: seq<byte> -> bool, merged: seq<Span>, explicit: seq<Span>, inferred: seq<Span>,
                            artifacts: seq<Span>)
  {
    && Separated(merged) && (forall x: nat :: Covered(merged, x) <==> Covered(explicit + inferred + artifacts, x))
    && ExplicitSpans(raw, explicit)
    && (if hints.mayContainUnmarkedCode then Inferred(raw, wholeFile, select, inferred) else inferred == [])
    && (if hints.mayContainInlineArtifact || hints.mayContainUnmarkedCode
        then forall span :: span in artifacts <==> Artifact(raw, looksLike, span)
        else artifacts == [])
  }

  /** The automatic code spans. The backtick search is only made on the hint, and with an exact
      hint that makes no difference; whatever the other hints, the spans are separated and cut
      no scalar. `wholeFile` stands for a script header, `select` for the choice of lines. */
  method AutoCodeSpans(raw: seq<byte>, hints: Hints, wholeFile: bool, select: seq<Span> -> seq<bool>,
                       looksLike: seq<byte> -> bool)
    returns (merged: seq<Span>, ghost explicit: seq<Span>, ghost inferred: seq<Span>, ghost artifacts: seq<Span>)
    requires hints.hasBacktick == (BACKTICK in raw)
    requires forall lines: seq<Span> :: |select(lines)| == |lines|
    ensures AllExact(raw, merged)
    ensures AutoSpans(raw, hints, wholeFile, select, looksLike, merged, explicit, inferred, artifacts)
  {
    hide Exact, Covered, Delimited, BacktickRun, Artifact, ExplicitSpans, Inferred;
    var spans: seq<Span> := [];
    NothingAccounted(raw);
    if hints.hasBacktick {
      spans := ExplicitCodeSpans(raw);
    }
    explicit, inferred, artifacts := spans, [], [];
    if hints.mayContainUnmarkedCode {
      var more := InferredSpans(raw, wholeFile, select);
      spans := spans + more;
      inferred := more;
    }
    if hints.mayContainInlineArtifact || hints.mayContainUnmarkedCode {
      var found := InlineArtifactSpans(raw, looksLike);
      spans := spans + found;
      artifacts := found;
    }
    assert spans == explicit + inferred + artifacts;
    merged := MergeSpans(spans, raw);
  }

  /** The whole file, or the lines that were selected. */
  ghost predicate Inferred(raw: seq<byte>, wholeFile: bool, select: seq<Span> -> seq<bool>, spans: seq<Span>) {
    if wholeFile && raw != [] then spans == [Span(0, |raw|)]
    else
      exists lines: seq<Span> :: AllLines(raw, lines) && Tiled(lines, 0, |raw|) && SelectedFrom(lines, select, spans)
  }

  ghost predicate SelectedFrom(lines: seq<Span>, select: seq<Span> -> seq<bool>, spans: seq<Span>) {
    |select(lines)| == |lines| && forall x: nat :: Covered(spans, x) <==> Chosen(lines, select(lines), |lines|, x)
  }

  method InferredSpans(raw: seq<byte>, wholeFile: bool, select: seq<Span> -> seq<bool>) returns (spans: seq<Span>)
    requires forall lines: seq<Span> :: |select(lines)| == |lines|
    ensures Inferred(raw, wholeFile, select, spans) && AllExact(raw, spans)
  {
    hide Exact, Covered, Chosen, IsLine;
    var lines := CodeLines(raw);
    if wholeFile && raw != [] {
      WholeIsExact(raw);
      return [Span(0, |raw|)];
    }
    spans := SelectedSpans(raw, lines, select(lines));
    assert SelectedFrom(lines, select, spans);
  }

  lemma WholeIsExact(raw: seq<byte>)
    requires raw != []
    ensures Exact(raw, Span(0, |raw|))
  {
  }
}
