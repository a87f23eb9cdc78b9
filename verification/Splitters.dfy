/** The splitters: the general one over sorted boundaries, the one without code spans, and the
    streaming one for Turkish text. */
module Splitters {
  import opened Wrappers
  import opened Bytes
  import opened LexicalClasses
  import opened Text
  import opened Splitting
  import Scanner
  import opened Sorting
  import CodeSpans

  /** The least and the greatest boundary come first and last. */
  lemma BoundsFirstLast(xs: seq<nat>, low: nat, high: nat)
    requires Increasing(xs) && low in xs && high in xs && forall x | x in xs :: low <= x <= high
    ensures xs[0] == low && xs[|xs| - 1] == high
  {
    var i: nat :| i < |xs| && xs[i] == low;
    var j: nat :| j < |xs| && xs[j] == high;
    assert xs[0] in xs && xs[|xs| - 1] in xs;
    if i > 0 {
      IncreasingPairs(xs, 0, i);
    }
    if j < |xs| - 1 {
      IncreasingPairs(xs, j, |xs| - 1);
    }
  }

  /** Consecutive boundaries as pieces. */
  function Windows(bs: seq<nat>, kind: Kind, mode: Mode): seq<Piece> {
    seq(if bs == [] then 0 else |bs| - 1, i requires 0 <= i < |bs| - 1 => Piece(bs[i], bs[i + 1], kind, mode))
  }

  lemma WindowsTile(bs: seq<nat>, kind: Kind, mode: Mode)
    requires Increasing(bs) && |bs| >= 2
    ensures PiecesTile(Windows(bs, kind, mode), bs[0], bs[|bs| - 1])
    ensures forall x: nat :: Edge(Windows(bs, kind, mode), x) <==> x in bs
  {
    var pieces := Windows(bs, kind, mode);
    forall i: nat | i < |pieces|
      ensures bs[0] <= pieces[i].start < pieces[i].end <= bs[|bs| - 1]
    {
      assert bs[i + 1 - 1] < bs[i + 1];
      if i > 0 {
        IncreasingPairs(bs, 0, i);
      }
      if i + 1 < |bs| - 1 {
        IncreasingPairs(bs, i + 1, |bs| - 1);
      }
    }
    forall x: nat | x in bs
      ensures Edge(pieces, x)
    {
      var i: nat :| i < |bs| && bs[i] == x;
      if i < |bs| - 1 {
        assert pieces[i].start == x;
      } else {
        assert pieces[i - 1].end == x;
      }
    }
  }

  // ------------------------------------------------------------------ one unit

  /** The boundaries of one lexical unit, in the order they are found. */
  method UnitBoundaries(raw: seq<byte>, q: Cases, unit: Scanner.Unit, codeSpans: seq<CodeSpans.Span>, requested: Requested)
    returns (r: Option<seq<nat>>)
    requires unit.start < unit.end <= |raw| && (unit.kind != Opaque ==> IsText(raw, unit.start, unit.end))
    ensures r.Some? && forall x: nat :: x in r.value <==> UnitBoundary(raw, q, unit, codeSpans, requested, x)
  {
    hide CharsOf, CutsAt;
    var mode := EffectiveMode(unit.start, unit.end, unit.kind, codeSpans, requested);
    var boundaries := [unit.start, unit.end];
    if SplitsScalars(raw, unit, mode) {
      var starts := AddScalarBoundaries(raw, unit.start, unit.end);
      if starts.None? {
        return None;
      }
      boundaries := boundaries + starts.value;
    }
    if mode == Code && unit.kind in {Word, Number} {
      var chars := CharsOf(raw, unit.start, unit.end);
      if chars.None? {
        return None;
      }
      CharsAdjoin(raw, unit.start, unit.end);
      var cuts := IdentifierCuts(q, chars.value, unit.start, unit.end);
      boundaries := boundaries + cuts;
    }
    r := Some(boundaries);
  }

  method AddScalarBoundaries(raw: seq<byte>, start: nat, end: nat) returns (r: Option<seq<nat>>)
    requires start < end <= |raw|
    ensures r.Some? <==> IsText(raw, start, end)
    ensures r.Some? ==>
      forall x: nat :: x in r.value <==> exists p: nat :: 0 < p < |CharsOf(raw, start, end).value| && CharsOf(raw, start, end).value[p].start == x
  {
    hide CharsOf;
    var chars := CharsOf(raw, start, end);
    if chars.None? {
      return None;
    }
    CharsAdjoin(raw, start, end);
    var starts: seq<nat> := [];
    for p := 1 to |chars.value|
      invariant forall x: nat :: x in starts <==> exists k: nat :: 0 < k < p && chars.value[k].start == x
    {
      ghost var before := starts;
      starts := starts + [chars.value[p].start];
      assert forall x: nat :: x in starts <==> x in before || chars.value[p].start == x;
    }
    r := Some(starts);
  }

  lemma UnitBoundaryInside(raw: seq<byte>, q: Cases, unit: Scanner.Unit, codeSpans: seq<CodeSpans.Span>,
                           requested: Requested, x: nat)
    requires unit.start <= unit.end <= |raw| && UnitBoundary(raw, q, unit, codeSpans, requested, x)
    ensures unit.start <= x <= unit.end
  {
    hide InnerBoundary;
    var mode := EffectiveMode(unit.start, unit.end, unit.kind, codeSpans, requested);
    if InnerBoundary(raw, q, unit, mode, x) {
      InnerCut(raw, q, unit, mode, x);
    }
  }

  /** What the splitters without code spans do with one unit. */
  ghost predicate UnitPieces(raw: seq<byte>, q: Cases, unit: Scanner.Unit, requested: Requested, pieces: seq<Piece>)
    requires unit.start <= unit.end <= |raw|
  {
    && PiecesTile(pieces, unit.start, unit.end)
    && (forall i: nat | i < |pieces| ::
      pieces[i].kind == unit.kind && pieces[i].mode == EffectiveMode(unit.start, unit.end, unit.kind, [], requested))
    && (forall x: nat :: Edge(pieces, x) <==> UnitBoundary(raw, q, unit, [], requested, x))
  }

  method SplitUnit(raw: seq<byte>, q: Cases, unit: Scanner.Unit, requested: Requested) returns (r: Option<seq<Piece>>)
    requires unit.start < unit.end <= |raw| && (unit.kind != Opaque ==> IsText(raw, unit.start, unit.end))
    ensures r.Some? && UnitPieces(raw, q, unit, requested, r.value)
  {
    hide UnitBoundary, IsText;
    var mode := EffectiveMode(unit.start, unit.end, unit.kind, [], requested);
    var boundaries := UnitBoundaries(raw, q, unit, [], requested);
    if boundaries.None? {
      return None;
    }
    var sorted := SortDedup(boundaries.value);
    SortDedupSorts(boundaries.value);
    UnitBounds(raw, q, unit, requested, sorted);
    WindowsTile(sorted, unit.kind, mode);
    r := Some(Windows(sorted, unit.kind, mode));
  }

  lemma UnitBounds(raw: seq<byte>, q: Cases, unit: Scanner.Unit, requested: Requested, sorted: seq<nat>)
    requires unit.start < unit.end <= |raw| && Increasing(sorted)
    requires forall x: nat :: x in sorted <==> UnitBoundary(raw, q, unit, [], requested, x)
    ensures |sorted| >= 2 && sorted[0] == unit.start && sorted[|sorted| - 1] == unit.end
  {
    hide InnerBoundary;
    assert unit.start in sorted && unit.end in sorted;
    forall x | x in sorted
      ensures unit.start <= x <= unit.end
    {
      UnitBoundaryInside(raw, q, unit, [], requested, x);
    }
    BoundsFirstLast(sorted, unit.start, unit.end);
  }

  /** The streaming splitter for Turkish text: characters one behind the other, without a list
      of boundaries. */
  method TurkishPieces(raw: seq<byte>, q: Cases, unit: Scanner.Unit) returns (r: Option<seq<Piece>>)
    requires unit.start < unit.end <= |raw| && (unit.kind != Opaque ==> IsText(raw, unit.start, unit.end))
    ensures r.Some? && UnitPieces(raw, q, unit, TurkishOnly, r.value)
  {
    hide CharsOf;
    var mode := EffectiveMode(unit.start, unit.end, unit.kind, [], TurkishOnly);
    if !SplitsScalars(raw, unit, mode) {
      WholeUnit(raw, q, unit, mode);
      return Some([Piece(unit.start, unit.end, unit.kind, mode)]);
    }
    var chars := CharsOf(raw, unit.start, unit.end);
    if chars.None? {
      return None;
    }
    CharsAdjoin(raw, unit.start, unit.end);
    var pieces: seq<Piece> := [];
    for p := 0 to |chars.value|
      invariant |pieces| == p
      invariant forall i: nat | i < p :: pieces[i] == Piece(chars.value[i].start, chars.value[i].end, unit.kind, mode)
    {
      var start := chars.value[p].start;
      var end := if p + 1 < |chars.value| then chars.value[p + 1].start else unit.end;
      NextStart(chars.value, unit.start, unit.end, p);
      pieces := pieces + [Piece(start, end, unit.kind, mode)];
    }
    CharPieces(raw, q, unit, mode, chars.value, pieces);
    r := Some(pieces);
  }

  lemma NextStart(chars: seq<Char>, s: nat, e: nat, p: nat)
    requires Adjoin(chars, s, e) && p < |chars|
    ensures chars[p].end == if p + 1 < |chars| then chars[p + 1].start else e
  {
    if p + 1 < |chars| {
      assert chars[p + 1 - 1].end == chars[p + 1].start;
    }
  }

  lemma WholeUnit(raw: seq<byte>, q: Cases, unit: Scanner.Unit, mode: Mode)
    requires unit.start < unit.end <= |raw| && mode == EffectiveMode(unit.start, unit.end, unit.kind, [], TurkishOnly)
    requires !SplitsScalars(raw, unit, mode)
    ensures UnitPieces(raw, q, unit, TurkishOnly, [Piece(unit.start, unit.end, unit.kind, mode)])
  {
    hide CharsOf, SplitsScalars;
    var pieces := [Piece(unit.start, unit.end, unit.kind, mode)];
    assert pieces[0].start == unit.start;
  }

  lemma {:induction false} CharPieces(raw: seq<byte>, q: Cases, unit: Scanner.Unit, mode: Mode, chars: seq<Char>, pieces: seq<Piece>)
    requires unit.start < unit.end <= |raw| && mode == EffectiveMode(unit.start, unit.end, unit.kind, [], TurkishOnly)
    requires SplitsScalars(raw, unit, mode) && CharsOf(raw, unit.start, unit.end) == Some(chars)
    requires |pieces| == |chars|
    requires forall i: nat | i < |chars| :: pieces[i] == Piece(chars[i].start, chars[i].end, unit.kind, mode)
    ensures UnitPieces(raw, q, unit, TurkishOnly, pieces)
  {
    hide CharsOf, SplitsScalars;
    CharsAdjoin(raw, unit.start, unit.end);
    assert PiecesTile(pieces, unit.start, unit.end) by {
      forall i: nat | 0 < i < |pieces|
        ensures pieces[i - 1].end == pieces[i].start
      {
        assert chars[i - 1].end == chars[i].start;
      }
    }
    forall x: nat
      ensures Edge(pieces, x) <==> UnitBoundary(raw, q, unit, [], TurkishOnly, x)
    {
      CharEdge(unit, chars, pieces, x);
    }
  }

  /** The edges of character pieces are the ends of the unit and the starts of its characters. */
  lemma CharEdge(unit: Scanner.Unit, chars: seq<Char>, pieces: seq<Piece>, x: nat)
    requires unit.start < unit.end && Adjoin(chars, unit.start, unit.end) && |pieces| == |chars|
    requires forall i: nat | i < |chars| :: pieces[i].start == chars[i].start && pieces[i].end == chars[i].end
    ensures Edge(pieces, x)
       <==> x == unit.start || x == unit.end || exists p: nat :: 0 < p < |chars| && chars[p].start == x
  {
    if Edge(pieces, x) {
      var i: nat :| i < |pieces| && (pieces[i].start == x || pieces[i].end == x);
      NextStart(chars, unit.start, unit.end, i);
      if x == pieces[i].end && i + 1 < |chars| {
        assert chars[i + 1].start == x;
      }
    }
    assert pieces[0].start == unit.start && pieces[|pieces| - 1].end == unit.end;
    if p: nat :| 0 < p < |chars| && chars[p].start == x {
      assert pieces[p].start == x;
    }
  }

  // ------------------------------------------------------------- whole documents

  /** The pieces of the first n units. */
  ghost predicate SplitSoFar(raw: seq<byte>, q: Cases, lexical: seq<Scanner.Unit>, requested: Requested, n: nat,
                             pieces: seq<Piece>)
    requires LexicalOk(raw, lexical) && n <= |lexical|
  {
    && PiecesTile(pieces, 0, if n == 0 then 0 else lexical[n - 1].end)
    && (forall i: nat | i < |pieces| :: Placed(lexical, [], requested, pieces[i]))
    && (forall x: nat :: Edge(pieces, x) <==> exists k: nat :: k < n && UnitBoundary(raw, q, lexical[k], [], requested, x))
  }

  lemma EdgeConcat(first: seq<Piece>, second: seq<Piece>, x: nat)
    ensures Edge(first + second, x) <==> Edge(first, x) || Edge(second, x)
  {
    var all := first + second;
    if Edge(first, x) {
      var i: nat :| i < |first| && (first[i].start == x || first[i].end == x);
      assert all[i] == first[i];
    }
    if Edge(second, x) {
      var i: nat :| i < |second| && (second[i].start == x || second[i].end == x);
      assert all[|first| + i] == second[i];
    }
  }

  lemma TileConcat(first: seq<Piece>, second: seq<Piece>, start: nat, middle: nat, end: nat)
    requires PiecesTile(first, start, middle) && PiecesTile(second, middle, end) && start <= middle <= end
    ensures PiecesTile(first + second, start, end)
  {
    var all := first + second;
    forall i: nat | 0 < i < |all|
      ensures all[i - 1].end == all[i].start
    {
      if i > |first| {
        assert second[i - |first| - 1].end == second[i - |first|].start;
      }
    }
  }

  lemma UnitPlaced(raw: seq<byte>, q: Cases, lexical: seq<Scanner.Unit>, requested: Requested, n: nat, next: seq<Piece>, i: nat)
    requires LexicalOk(raw, lexical) && n < |lexical| && UnitPieces(raw, q, lexical[n], requested, next) && i < |next|
    ensures Placed(lexical, [], requested, next[i])
  {
    hide UnitBoundary, IsText, Edge;
    assert lexical[n].start <= next[i].start;
  }

  lemma SplitNext(raw: seq<byte>, q: Cases, lexical: seq<Scanner.Unit>, requested: Requested, n: nat,
                  before: seq<Piece>, next: seq<Piece>)
    requires LexicalOk(raw, lexical) && n < |lexical| && SplitSoFar(raw, q, lexical, requested, n, before)
    requires UnitPieces(raw, q, lexical[n], requested, next)
    ensures SplitSoFar(raw, q, lexical, requested, n + 1, before + next)
  {
    hide UnitBoundary, IsText, Edge, Placed, PiecesTile;
    if n > 0 {
      assert lexical[n - 1].end == lexical[n].start;
    }
    TileConcat(before, next, 0, lexical[n].start, lexical[n].end);
    forall i: nat | i < |next|
      ensures Placed(lexical, [], requested, next[i])
    {
      UnitPlaced(raw, q, lexical, requested, n, next, i);
    }
    SplitNextEdges(raw, q, lexical, requested, n, before, next);
  }

  lemma SplitNextEdges(raw: seq<byte>, q: Cases, lexical: seq<Scanner.Unit>, requested: Requested, n: nat,
                       before: seq<Piece>, next: seq<Piece>)
    requires LexicalOk(raw, lexical) && n < |lexical| && SplitSoFar(raw, q, lexical, requested, n, before)
    requires UnitPieces(raw, q, lexical[n], requested, next)
    ensures forall x: nat ::
      Edge(before + next, x) <==> exists k: nat :: k < n + 1 && UnitBoundary(raw, q, lexical[k], [], requested, x)
  {
    hide UnitBoundary, IsText, Edge, Placed, PiecesTile;
    forall x: nat
      ensures Edge(before + next, x) <==> exists k: nat :: k < n + 1 && UnitBoundary(raw, q, lexical[k], [], requested, x)
    {
      EdgeConcat(before, next, x);
    }
  }

  lemma SplitDone(raw: seq<byte>, q: Cases, lexical: seq<Scanner.Unit>, requested: Requested, pieces: seq<Piece>)
    requires LexicalOk(raw, lexical) && SplitSoFar(raw, q, lexical, requested, |lexical|, pieces)
    ensures SplitSpec(raw, q, lexical, [], requested, pieces)
  {
    hide UnitBoundary, IsText, Placed;
  }

  lemma SplitNone(raw: seq<byte>, q: Cases, lexical: seq<Scanner.Unit>, requested: Requested)
    requires LexicalOk(raw, lexical)
    ensures SplitSoFar(raw, q, lexical, requested, 0, [])
  {
  }

  method SplitUnitsWithoutCodeSpans(raw: seq<byte>, q: Cases, lexical: seq<Scanner.Unit>, requested: Requested)
    returns (r: Option<seq<Piece>>)
    requires LexicalOk(raw, lexical)
    ensures r.Some? && SplitSpec(raw, q, lexical, [], requested, r.value)
  {
    hide SplitSoFar, UnitPieces, SplitSpec, IsText;
    var pieces: seq<Piece> := [];
    SplitNone(raw, q, lexical, requested);
    for i := 0 to |lexical|
      invariant SplitSoFar(raw, q, lexical, requested, i, pieces)
    {
      var next := SplitUnit(raw, q, lexical[i], requested);
      if next.None? {
        return None;
      }
      SplitNext(raw, q, lexical, requested, i, pieces, next.value);
      pieces := pieces + next.value;
    }
    SplitDone(raw, q, lexical, requested, pieces);
    r := Some(pieces);
  }

  /** The streaming path for documents that are Turkish throughout. */
  method FixedTurkishUnits(raw: seq<byte>, q: Cases, lexical: seq<Scanner.Unit>) returns (r: Option<seq<Piece>>)
    requires LexicalOk(raw, lexical)
    ensures r.Some? && SplitSpec(raw, q, lexical, [], TurkishOnly, r.value)
  {
    hide SplitSoFar, UnitPieces, SplitSpec, IsText;
    var pieces: seq<Piece> := [];
    SplitNone(raw, q, lexical, TurkishOnly);
    for i := 0 to |lexical|
      invariant SplitSoFar(raw, q, lexical, TurkishOnly, i, pieces)
    {
      var next := TurkishPieces(raw, q, lexical[i]);
      if next.None? {
        return None;
      }
      SplitNext(raw, q, lexical, TurkishOnly, i, pieces, next.value);
      pieces := pieces + next.value;
    }
    SplitDone(raw, q, lexical, TurkishOnly, pieces);
    r := Some(pieces);
  }

  /** The general splitter: all boundaries of the document, sorted; a running index finds the
      lexical unit of each piece. */
  method SplitUnits(raw: seq<byte>, q: Cases, lexical: seq<Scanner.Unit>, codeSpans: seq<CodeSpans.Span>, requested: Requested)
    returns (r: Option<seq<Piece>>)
    requires LexicalOk(raw, lexical) && CodeSpans.AllExact(raw, codeSpans)
    ensures r.Some? && SplitSpec(raw, q, lexical, codeSpans, requested, r.value)
  {
    hide SplitSpec, IsText, Boundary, UnitBoundary, CodeSpans.AllExact, Increasing;
    if codeSpans == [] {
      r := SplitUnitsWithoutCodeSpans(raw, q, lexical, requested);
      return;
    }
    var boundaries := AllBoundaries(raw, q, lexical, codeSpans, requested);
    if boundaries.None? {
      return None;
    }
    var sorted := SortDedup(boundaries.value);
    SortDedupSorts(boundaries.value);
    DocumentBounds(raw, q, lexical, codeSpans, requested, sorted);
    var pieces: seq<Piece> := [];
    var source := 0;
    for i := 0 to |sorted| - 1
      invariant |pieces| == i && source < |lexical| && lexical[source].start <= sorted[i]
      invariant forall k: nat | k < i :: pieces[k].start == sorted[k] && pieces[k].end == sorted[k + 1]
      invariant forall k: nat | k < i :: Placed(lexical, codeSpans, requested, pieces[k])
    {
      Step(sorted, i);
      while source + 1 < |lexical| && lexical[source].end <= sorted[i]
        invariant source < |lexical| && lexical[source].start <= sorted[i]
      {
        assert lexical[source + 1 - 1].end == lexical[source + 1].start;
        source := source + 1;
      }
      InsideUnit(raw, q, lexical, codeSpans, requested, sorted, i, source);
      if sorted[i] < lexical[source].start || sorted[i + 1] > lexical[source].end {
        return None;
      }
      var kind := lexical[source].kind;
      var mode := EffectiveMode(sorted[i], sorted[i + 1], kind, codeSpans, requested);
      pieces := pieces + [Piece(sorted[i], sorted[i + 1], kind, mode)];
      assert Placed(lexical, codeSpans, requested, pieces[i]);
    }
    DocumentSplit(raw, q, lexical, codeSpans, requested, sorted, pieces);
    r := Some(pieces);
  }

  lemma Step(xs: seq<nat>, i: nat)
    requires Increasing(xs) && i + 1 < |xs|
    ensures xs[i] < xs[i + 1] && (i + 1 < |xs| - 1 ==> xs[i + 1] < xs[|xs| - 1])
  {
    assert xs[i + 1 - 1] < xs[i + 1];
    if i + 1 < |xs| - 1 {
      IncreasingPairs(xs, i + 1, |xs| - 1);
    }
  }

  ghost predicate SpanEnd(codeSpans: seq<CodeSpans.Span>, n: nat, x: nat)
    requires n <= |codeSpans|
  {
    exists k: nat :: k < n && (x == codeSpans[k].start || x == codeSpans[k].end)
  }

  method AllBoundaries(raw: seq<byte>, q: Cases, lexical: seq<Scanner.Unit>, codeSpans: seq<CodeSpans.Span>,
                       requested: Requested) returns (r: Option<seq<nat>>)
    requires LexicalOk(raw, lexical)
    ensures r.Some? && forall x: nat :: x in r.value <==> Boundary(raw, q, lexical, codeSpans, requested, x)
  {
    hide UnitBoundary, IsText;
    var boundaries: seq<nat> := [];
    for i := 0 to |lexical|
      invariant forall x: nat :: x in boundaries <==> exists k: nat :: k < i && UnitBoundary(raw, q, lexical[k], codeSpans, requested, x)
    {
      var next := UnitBoundaries(raw, q, lexical[i], codeSpans, requested);
      if next.None? {
        return None;
      }
      ghost var before := boundaries;
      boundaries := boundaries + next.value;
      assert forall x: nat :: x in boundaries <==> x in before || UnitBoundary(raw, q, lexical[i], codeSpans, requested, x);
    }
    ghost var units := boundaries;
    for i := 0 to |codeSpans|
      invariant forall x: nat :: x in boundaries <==> x in units || SpanEnd(codeSpans, i, x)
    {
      ghost var before := boundaries;
      boundaries := boundaries + [codeSpans[i].start, codeSpans[i].end];
      assert forall x: nat :: x in boundaries <==> x in before || x == codeSpans[i].start || x == codeSpans[i].end;
    }
    r := Some(boundaries);
  }

  lemma DocumentBounds(raw: seq<byte>, q: Cases, lexical: seq<Scanner.Unit>, codeSpans: seq<CodeSpans.Span>,
                       requested: Requested, sorted: seq<nat>)
    requires LexicalOk(raw, lexical) && CodeSpans.AllExact(raw, codeSpans) && codeSpans != []
    requires Increasing(sorted)
    requires forall x: nat :: x in sorted <==> Boundary(raw, q, lexical, codeSpans, requested, x)
    ensures lexical != [] && |sorted| >= 2 && sorted[0] == 0 && sorted[|sorted| - 1] == |raw|
  {
    hide InnerBoundary, IsText, Clean;
    assert CodeSpans.Exact(raw, codeSpans[0]);
    assert UnitBoundary(raw, q, lexical[0], codeSpans, requested, 0);
    assert UnitBoundary(raw, q, lexical[|lexical| - 1], codeSpans, requested, |raw|);
    assert Boundary(raw, q, lexical, codeSpans, requested, 0) && Boundary(raw, q, lexical, codeSpans, requested, |raw|);
    forall x | x in sorted
      ensures 0 <= x <= |raw|
    {
      BoundaryInBytes(raw, q, lexical, codeSpans, requested, x);
    }
    BoundsFirstLast(sorted, 0, |raw|);
  }

  lemma BoundaryInBytes(raw: seq<byte>, q: Cases, lexical: seq<Scanner.Unit>, codeSpans: seq<CodeSpans.Span>,
                        requested: Requested, x: nat)
    requires LexicalOk(raw, lexical) && CodeSpans.AllExact(raw, codeSpans)
    requires Boundary(raw, q, lexical, codeSpans, requested, x)
    ensures x <= |raw|
  {
    hide UnitBoundary, IsText, Clean;
    if i: nat :| i < |codeSpans| && (x == codeSpans[i].start || x == codeSpans[i].end) {
      assert CodeSpans.Exact(raw, codeSpans[i]);
    } else {
      var i: nat :| i < |lexical| && UnitBoundary(raw, q, lexical[i], codeSpans, requested, x);
      UnitBoundaryInside(raw, q, lexical[i], codeSpans, requested, x);
    }
  }

  /** The next boundary never lies behind the end of the unit that the piece starts in. */
  lemma InsideUnit(raw: seq<byte>, q: Cases, lexical: seq<Scanner.Unit>, codeSpans: seq<CodeSpans.Span>,
                   requested: Requested, sorted: seq<nat>, i: nat, source: nat)
    requires LexicalOk(raw, lexical) && source < |lexical|
    requires i + 1 < |sorted| && lexical[source].start <= sorted[i] && Increasing(sorted) && sorted[|sorted| - 1] == |raw|
    requires source + 1 == |lexical| || lexical[source].end > sorted[i]
    requires forall x: nat :: x in sorted <==> Boundary(raw, q, lexical, codeSpans, requested, x)
    ensures sorted[i + 1] <= lexical[source].end
  {
    hide InnerBoundary, IsText, Increasing;
    var end := lexical[source].end;
    Step(sorted, i);
    if source + 1 < |lexical| {
      assert UnitBoundary(raw, q, lexical[source], codeSpans, requested, end);
      assert Boundary(raw, q, lexical, codeSpans, requested, end);
      var j: nat :| j < |sorted| && sorted[j] == end;
      if j <= i && j < i {
        IncreasingPairs(sorted, j, i);
      }
      if i + 1 < j {
        IncreasingPairs(sorted, i + 1, j);
      }
    }
  }

  lemma DocumentSplit(raw: seq<byte>, q: Cases, lexical: seq<Scanner.Unit>, codeSpans: seq<CodeSpans.Span>,
                      requested: Requested, sorted: seq<nat>, pieces: seq<Piece>)
    requires LexicalOk(raw, lexical) && Increasing(sorted)
    requires |sorted| >= 2 && sorted[0] == 0 && sorted[|sorted| - 1] == |raw| && |pieces| == |sorted| - 1
    requires forall x: nat :: x in sorted <==> Boundary(raw, q, lexical, codeSpans, requested, x)
    requires forall k: nat | k < |pieces| :: pieces[k].start == sorted[k] && pieces[k].end == sorted[k + 1]
    requires forall k: nat | k < |pieces| :: Placed(lexical, codeSpans, requested, pieces[k])
    ensures SplitSpec(raw, q, lexical, codeSpans, requested, pieces)
  {
    hide Boundary, Placed, Increasing, LexicalOk;
    var windows := Windows(sorted, Word, Turkish);
    WindowsTile(sorted, Word, Turkish);
    SamePlaces(windows, pieces, |raw|);
  }

  lemma SamePlaces(first: seq<Piece>, second: seq<Piece>, end: nat)
    requires |first| == |second| && PiecesTile(first, 0, end)
    requires forall k: nat | k < |first| :: first[k].start == second[k].start && first[k].end == second[k].end
    ensures PiecesTile(second, 0, end) && forall x: nat :: Edge(second, x) <==> Edge(first, x)
  {
    forall i: nat | 0 < i < |second|
      ensures second[i - 1].end == second[i].start
    {
      assert first[i - 1].end == first[i].start;
    }
    forall x: nat
      ensures Edge(second, x) <==> Edge(first, x)
    {
      if Edge(first, x) {
        var i: nat :| i < |first| && (first[i].start == x || first[i].end == x);
        assert second[i].start == x || second[i].end == x;
      }
    }
  }
}
