/** Cutting lexical units at scalars, identifier parts and code spans. */
module Splitting {
  import opened Bytes
  import opened LexicalClasses
  import opened Text
  import opened Sorting
  import Scanner
  import CodeSpans

  datatype Mode = Turkish | Code | OpaqueMode

  datatype Requested = Auto | TurkishOnly | CodeOnly

  datatype Piece = Piece(start: nat, end: nat, kind: Kind, mode: Mode)

  /** The case tables that identifiers are cut by, left open. */
  datatype Cases = Cases(isLower: int -> bool, isUpper: int -> bool, isNumeric: int -> bool, isAlphanumeric: int -> bool)

  predicate Inside(codeSpans: seq<CodeSpans.Span>, start: nat, end: nat) {
    exists i: nat :: i < |codeSpans| && codeSpans[i].start <= start && end <= codeSpans[i].end
  }

  function EffectiveMode(start: nat, end: nat, kind: Kind, codeSpans: seq<CodeSpans.Span>, requested: Requested): Mode {
    if kind == Opaque || kind == Control then OpaqueMode
    else
      match requested
      case CodeOnly => Code
      case TurkishOnly => Turkish
      case Auto => if Inside(codeSpans, start, end) then Code else Turkish
  }

  /** The lexical units tile the bytes, and all but the opaque ones are text. */
  ghost predicate LexicalOk(raw: seq<byte>, lexical: seq<Scanner.Unit>) {
    && (forall i: nat | i < |lexical| ::
      && lexical[i].start < lexical[i].end <= |raw|
      && (lexical[i].kind != Opaque ==> IsText(raw, lexical[i].start, lexical[i].end)))
    && (forall i: nat | 0 < i < |lexical| :: lexical[i - 1].end == lexical[i].start)
    && if lexical == [] then |raw| == 0 else lexical[0].start == 0 && lexical[|lexical| - 1].end == |raw|
  }

  // -------------------------------------------------------------- identifier cuts

  predicate IsIdentifierSeparator(value: int) {
    value == '_' as int || value == '-' as int
  }

  /** A new part starts at a character: camel case, the last capital of an acronym, or a change
      between digits and letters. */
  predicate StartsPart(q: Cases, chars: seq<Char>, p: nat)
    requires 0 < p < |chars|
  {
    var previous, value := chars[p - 1].value, chars[p].value;
    || (q.isLower(previous) && q.isUpper(value))
    || (q.isUpper(previous) && q.isUpper(value) && p + 1 < |chars| && q.isLower(chars[p + 1].value))
    || (q.isNumeric(previous) != q.isNumeric(value) && q.isAlphanumeric(previous) && q.isAlphanumeric(value))
  }

  /** Whether the identifier is cut at x because of its character p. */
  predicate CutsAt(q: Cases, chars: seq<Char>, e: nat, p: nat, x: nat)
    requires p < |chars|
  {
    if IsIdentifierSeparator(chars[p].value) then
      (x == chars[p].start && p > 0) || (x == chars[p].end && x < e)
    else p > 0 && StartsPart(q, chars, p) && x == chars[p].start
  }

  /** The cuts in order. All of them lie inside, so nothing is dropped at the ends. */
  method IdentifierCuts(q: Cases, chars: seq<Char>, s: nat, e: nat) returns (cuts: seq<nat>)
    requires Adjoin(chars, s, e)
    ensures Increasing(cuts)
    ensures forall x: nat :: x in cuts <==> exists p: nat :: p < |chars| && CutsAt(q, chars, e, p, x)
    ensures forall x | x in cuts :: s < x < e
  {
    hide StartsPart;
    cuts := [];
    for position := 0 to |chars|
      invariant forall x: nat :: x in cuts <==> exists p: nat :: p < position && CutsAt(q, chars, e, p, x)
      invariant forall x | x in cuts :: s < x < e
    {
      AdjoinAt(chars, s, e, position);
      var c := chars[position];
      ghost var before := cuts;
      if IsIdentifierSeparator(c.value) {
        if position > 0 {
          cuts := cuts + [c.start];
        }
        if c.end < e {
          cuts := cuts + [c.end];
        }
      } else if position > 0 && StartsPart(q, chars, position) {
        cuts := cuts + [c.start];
      }
      assert forall x: nat :: x in cuts <==> x in before || CutsAt(q, chars, e, position, x);
    }
    SortDedupSorts(cuts);
    cuts := SortDedup(cuts);
  }

  lemma AdjoinAt(chars: seq<Char>, s: nat, e: nat, p: nat)
    requires Adjoin(chars, s, e) && p < |chars|
    ensures s <= chars[p].start < chars[p].end <= e && (p > 0 ==> s < chars[p].start)
  {
    if p > 0 {
      assert chars[p - 1].end == chars[p].start;
    }
  }

  // ------------------------------------------------------------------- boundaries

  predicate IsAsciiPunctuationByte(b: byte) {
    0x21 <= b <= 0x2F || 0x3A <= b <= 0x40 || 0x5B <= b <= 0x60 || 0x7B <= b <= 0x7E
  }

  /** Whether a unit is cut into single characters. */
  predicate SplitsScalars(raw: seq<byte>, unit: Scanner.Unit, mode: Mode)
    requires unit.start <= unit.end <= |raw|
  {
    || unit.kind == Punctuation
    || (mode == Turkish && unit.kind == Symbol
        && forall k: nat | unit.start <= k < unit.end :: IsAsciiPunctuationByte(raw[k]))
  }

  /** Whether a lexical unit on its own is cut at x. */
  ghost predicate InnerBoundary(raw: seq<byte>, q: Cases, unit: Scanner.Unit, mode: Mode, x: nat)
    requires unit.start <= unit.end <= |raw|
  {
    && IsText(raw, unit.start, unit.end)
    && var chars := CharsOf(raw, unit.start, unit.end).value;
      if SplitsScalars(raw, unit, mode) then exists p: nat :: 0 < p < |chars| && chars[p].start == x
      else
        && mode == Code && unit.kind in {Word, Number}
        && exists p: nat :: p < |chars| && CutsAt(q, chars, unit.end, p, x)
  }

  /** Whether the document is cut at x. */
  ghost predicate Boundary(raw: seq<byte>, q: Cases, lexical: seq<Scanner.Unit>, codeSpans: seq<CodeSpans.Span>,
                           requested: Requested, x: nat)
    requires LexicalOk(raw, lexical)
  {
    || (exists i: nat :: i < |lexical| && UnitBoundary(raw, q, lexical[i], codeSpans, requested, x))
    || (exists i: nat :: i < |codeSpans| && (x == codeSpans[i].start || x == codeSpans[i].end))
  }

  ghost predicate UnitBoundary(raw: seq<byte>, q: Cases, unit: Scanner.Unit, codeSpans: seq<CodeSpans.Span>,
                               requested: Requested, x: nat)
    requires unit.start <= unit.end <= |raw|
  {
    || x == unit.start || x == unit.end
    || InnerBoundary(raw, q, unit, EffectiveMode(unit.start, unit.end, unit.kind, codeSpans, requested), x)
  }

  // ------------------------------------------------------------------- the pieces

  ghost predicate PiecesTile(pieces: seq<Piece>, start: nat, end: nat) {
    && (forall i: nat | i < |pieces| :: start <= pieces[i].start < pieces[i].end <= end)
    && (forall i: nat | 0 < i < |pieces| :: pieces[i - 1].end == pieces[i].start)
    && if pieces == [] then start == end else pieces[0].start == start && pieces[|pieces| - 1].end == end
  }

  /** A piece lies in one lexical unit and takes its kind. */
  ghost predicate Placed(lexical: seq<Scanner.Unit>, codeSpans: seq<CodeSpans.Span>, requested: Requested, piece: Piece) {
    && (exists j: nat :: j < |lexical| && lexical[j].start <= piece.start && piece.end <= lexical[j].end
                         && piece.kind == lexical[j].kind)
    && piece.mode == EffectiveMode(piece.start, piece.end, piece.kind, codeSpans, requested)
  }

  ghost predicate Edge(pieces: seq<Piece>, x: nat) {
    exists i: nat :: i < |pieces| && (pieces[i].start == x || pieces[i].end == x)
  }

  /** What every splitter has to deliver: pieces that tile the bytes, cut exactly at the
      boundaries, each with the kind of its lexical unit and its own mode. */
  ghost predicate SplitSpec(raw: seq<byte>, q: Cases, lexical: seq<Scanner.Unit>, codeSpans: seq<CodeSpans.Span>,
                            requested: Requested, pieces: seq<Piece>)
    requires LexicalOk(raw, lexical)
  {
    && PiecesTile(pieces, 0, |raw|)
    && (forall i: nat | i < |pieces| :: Placed(lexical, codeSpans, requested, pieces[i]))
    && (forall x: nat :: Edge(pieces, x) <==> Boundary(raw, q, lexical, codeSpans, requested, x))
  }

  // -------------------------------------------------- what a correct split guarantees

  lemma {:induction false} PiecesIncrease(pieces: seq<Piece>, start: nat, end: nat, i: nat, j: nat)
    requires PiecesTile(pieces, start, end) && i < j < |pieces|
    ensures pieces[i].end <= pieces[j].start
    decreases j
  {
    assert pieces[j - 1].end == pieces[j].start;
    if i < j - 1 {
      PiecesIncrease(pieces, start, end, i, j - 1);
    }
  }

  /** Nothing is cut inside a piece. */
  lemma NoEdgeInside(pieces: seq<Piece>, start: nat, end: nat, i: nat, x: nat)
    requires PiecesTile(pieces, start, end) && i < |pieces| && pieces[i].start < x < pieces[i].end
    ensures !Edge(pieces, x)
  {
    forall k: nat | k < |pieces|
      ensures pieces[k].start != x && pieces[k].end != x
    {
      if k < i {
        PiecesIncrease(pieces, start, end, k, i);
      } else if i < k {
        PiecesIncrease(pieces, start, end, i, k);
      }
    }
  }

  /** Every piece lies wholly inside or wholly outside each code span. */
  lemma CodeSpansRespected(raw: seq<byte>, q: Cases, lexical: seq<Scanner.Unit>, codeSpans: seq<CodeSpans.Span>,
                           requested: Requested, pieces: seq<Piece>, i: nat, c: nat)
    requires LexicalOk(raw, lexical) && SplitSpec(raw, q, lexical, codeSpans, requested, pieces)
    requires i < |pieces| && c < |codeSpans| && codeSpans[c].start < codeSpans[c].end
    ensures || (codeSpans[c].start <= pieces[i].start && pieces[i].end <= codeSpans[c].end)
            || pieces[i].end <= codeSpans[c].start || codeSpans[c].end <= pieces[i].start
  {
    hide UnitBoundary, LexicalOk, Placed;
    var s, e := codeSpans[c].start, codeSpans[c].end;
    assert Boundary(raw, q, lexical, codeSpans, requested, s) && Boundary(raw, q, lexical, codeSpans, requested, e);
    if pieces[i].start < s < pieces[i].end {
      NoEdgeInside(pieces, 0, |raw|, i, s);
    }
    if pieces[i].start < e < pieces[i].end {
      NoEdgeInside(pieces, 0, |raw|, i, e);
    }
  }

  lemma {:induction false} LexicalIncrease(raw: seq<byte>, lexical: seq<Scanner.Unit>, i: nat, j: nat)
    requires LexicalOk(raw, lexical) && i < j < |lexical|
    ensures lexical[i].end <= lexical[j].start
    decreases j
  {
    hide IsText;
    assert lexical[j - 1].end == lexical[j].start;
    if i < j - 1 {
      LexicalIncrease(raw, lexical, i, j - 1);
    }
  }

  /** The characters a unit is cut at are where its text may be cut. */
  lemma InnerCut(raw: seq<byte>, q: Cases, unit: Scanner.Unit, mode: Mode, x: nat)
    requires unit.start <= unit.end <= |raw| && InnerBoundary(raw, q, unit, mode, x)
    ensures unit.start < x < unit.end && IsText(raw, unit.start, x)
  {
    hide StartsPart, CharsOf;
    var s, e := unit.start, unit.end;
    CharsAdjoin(raw, s, e);
    var chars := CharsOf(raw, s, e).value;
    if SplitsScalars(raw, unit, mode) {
      var p: nat :| 0 < p < |chars| && chars[p].start == x;
      AdjoinAt(chars, s, e, p);
      assert chars[p] in chars;
    } else {
      var p: nat :| p < |chars| && CutsAt(q, chars, e, p, x);
      AdjoinAt(chars, s, e, p);
      assert chars[p] in chars;
    }
    CharCut(raw, s, x, e);
  }

  lemma EmptyText(raw: seq<byte>, s: nat)
    requires s <= |raw|
    ensures IsText(raw, s, s)
  {
  }

  /** Every boundary inside a unit of text is a place where the text may be cut. */
  lemma BoundaryCut(raw: seq<byte>, q: Cases, lexical: seq<Scanner.Unit>, codeSpans: seq<CodeSpans.Span>,
                    requested: Requested, j: nat, x: nat)
    requires LexicalOk(raw, lexical) && CodeSpans.AllExact(raw, codeSpans)
    requires j < |lexical| && lexical[j].kind != Opaque && lexical[j].start <= x <= lexical[j].end
    requires Boundary(raw, q, lexical, codeSpans, requested, x)
    ensures IsText(raw, lexical[j].start, x)
  {
    hide InnerBoundary, CharsOf, Clean;
    var s, e := lexical[j].start, lexical[j].end;
    if x == s {
      EmptyText(raw, s);
    } else if x == e {
    } else if i: nat :| i < |codeSpans| && (x == codeSpans[i].start || x == codeSpans[i].end) {
      assert CodeSpans.Exact(raw, codeSpans[i]);
      CleanCut(raw, s, x, e);
    } else {
      var i: nat :| i < |lexical| && UnitBoundary(raw, q, lexical[i], codeSpans, requested, x);
      var mode := EffectiveMode(lexical[i].start, lexical[i].end, lexical[i].kind, codeSpans, requested);
      if InnerBoundary(raw, q, lexical[i], mode, x) {
        InnerCut(raw, q, lexical[i], mode, x);
      }
      if i < j {
        LexicalIncrease(raw, lexical, i, j);
      } else if j < i {
        LexicalIncrease(raw, lexical, j, i);
      }
    }
  }

  /** Every piece that is not opaque is text. */
  lemma PiecesAreText(raw: seq<byte>, q: Cases, lexical: seq<Scanner.Unit>, codeSpans: seq<CodeSpans.Span>,
                      requested: Requested, pieces: seq<Piece>, i: nat)
    requires LexicalOk(raw, lexical) && CodeSpans.AllExact(raw, codeSpans)
    requires SplitSpec(raw, q, lexical, codeSpans, requested, pieces)
    requires i < |pieces| && pieces[i].kind != Opaque
    ensures pieces[i].end <= |raw| && IsText(raw, pieces[i].start, pieces[i].end)
  {
    hide LexicalOk, CharsOf, CodeSpans.AllExact, Boundary;
    assert Placed(lexical, codeSpans, requested, pieces[i]);
    var j: nat :| j < |lexical| && lexical[j].start <= pieces[i].start && pieces[i].end <= lexical[j].end
                  && pieces[i].kind == lexical[j].kind;
    var a, b := pieces[i].start, pieces[i].end;
    assert Edge(pieces, a) && Edge(pieces, b);
    BoundaryCut(raw, q, lexical, codeSpans, requested, j, a);
    BoundaryCut(raw, q, lexical, codeSpans, requested, j, b);
    TextBetween(raw, lexical[j].start, a, b);
  }

  // ------------------------------------------------------------------ uniqueness

  /** Two tilings with the same edges have the same pieces, place by place. */
  lemma {:induction false} SameEdgesSamePlaces(first: seq<Piece>, second: seq<Piece>, end: nat, i: nat)
    requires PiecesTile(first, 0, end) && PiecesTile(second, 0, end)
    requires forall x: nat :: Edge(first, x) <==> Edge(second, x)
    requires i < |first|
    ensures i < |second| && second[i].start == first[i].start && second[i].end == first[i].end
    decreases i
  {
    if i == 0 {
      assert second != [];
    } else {
      SameEdgesSamePlaces(first, second, end, i - 1);
      assert first[i - 1].end == first[i].start;
      assert first[i].start < first[i].end <= end;
      if i < |second| {
        assert second[i - 1].end == second[i].start;
      }
    }
    if i < |second| {
      assert Edge(first, first[i].end) && Edge(second, second[i].end);
      if second[i].end < first[i].end {
        NoEdgeInside(first, 0, end, i, second[i].end);
      }
      if first[i].end < second[i].end {
        NoEdgeInside(second, 0, end, i, first[i].end);
      }
    }
  }

  lemma SameKind(raw: seq<byte>, lexical: seq<Scanner.Unit>, codeSpans: seq<CodeSpans.Span>, requested: Requested,
                 first: Piece, second: Piece)
    requires LexicalOk(raw, lexical) && first.start == second.start < first.end == second.end
    requires Placed(lexical, codeSpans, requested, first) && Placed(lexical, codeSpans, requested, second)
    ensures first == second
  {
    hide IsText;
    var i: nat :| i < |lexical| && lexical[i].start <= first.start && first.end <= lexical[i].end && first.kind == lexical[i].kind;
    var j: nat :| j < |lexical| && lexical[j].start <= second.start && second.end <= lexical[j].end && second.kind == lexical[j].kind;
    if i < j {
      LexicalIncrease(raw, lexical, i, j);
    } else if j < i {
      LexicalIncrease(raw, lexical, j, i);
    }
  }

  /** All correct splitters agree, so each of the specialised ones refines the general one. */
  lemma SplitUnique(raw: seq<byte>, q: Cases, lexical: seq<Scanner.Unit>, codeSpans: seq<CodeSpans.Span>,
                    requested: Requested, first: seq<Piece>, second: seq<Piece>)
    requires LexicalOk(raw, lexical)
    requires SplitSpec(raw, q, lexical, codeSpans, requested, first)
    requires SplitSpec(raw, q, lexical, codeSpans, requested, second)
    ensures first == second
  {
    hide LexicalOk, Boundary, Edge, Placed;
    if |second| > |first| {
      SameEdgesSamePlaces(second, first, |raw|, |first|);
    }
    if |first| > |second| {
      SameEdgesSamePlaces(first, second, |raw|, |second|);
    }
    forall i: nat | i < |first|
      ensures first[i] == second[i]
    {
      SameEdgesSamePlaces(first, second, |raw|, i);
      SameKind(raw, lexical, codeSpans, requested, first[i], second[i]);
    }
  }
}
