/** Where tokens are cut, told from their characters. */
module CutMeaning {
  import opened Wrappers
  import opened Bytes
  import opened LexicalClasses
  import opened Text
  import opened Splitting
  import opened Alignment
  import opened Document
  import opened Pipeline
  import Scanner
  import CodeSpans

  // ------------------------------------------------------------ identifiers and numbers

  /** An identifier is cut around underscores and hyphens, before a capital behind a small letter, before
      the last capital of several that a small letter follows, and between digits and letters. */
  ghost predicate IdentifierCut(q: Cases, chars: seq<Char>, x: nat) {
    exists p: nat :: p < |chars| && IdentifierCutAt(q, chars, p, x)
  }

  predicate IdentifierCutAt(q: Cases, chars: seq<Char>, p: nat, x: nat)
    requires p < |chars|
  {
    var c := chars[p];
    if c.value == 0x5F || c.value == 0x2D then (x == c.start && p > 0) || (x == c.end && p + 1 < |chars|)
    else
      && p > 0 && x == c.start
      && var b := chars[p - 1];
        || (q.isLower(b.value) && q.isUpper(c.value))
        || (q.isUpper(b.value) && q.isUpper(c.value) && p + 1 < |chars| && q.isLower(chars[p + 1].value))
        || (q.isNumeric(b.value) && !q.isNumeric(c.value) && q.isAlphanumeric(b.value) && q.isAlphanumeric(c.value))
        || (!q.isNumeric(b.value) && q.isNumeric(c.value) && q.isAlphanumeric(b.value) && q.isAlphanumeric(c.value))
  }

  lemma IdentifierCutIs(q: Cases, chars: seq<Char>, s: nat, e: nat, p: nat, x: nat)
    requires Adjoin(chars, s, e) && p < |chars|
    ensures CutsAt(q, chars, e, p, x) <==> IdentifierCutAt(q, chars, p, x)
  {
    hide Adjoin;
    AdjoinLast(chars, s, e, p);
  }

  lemma AdjoinLast(chars: seq<Char>, s: nat, e: nat, p: nat)
    requires Adjoin(chars, s, e) && p < |chars|
    ensures chars[p].end < e <==> p + 1 < |chars|
  {
    if p + 1 < |chars| {
      AdjoinAt(chars, s, e, p + 1);
      assert chars[p + 1 - 1].end == chars[p + 1].start;
    }
  }

  /** A number is cut on both sides of a full stop, comma, colon, slash or hyphen between two digits. */
  ghost predicate NumberCut(isNumeric: int -> bool, chars: seq<Char>, x: nat) {
    exists p: nat :: 0 < p < |chars| - 1 && NumberCutAt(isNumeric, chars, p, x)
  }

  predicate NumberCutAt(isNumeric: int -> bool, chars: seq<Char>, p: nat, x: nat)
    requires 0 < p < |chars| - 1
  {
    && (chars[p].value == 0x2E || chars[p].value == 0x2C || chars[p].value == 0x3A || chars[p].value == 0x2F
        || chars[p].value == 0x2D)
    && isNumeric(chars[p - 1].value) && isNumeric(chars[p + 1].value)
    && (x == chars[p].start || x == chars[p].end)
  }

  lemma NumberCutIs(isNumeric: int -> bool, chars: seq<Char>, x: nat)
    ensures NumericCut(isNumeric, chars, |chars|, x) <==> NumberCut(isNumeric, chars, x)
  {
    if NumericCut(isNumeric, chars, |chars|, x) {
      var i: nat :| i < |chars| && BetweenDigits(isNumeric, chars, i) && (x == chars[i].start || x == chars[i].end);
      assert NumberCutAt(isNumeric, chars, i, x);
    }
    if NumberCut(isNumeric, chars, x) {
      var p: nat :| 0 < p < |chars| - 1 && NumberCutAt(isNumeric, chars, p, x);
      assert BetweenDigits(isNumeric, chars, p);
    }
  }

  // ------------------------------------------------------------ pieces

  /** Opaque and control units are passed through; otherwise the mode that is asked for decides, and in the
      automatic one what lies inside a code span is code. */
  ghost predicate ModeOf(kind: Kind, start: nat, end: nat, codeSpans: seq<CodeSpans.Span>, requested: Requested, mode: Mode) {
    mode ==
      if kind.Opaque? || kind.Control? then OpaqueMode
      else if requested.CodeOnly? then Code
      else if requested.TurkishOnly? then Turkish
      else if exists i: nat :: i < |codeSpans| && codeSpans[i].start <= start && end <= codeSpans[i].end then Code
      else Turkish
  }

  /** Punctuation is cut into characters, and so are Turkish symbols of ASCII punctuation. */
  predicate CutIntoCharacters(raw: seq<byte>, unit: Scanner.Unit, mode: Mode) {
    || unit.kind.Punctuation?
    || (mode.Turkish? && unit.kind.Symbol?
        && forall k: nat | unit.start <= k < unit.end :: k < |raw| && PunctuationByte(raw[k]))
  }

  predicate PunctuationByte(b: byte) {
    0x21 <= b < 0x30 || 0x39 < b < 0x41 || 0x5A < b < 0x61 || 0x7A < b < 0x7F
  }

  /** The document is cut at the edges of code spans and of lexical units, between the characters of units
      that are cut into characters, and inside identifiers and numbers of code. */
  ghost predicate DocumentCut(raw: seq<byte>, q: Cases, lexical: seq<Scanner.Unit>, codeSpans: seq<CodeSpans.Span>,
                              requested: Requested, x: nat)
  {
    || (exists i: nat :: i < |codeSpans| && (x == codeSpans[i].start || x == codeSpans[i].end))
    || (exists i: nat :: i < |lexical| && UnitCut(raw, q, lexical[i], codeSpans, requested, x))
  }

  ghost predicate UnitCut(raw: seq<byte>, q: Cases, unit: Scanner.Unit, codeSpans: seq<CodeSpans.Span>,
                          requested: Requested, x: nat)
  {
    || x == unit.start || x == unit.end
    || (unit.start <= unit.end <= |raw| && IsText(raw, unit.start, unit.end) &&
        exists mode: Mode :: ModeOf(unit.kind, unit.start, unit.end, codeSpans, requested, mode) &&
          var chars := CharsOf(raw, unit.start, unit.end).value;
          if CutIntoCharacters(raw, unit, mode) then exists p: nat :: 0 < p < |chars| && chars[p].start == x
          else mode.Code? && (unit.kind.Word? || unit.kind.Number?) && IdentifierCut(q, chars, x))
  }

  lemma ModeIs(kind: Kind, start: nat, end: nat, codeSpans: seq<CodeSpans.Span>, requested: Requested, mode: Mode)
    ensures ModeOf(kind, start, end, codeSpans, requested, mode) <==> mode == EffectiveMode(start, end, kind, codeSpans, requested)
  {
  }

  lemma CharactersAre(raw: seq<byte>, unit: Scanner.Unit, mode: Mode)
    requires unit.start <= unit.end <= |raw|
    ensures SplitsScalars(raw, unit, mode) <==> CutIntoCharacters(raw, unit, mode)
  {
  }

  lemma UnitCutIs(raw: seq<byte>, q: Cases, unit: Scanner.Unit, codeSpans: seq<CodeSpans.Span>, requested: Requested, x: nat)
    requires unit.start < unit.end <= |raw|
    ensures UnitBoundary(raw, q, unit, codeSpans, requested, x) <==> UnitCut(raw, q, unit, codeSpans, requested, x)
  {
    hide ModeOf, EffectiveMode, SplitsScalars, CutIntoCharacters, CharsOf, CutsAt, IdentifierCutAt, Adjoin;
    var mode := EffectiveMode(unit.start, unit.end, unit.kind, codeSpans, requested);
    forall other: Mode
      ensures ModeOf(unit.kind, unit.start, unit.end, codeSpans, requested, other) <==> other == mode
    {
      ModeIs(unit.kind, unit.start, unit.end, codeSpans, requested, other);
    }
    CharactersAre(raw, unit, mode);
    if IsText(raw, unit.start, unit.end) {
      CharsAdjoin(raw, unit.start, unit.end);
      var chars := CharsOf(raw, unit.start, unit.end).value;
      forall p: nat | p < |chars|
        ensures CutsAt(q, chars, unit.end, p, x) <==> IdentifierCutAt(q, chars, p, x)
      {
        IdentifierCutIs(q, chars, unit.start, unit.end, p, x);
      }
    }
  }

  /** The boundaries of the splitters are these cuts. */
  lemma DocumentCutIs(raw: seq<byte>, q: Cases, lexical: seq<Scanner.Unit>, codeSpans: seq<CodeSpans.Span>,
                      requested: Requested, x: nat)
    requires LexicalOk(raw, lexical)
    ensures Boundary(raw, q, lexical, codeSpans, requested, x) <==> DocumentCut(raw, q, lexical, codeSpans, requested, x)
  {
    hide UnitBoundary, UnitCut, IsText;
    forall i: nat | i < |lexical|
      ensures UnitBoundary(raw, q, lexical[i], codeSpans, requested, x) <==> UnitCut(raw, q, lexical[i], codeSpans, requested, x)
    {
      UnitCutIs(raw, q, lexical[i], codeSpans, requested, x);
    }
  }
}
