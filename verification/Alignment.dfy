/** Alignment of the morphemes of an analysis with the bytes of its token. */
module Alignment {
  import opened Wrappers
  import opened LosslessFormat
  import opened Text
  import Sorting

  /** Surfaces are sequences of scalar values. */
  datatype NativeMorpheme = NativeMorpheme(id: string, surface: seq<int>, derivational: bool)

  datatype NativeAnalysis = NativeAnalysis(
    canonical: string, dictionaryId: string, lexeme: string, primaryPos: string, secondaryPos: string,
    morphemes: seq<NativeMorpheme>)

  datatype AlignedMorpheme = AlignedMorpheme(id: string, surface: seq<int>, start: nat, end: nat, derivational: bool)

  /** Lower-casing of a scalar to one scalar, if it has one, and the test for abbreviations with
      dots; both rest on Unicode tables that are left open. */
  datatype Language = Language(normalize: int -> Option<int>, isDotted: seq<int> -> bool)

  predicate IsApostrophe(value: int) {
    value in {'\'' as int, 0x2018, 0x2019, 0x02BC, 0xFF07}
  }

  predicate IgnoresDots(l: Language, values: seq<int>, analysis: NativeAnalysis) {
    analysis.secondaryPos == "RegAbbrv" || l.isDotted(values)
  }

  /** The characters that morphemes are made of: no apostrophes, no ignored dots. */
  predicate Keeps(c: Char, ignoreDots: bool) {
    !IsApostrophe(c.value) && !(ignoreDots && c.value == '.' as int)
  }

  function Kept(chars: seq<Char>, ignoreDots: bool): seq<Char> {
    if chars == [] then []
    else
      var last := chars[|chars| - 1];
      Kept(chars[..|chars| - 1], ignoreDots) + if Keeps(last, ignoreDots) then [last] else []
  }

  function NormalizedAll(l: Language, values: seq<int>): (r: Option<seq<int>>)
    ensures r.Some? ==> |r.value| == |values|
  {
    if values == [] then Some([])
    else
      var body := NormalizedAll(l, values[..|values| - 1]);
      var last := l.normalize(values[|values| - 1]);
      if body.None? || last.None? then None else Some(body.value + [last.value])
  }

  /** All surfaces one behind the other. */
  function Target(morphemes: seq<NativeMorpheme>): seq<int> {
    if morphemes == [] then [] else Target(morphemes[..|morphemes| - 1]) + morphemes[|morphemes| - 1].surface
  }

  function Offset(morphemes: seq<NativeMorpheme>, k: nat): nat
    requires k <= |morphemes|
  {
    if k == 0 then 0 else Offset(morphemes, k - 1) + |morphemes[k - 1].surface|
  }

  // ------------------------------------------------------------ when surfaces match

  function ForeignToTurkish(value: int): int {
    if value in {0xE0, 0xE1, 0xE3, 0xE4, 0xE5} then 'a' as int
    else if value in {0xE8, 0xE9, 0xEA, 0xEB} then 'e' as int
    else if value in {0xEC, 0xED, 0xEF} then 'i' as int
    else if value == 0xF1 then 'n' as int
    else if value in {0xF2, 0xF3, 0xF4, 0xF5} then 'o' as int
    else if value in {0xF9, 0xFA} then 'u' as int
    else value
  }

  /** The letters the runtime alphabet knows; everything else counts as a question mark. */
  function RuntimeNormalized(value: int): int {
    if || 'a' as int <= value <= 'z' as int
       || value in {0xE7, 0x11F, 0x131, 0xF6, 0x15F, 0xFC, 0xE2, 0xEE, 0xFB, '.' as int, '-' as int}
    then value
    else '?' as int
  }

  function MapAll(f: int -> int, values: seq<int>): (r: seq<int>)
    ensures |r| == |values|
  {
    seq(|values|, i requires 0 <= i < |values| => f(values[i]))
  }

  predicate NormalizationMatches(actual: seq<int>, expected: seq<int>)
    ensures NormalizationMatches(actual, expected) ==> |actual| == |expected|
  {
    || actual == expected
    || MapAll(ForeignToTurkish, actual) == expected
    || MapAll(RuntimeNormalized, MapAll(ForeignToTurkish, actual)) == expected
  }

  /** Why an analysis cannot be aligned: its surfaces differ from the token, or a character of
      either has no normalisation to a single character. */
  datatype AlignError = AlignmentMismatch | UnsupportedNormalization

  /** Whether all characters that are compared have a normalisation. */
  predicate Normalizes(l: Language, chars: seq<Char>, analysis: NativeAnalysis) {
    && NormalizedAll(l, Values(Kept(chars, IgnoresDots(l, Values(chars), analysis)))).Some?
    && NormalizedAll(l, Target(analysis.morphemes)).Some?
  }

  /** The error for an analysis that cannot be aligned. */
  function AlignRefusal(l: Language, chars: seq<Char>, analysis: NativeAnalysis): AlignError {
    if Normalizes(l, chars, analysis) then AlignmentMismatch else UnsupportedNormalization
  }

  /** Whether an analysis can be aligned with a token; this depends on the characters only, not
      on where the token stands. */
  predicate Aligns(l: Language, chars: seq<Char>, analysis: NativeAnalysis) {
    var actual := NormalizedAll(l, Values(Kept(chars, IgnoresDots(l, Values(chars), analysis))));
    var expected := NormalizedAll(l, Target(analysis.morphemes));
    actual.Some? && expected.Some? && NormalizationMatches(actual.value, expected.value)
  }

  lemma {:induction false} KeptByValue(first: seq<Char>, second: seq<Char>, ignoreDots: bool)
    requires Values(first) == Values(second)
    ensures Values(Kept(first, ignoreDots)) == Values(Kept(second, ignoreDots))
  {
    assert |Values(first)| == |Values(second)|;
    if first != [] {
      var left, right := first[..|first| - 1], second[..|second| - 1];
      assert Values(left) == Values(first)[..|first| - 1] && Values(right) == Values(second)[..|second| - 1];
      KeptByValue(left, right, ignoreDots);
      assert Values(first)[|first| - 1] == Values(second)[|second| - 1];
      ValuesPush(Kept(left, ignoreDots), first[|first| - 1]);
      ValuesPush(Kept(right, ignoreDots), second[|second| - 1]);
    }
  }

  lemma ValuesPush(chars: seq<Char>, c: Char)
    ensures Values(chars + [c]) == Values(chars) + [c.value] && chars + [] == chars
  {
  }

  lemma AlignsByValue(l: Language, first: seq<Char>, second: seq<Char>, analysis: NativeAnalysis)
    requires Values(first) == Values(second)
    ensures Aligns(l, first, analysis) == Aligns(l, second, analysis)
  {
    KeptByValue(first, second, IgnoresDots(l, Values(first), analysis));
  }

  // --------------------------------------------------------------- what is aligned

  /** Kept characters come in order and inside the token. */
  ghost predicate InOrder(kept: seq<Char>, s: nat, e: nat) {
    && (forall i: nat | i < |kept| :: s <= kept[i].start < kept[i].end <= e)
    && (forall i: nat, j: nat | i < j < |kept| :: kept[i].end <= kept[j].start)
  }

  lemma {:induction false} KeptInOrder(chars: seq<Char>, ignoreDots: bool, s: nat, e: nat)
    requires Adjoin(chars, s, e)
    ensures InOrder(Kept(chars, ignoreDots), s, e)
  {
    if chars != [] {
      var body, last := chars[..|chars| - 1], chars[|chars| - 1];
      AdjoinBody(chars, s, e);
      KeptInOrder(body, ignoreDots, s, last.start);
    }
  }

  lemma AdjoinBody(chars: seq<Char>, s: nat, e: nat)
    requires Adjoin(chars, s, e) && chars != []
    ensures Adjoin(chars[..|chars| - 1], s, chars[|chars| - 1].start)
    ensures s <= chars[|chars| - 1].start < chars[|chars| - 1].end == e
  {
    var body, last := chars[..|chars| - 1], chars[|chars| - 1];
    if body != [] {
      assert chars[|chars| - 1 - 1].end == chars[|chars| - 1].start;
    }
    forall i: nat | i < |body|
      ensures body[i].end <= last.start
    {
      AdjoinOrder(chars, s, e, i, |chars| - 1);
    }
  }

  lemma {:induction false} AdjoinOrder(chars: seq<Char>, s: nat, e: nat, i: nat, j: nat)
    requires Adjoin(chars, s, e) && i < j < |chars|
    ensures chars[i].end <= chars[j].start
    decreases j
  {
    assert chars[j - 1].end == chars[j].start;
    if i < j - 1 {
      AdjoinOrder(chars, s, e, i, j - 1);
    }
  }

  /** The place behind the first n kept characters. */
  function Behind(kept: seq<Char>, s: nat, n: nat): nat
    requires n <= |kept|
  {
    if n == 0 then s else kept[n - 1].end
  }

  /** A morpheme spans exactly the characters of its surface; an empty one stands behind those
      before it. */
  ghost predicate Spans(kept: seq<Char>, s: nat, offset: nat, m: NativeMorpheme, a: AlignedMorpheme)
    requires offset + |m.surface| <= |kept|
  {
    && a.id == m.id && a.surface == m.surface && a.derivational == m.derivational
    && a.start == (if m.surface == [] then Behind(kept, s, offset) else kept[offset].start)
    && a.end == Behind(kept, s, offset + |m.surface|)
  }

  /** The invariants that documents demand of aligned morphemes. */
  predicate MorphemesOk(s: nat, e: nat, morphemes: seq<AlignedMorpheme>) {
    && (forall i: nat | i < |morphemes| ::
      && s <= morphemes[i].start <= morphemes[i].end <= e
      && (morphemes[i].surface == [] <==> morphemes[i].start == morphemes[i].end))
    && (forall i: nat | 0 < i < |morphemes| :: morphemes[i - 1].end <= morphemes[i].start)
  }

  ghost predicate AllSpan(kept: seq<Char>, s: nat, ms: seq<NativeMorpheme>, aligned: seq<AlignedMorpheme>)
  {
    && |aligned| <= |ms| && Offset(ms, |aligned|) <= |kept|
    && forall i: nat | i < |aligned| ::
      Offset(ms, i) + |ms[i].surface| <= |kept| && Spans(kept, s, Offset(ms, i), ms[i], aligned[i])
  }

  lemma SpansAreOk(kept: seq<Char>, s: nat, e: nat, ms: seq<NativeMorpheme>, aligned: seq<AlignedMorpheme>)
    requires InOrder(kept, s, e) && s <= e && AllSpan(kept, s, ms, aligned)
    ensures MorphemesOk(s, e, aligned)
  {
    hide Spans, InOrder, Behind, AllSpan, Offset;
    AllSpanSize(kept, s, ms, aligned);
    forall i: nat | i < |aligned|
      ensures s <= aligned[i].start <= aligned[i].end <= e
      ensures aligned[i].surface == [] <==> aligned[i].start == aligned[i].end
    {
      AllSpanAt(kept, s, ms, aligned, i);
      SpanIsOk(kept, s, e, Offset(ms, i), ms[i], aligned[i]);
    }
    forall i: nat | 0 < i < |aligned|
      ensures aligned[i - 1].end <= aligned[i].start
    {
      var before := i - 1;
      AllSpanAt(kept, s, ms, aligned, before);
      AllSpanAt(kept, s, ms, aligned, i);
      OffsetNext(ms, before);
      SpanNext(kept, s, e, Offset(ms, before), ms[before], ms[i], aligned[before], aligned[i]);
    }
  }

  lemma AllSpanSize(kept: seq<Char>, s: nat, ms: seq<NativeMorpheme>, aligned: seq<AlignedMorpheme>)
    requires AllSpan(kept, s, ms, aligned)
    ensures |aligned| <= |ms|
  {
    hide Spans, Offset;
  }

  lemma {:induction false} AllSpanAt(kept: seq<Char>, s: nat, ms: seq<NativeMorpheme>, aligned: seq<AlignedMorpheme>, i: nat)
    requires AllSpan(kept, s, ms, aligned) && i < |aligned|
    ensures i < |ms| && Offset(ms, i) + |ms[i].surface| <= |kept| && Spans(kept, s, Offset(ms, i), ms[i], aligned[i])
  {
    hide Spans, Offset;
  }

  lemma {:induction false} AllSpanPush(kept: seq<Char>, s: nat, ms: seq<NativeMorpheme>, aligned: seq<AlignedMorpheme>, a: AlignedMorpheme)
    requires AllSpan(kept, s, ms, aligned) && |aligned| < |ms|
    requires Offset(ms, |aligned|) + |ms[|aligned|].surface| <= |kept|
    requires Spans(kept, s, Offset(ms, |aligned|), ms[|aligned|], a)
    ensures AllSpan(kept, s, ms, aligned + [a])
  {
    hide Spans, Offset;
    OffsetNext(ms, |aligned|);
  }

  lemma OffsetNext(ms: seq<NativeMorpheme>, k: nat)
    requires k < |ms|
    ensures Offset(ms, k + 1) == Offset(ms, k) + |ms[k].surface|
  {
  }

  lemma SpanNext(kept: seq<Char>, s: nat, e: nat, offset: nat, first: NativeMorpheme, second: NativeMorpheme,
                 a: AlignedMorpheme, b: AlignedMorpheme)
    requires InOrder(kept, s, e) && offset + |first.surface| + |second.surface| <= |kept|
    requires Spans(kept, s, offset, first, a) && Spans(kept, s, offset + |first.surface|, second, b)
    ensures a.end <= b.start
  {
    if second.surface != [] {
      BehindBefore(kept, s, e, offset + |first.surface|);
    }
  }

  lemma SpanIsOk(kept: seq<Char>, s: nat, e: nat, offset: nat, m: NativeMorpheme, a: AlignedMorpheme)
    requires InOrder(kept, s, e) && s <= e && offset + |m.surface| <= |kept| && Spans(kept, s, offset, m, a)
    ensures s <= a.start <= a.end <= e && (a.surface == [] <==> a.start == a.end)
  {
    if |m.surface| > 1 {
      assert kept[offset].end <= kept[offset + |m.surface| - 1].start;
    }
  }

  lemma BehindBefore(kept: seq<Char>, s: nat, e: nat, n: nat)
    requires InOrder(kept, s, e) && n < |kept|
    ensures Behind(kept, s, n) <= kept[n].start
  {
    if n > 0 {
      assert kept[n - 1].end <= kept[n].start;
    }
  }

  // ----------------------------------------------------------------- the alignment

  datatype Aligned = Aligned(cuts: seq<nat>, morphemes: seq<AlignedMorpheme>)

  /** A place beside one of the first n characters that is an apostrophe. */
  ghost predicate ConnectorCut(chars: seq<Char>, n: nat, x: nat)
    requires n <= |chars|
  {
    exists i: nat :: i < n && IsApostrophe(chars[i].value) && (x == chars[i].start || x == chars[i].end)
  }

  /** A place behind one of the first n morphemes that is not empty and has characters behind it. */
  ghost predicate MorphemeCut(kept: seq<Char>, s: nat, ms: seq<NativeMorpheme>, n: nat, x: nat)
    requires n <= |ms|
  {
    exists k: nat :: k < n && ms[k].surface != [] && Offset(ms, k + 1) < |kept| && x == Behind(kept, s, Offset(ms, k + 1))
  }

  /** The cuts of an aligned analysis. */
  ghost predicate AlignmentCut(l: Language, chars: seq<Char>, s: nat, e: nat, analysis: NativeAnalysis, x: nat) {
    && s < x < e
    && (|| ConnectorCut(chars, |chars|, x)
        || MorphemeCut(Kept(chars, IgnoresDots(l, Values(chars), analysis)), s, analysis.morphemes, |analysis.morphemes|, x))
  }

  ghost predicate InPairs(pairs: seq<(nat, nat)>, n: nat, x: nat)
    requires n <= |pairs|
  {
    exists k: nat :: k < n && (x == pairs[k].0 || x == pairs[k].1)
  }

  lemma NextPair(pairs: seq<(nat, nat)>, n: nat, x: nat)
    requires n < |pairs|
    ensures InPairs(pairs, n + 1, x) <==> InPairs(pairs, n, x) || x == pairs[n].0 || x == pairs[n].1
  {
    if x == pairs[n].0 || x == pairs[n].1 {
      var k: nat := n;
      assert k < n + 1 && (x == pairs[k].0 || x == pairs[k].1);
    }
  }

  lemma MorePairs(pairs: seq<(nat, nat)>, pair: (nat, nat), x: nat)
    ensures InPairs(pairs + [pair], |pairs| + 1, x) <==> InPairs(pairs, |pairs|, x) || x == pair.0 || x == pair.1
  {
    var more := pairs + [pair];
    NextPair(more, |pairs|, x);
    if InPairs(pairs, |pairs|, x) {
      var k: nat :| k < |pairs| && (x == pairs[k].0 || x == pairs[k].1);
      assert more[k] == pairs[k];
    }
    if InPairs(more, |pairs|, x) {
      var k: nat :| k < |pairs| && (x == more[k].0 || x == more[k].1);
      assert more[k] == pairs[k];
    }
  }

  lemma NextConnector(chars: seq<Char>, n: nat, x: nat)
    requires n < |chars|
    ensures ConnectorCut(chars, n + 1, x) <==>
      ConnectorCut(chars, n, x) || (IsApostrophe(chars[n].value) && (x == chars[n].start || x == chars[n].end))
  {
    hide IsApostrophe;
    if IsApostrophe(chars[n].value) && (x == chars[n].start || x == chars[n].end) {
      var i: nat := n;
      assert i < n + 1 && IsApostrophe(chars[i].value) && (x == chars[i].start || x == chars[i].end);
    }
  }

  lemma NextMorphemeCut(kept: seq<Char>, s: nat, ms: seq<NativeMorpheme>, n: nat, x: nat)
    requires n < |ms|
    ensures MorphemeCut(kept, s, ms, n + 1, x) <==>
      MorphemeCut(kept, s, ms, n, x) || (ms[n].surface != [] && Offset(ms, n + 1) < |kept| && x == Behind(kept, s, Offset(ms, n + 1)))
  {
    hide Offset, Behind;
    if ms[n].surface != [] && Offset(ms, n + 1) < |kept| && x == Behind(kept, s, Offset(ms, n + 1)) {
      var k: nat := n;
      assert k < n + 1 && ms[k].surface != [] && Offset(ms, k + 1) < |kept| && x == Behind(kept, s, Offset(ms, k + 1));
    }
  }

  lemma ConnectorStep(chars: seq<Char>, i: nat, connectors: seq<(nat, nat)>)
    requires i < |chars|
    requires forall x: nat :: InPairs(connectors, |connectors|, x) <==> ConnectorCut(chars, i, x)
    ensures var more := if IsApostrophe(chars[i].value) then connectors + [(chars[i].start, chars[i].end)] else connectors;
      forall x: nat :: InPairs(more, |more|, x) <==> ConnectorCut(chars, i + 1, x)
  {
    hide IsApostrophe, InPairs, ConnectorCut;
    var more := if IsApostrophe(chars[i].value) then connectors + [(chars[i].start, chars[i].end)] else connectors;
    forall x: nat
      ensures InPairs(more, |more|, x) <==> ConnectorCut(chars, i + 1, x)
    {
      NextConnector(chars, i, x);
      MorePairs(connectors, (chars[i].start, chars[i].end), x);
    }
  }

  method NormalizeInput(l: Language, chars: seq<Char>, analysis: NativeAnalysis)
    returns (kept: seq<Char>, actual: Option<seq<int>>, connectors: seq<(nat, nat)>)
    ensures kept == Kept(chars, IgnoresDots(l, Values(chars), analysis))
    ensures actual == NormalizedAll(l, Values(kept))
    ensures forall x: nat :: InPairs(connectors, |connectors|, x) <==> ConnectorCut(chars, |chars|, x)
  {
    hide IsApostrophe, InPairs, ConnectorCut;
    NoConnectors(chars);
    var ignoreDots := IgnoresDots(l, Values(chars), analysis);
    kept, actual, connectors := [], Some([]), [];
    for i := 0 to |chars|
      invariant kept == Kept(chars[..i], ignoreDots)
      invariant actual == NormalizedAll(l, Values(kept))
      invariant forall x: nat :: InPairs(connectors, |connectors|, x) <==> ConnectorCut(chars, i, x)
    {
      var c := chars[i];
      ConnectorStep(chars, i, connectors);
      assert chars[..i + 1][..i] == chars[..i];
      if IsApostrophe(c.value) {
        connectors := connectors + [(c.start, c.end)];
      } else if !(ignoreDots && c.value == '.' as int) {
        NormalizedPush(l, kept, c);
        actual := if actual.None? || l.normalize(c.value).None? then None else Some(actual.value + [l.normalize(c.value).value]);
        kept := kept + [c];
      }
    }
    assert chars[..|chars|] == chars;
  }

  lemma NoConnectors(chars: seq<Char>)
    ensures forall x: nat :: !InPairs([], 0, x) && !ConnectorCut(chars, 0, x)
  {
  }

  lemma {:induction false} NormalizedPush(l: Language, kept: seq<Char>, c: Char)
    ensures NormalizedAll(l, Values(kept + [c]))
         == if NormalizedAll(l, Values(kept)).None? || l.normalize(c.value).None? then None
            else Some(NormalizedAll(l, Values(kept)).value + [l.normalize(c.value).value])
  {
    ValuesPush(kept, c);
    assert (Values(kept) + [c.value])[..|kept|] == Values(kept);
  }

  lemma {:induction false} TargetLength(ms: seq<NativeMorpheme>)
    ensures |Target(ms)| == Offset(ms, |ms|)
  {
    if ms != [] {
      TargetLength(ms[..|ms| - 1]);
      OffsetPrefix(ms, |ms| - 1, |ms| - 1);
    }
  }

  lemma {:induction false} OffsetPrefix(ms: seq<NativeMorpheme>, n: nat, k: nat)
    requires k <= n <= |ms|
    ensures Offset(ms[..n], k) == Offset(ms, k)
  {
    if k > 0 {
      OffsetPrefix(ms, n, k - 1);
    }
  }

  lemma {:induction false} OffsetGrows(ms: seq<NativeMorpheme>, k: nat)
    requires k <= |ms|
    ensures Offset(ms, k) <= Offset(ms, |ms|)
    decreases |ms| - k
  {
    if k < |ms| {
      OffsetGrows(ms, k + 1);
      assert Offset(ms, k + 1) == Offset(ms, k) + |ms[k].surface|;
    }
  }

  /** Keeps what lies strictly inside. */
  function Retained(cuts: seq<nat>, s: nat, e: nat): seq<nat> {
    if cuts == [] then []
    else
      var last := cuts[|cuts| - 1];
      Retained(cuts[..|cuts| - 1], s, e) + if s < last < e then [last] else []
  }

  lemma {:induction false} RetainedIsValid(cuts: seq<nat>, s: nat, e: nat)
    requires Sorting.Increasing(cuts) && s < e
    ensures CutsValid(s, e, Retained(cuts, s, e))
    ensures forall x: nat :: x in Retained(cuts, s, e) <==> x in cuts && s < x < e
  {
    hide CutsValid, Sorting.Increasing;
    if cuts != [] {
      var body, last := cuts[..|cuts| - 1], cuts[|cuts| - 1];
      assert cuts == body + [last];
      IncreasingBody(body, last);
      RetainedIsValid(body, s, e);
      if s < last < e {
        CutsPush(Retained(body, s, e), s, e, last);
      } else {
        assert Retained(body, s, e) + [] == Retained(body, s, e);
      }
    } else {
      NoCuts(s, e);
    }
  }

  lemma NoCuts(s: nat, e: nat)
    requires s < e
    ensures CutsValid(s, e, [])
  {
  }

  lemma IncreasingBody(body: seq<nat>, last: nat)
    requires Sorting.Increasing(body + [last])
    ensures Sorting.Increasing(body) && forall x | x in body :: x < last
  {
    var xs := body + [last];
    forall i: nat | 0 < i < |body|
      ensures body[i - 1] < body[i]
    {
      assert xs[i - 1] < xs[i];
    }
    forall x | x in body
      ensures x < last
    {
      var i: nat :| i < |body| && body[i] == x;
      Sorting.IncreasingPairs(xs, i, |body|);
    }
  }

  lemma CutsPush(cuts: seq<nat>, s: nat, e: nat, last: nat)
    requires CutsValid(s, e, cuts) && s < last < e && forall x | x in cuts :: x < last
    ensures CutsValid(s, e, cuts + [last])
  {
    assert cuts != [] ==> cuts[|cuts| - 1] in cuts;
  }

  /** The alignment of an analysis with a token: the spans of all its morphemes and its cuts in order. */
  ghost predicate AlignedTo(l: Language, chars: seq<Char>, s: nat, e: nat, analysis: NativeAnalysis, a: Aligned) {
    && CutsValid(s, e, a.cuts) && MorphemesOk(s, e, a.morphemes) && |a.morphemes| == |analysis.morphemes|
    && AllSpan(Kept(chars, IgnoresDots(l, Values(chars), analysis)), s, analysis.morphemes, a.morphemes)
    && forall x: nat :: x in a.cuts <==> AlignmentCut(l, chars, s, e, analysis, x)
  }

  lemma AlignedIsValid(l: Language, chars: seq<Char>, s: nat, e: nat, analysis: NativeAnalysis, a: Aligned)
    requires AlignedTo(l, chars, s, e, analysis, a)
    ensures CutsValid(s, e, a.cuts) && MorphemesOk(s, e, a.morphemes) && |a.morphemes| == |analysis.morphemes|
  {
  }

  /** An analysis is aligned in one way. */
  lemma AlignmentUnique(l: Language, chars: seq<Char>, s: nat, e: nat, analysis: NativeAnalysis, first: Aligned, second: Aligned)
    requires AlignedTo(l, chars, s, e, analysis, first) && AlignedTo(l, chars, s, e, analysis, second)
    ensures first == second
  {
    hide AlignmentCut, MorphemesOk, AllSpan, Spans, Kept, IgnoresDots, Offset, CutsValid;
    SameCuts(s, e, first.cuts, second.cuts);
    var kept := Kept(chars, IgnoresDots(l, Values(chars), analysis));
    forall i: nat | i < |first.morphemes|
      ensures first.morphemes[i] == second.morphemes[i]
    {
      AllSpanAt(kept, s, analysis.morphemes, first.morphemes, i);
      AllSpanAt(kept, s, analysis.morphemes, second.morphemes, i);
      SameSpan(kept, s, Offset(analysis.morphemes, i), analysis.morphemes[i], first.morphemes[i], second.morphemes[i]);
    }
  }

  lemma SameSpan(kept: seq<Char>, s: nat, offset: nat, m: NativeMorpheme, first: AlignedMorpheme, second: AlignedMorpheme)
    requires offset + |m.surface| <= |kept| && Spans(kept, s, offset, m, first) && Spans(kept, s, offset, m, second)
    ensures first == second
  {
    hide Behind;
  }

  /** Ordered cuts are known from which places they hold. */
  lemma {:induction false} SameCuts(s: nat, e: nat, first: seq<nat>, second: seq<nat>)
    requires CutsValid(s, e, first) && CutsValid(s, e, second) && forall x: nat :: x in first <==> x in second
    ensures first == second
    decreases |first|
  {
    hide CutsValid;
    SomeElement(first);
    SomeElement(second);
    if first != [] {
      var one, other := first[|first| - 1], second[|second| - 1];
      GreatestCut(s, e, first);
      GreatestCut(s, e, second);
      assert one in second && other in first;
      var left, right := first[..|first| - 1], second[..|second| - 1];
      assert first == left + [one] && second == right + [one];
      forall x: nat
        ensures x in left <==> x in right
      {
        assert x in left <==> x in first && x != one;
        assert x in right <==> x in second && x != one;
      }
      SameCuts(s, e, left, right);
    }
  }

  lemma SomeElement(xs: seq<nat>)
    ensures xs != [] ==> exists x: nat :: x in xs
  {
    if xs != [] {
      assert xs[0] in xs;
    }
  }

  lemma {:induction false} GreatestCut(s: nat, e: nat, cuts: seq<nat>)
    requires CutsValid(s, e, cuts) && cuts != []
    ensures forall x | x in cuts :: x <= cuts[|cuts| - 1]
    ensures cuts[|cuts| - 1] !in cuts[..|cuts| - 1]
    ensures CutsValid(s, e, cuts[..|cuts| - 1])
  {
    var body, last := cuts[..|cuts| - 1], cuts[|cuts| - 1];
    assert Sorting.Increasing(body + [last]) by {
      assert body + [last] == cuts;
    }
    IncreasingBody(body, last);
    assert cuts == body + [last];
  }

  /** Aligns an analysis with the token of the given characters. */
  method AlignAnalysis(l: Language, chars: seq<Char>, s: nat, e: nat, analysis: NativeAnalysis)
    returns (r: Result<Aligned, AlignError>)
    requires s < e && Adjoin(chars, s, e)
    ensures r.Success? <==> Aligns(l, chars, analysis)
    ensures r.Success? ==> AlignedTo(l, chars, s, e, analysis, r.value)
    ensures r.Failure? ==> r.error == AlignRefusal(l, chars, analysis)
  {
    hide Kept, NormalizedAll, NormalizationMatches, Target, CutsValid, MorphemesOk, InOrder, Spans, Retained, IgnoresDots,
         AllSpan, Offset, Sorting.Increasing, InPairs, ConnectorCut, MorphemeCut;
    var kept, actual, connectors := NormalizeInput(l, chars, analysis);
    var ms := analysis.morphemes;
    var expected := NormalizedAll(l, Target(ms));
    if actual.None? || expected.None? {
      return Failure(UnsupportedNormalization);
    }
    if !NormalizationMatches(actual.value, expected.value) {
      return Failure(AlignmentMismatch);
    }
    KeptInOrder(chars, IgnoresDots(l, Values(chars), analysis), s, e);
    TargetLength(ms);
    var cuts: seq<nat> := [];
    var aligned: seq<AlignedMorpheme> := [];
    var cursor, lastRaw := 0, s;
    NothingAligned(kept, s, ms);
    for k := 0 to |ms|
      invariant |aligned| == k && AllSpan(kept, s, ms, aligned)
      invariant cursor == Offset(ms, k) <= |kept| && lastRaw == Behind(kept, s, cursor)
      invariant forall x: nat :: x in cuts <==> MorphemeCut(kept, s, ms, k, x)
    {
      MorphemeCutStep(kept, s, ms, k, cuts);
      var length := |ms[k].surface|;
      OffsetGrows(ms, k + 1);
      OffsetNext(ms, k);
      var startRaw := if length == 0 then lastRaw else kept[cursor].start;
      ghost var offset := cursor;
      cursor := cursor + length;
      var endRaw := if length == 0 then startRaw else kept[cursor - 1].end;
      lastRaw := endRaw;
      var a := AlignedMorpheme(ms[k].id, ms[k].surface, startRaw, endRaw, ms[k].derivational);
      SpanOf(kept, s, offset, ms[k], a);
      AllSpanPush(kept, s, ms, aligned, a);
      aligned := aligned + [a];
      if cursor < |kept| && length > 0 {
        cuts := cuts + [endRaw];
      }
    }
    ghost var morphemeCuts := cuts;
    NoPairs(connectors);
    for k := 0 to |connectors|
      invariant forall x: nat :: x in cuts <==> x in morphemeCuts || InPairs(connectors, k, x)
    {
      PairStep(connectors, k, morphemeCuts, cuts);
      cuts := cuts + [connectors[k].0, connectors[k].1];
    }
    Sorting.SortDedupSorts(cuts);
    var sorted := Sorting.SortDedup(cuts);
    RetainedIsValid(sorted, s, e);
    SpansAreOk(kept, s, e, ms, aligned);
    r := Success(Aligned(Retained(sorted, s, e), aligned));
  }

  lemma {:induction false} NothingAligned(kept: seq<Char>, s: nat, ms: seq<NativeMorpheme>)
    ensures AllSpan(kept, s, ms, []) && Offset(ms, 0) == 0 && forall x: nat :: !MorphemeCut(kept, s, ms, 0, x)
  {
  }

  lemma {:induction false} MorphemeCutStep(kept: seq<Char>, s: nat, ms: seq<NativeMorpheme>, k: nat, cuts: seq<nat>)
    requires k < |ms| && forall x: nat :: x in cuts <==> MorphemeCut(kept, s, ms, k, x)
    ensures var more := if ms[k].surface != [] && Offset(ms, k + 1) < |kept|
                        then cuts + [Behind(kept, s, Offset(ms, k + 1))] else cuts;
      forall x: nat :: x in more <==> MorphemeCut(kept, s, ms, k + 1, x)
  {
    hide MorphemeCut, Offset, Behind;
    forall x: nat
      ensures MorphemeCut(kept, s, ms, k + 1, x) <==>
        MorphemeCut(kept, s, ms, k, x) || (ms[k].surface != [] && Offset(ms, k + 1) < |kept| && x == Behind(kept, s, Offset(ms, k + 1)))
    {
      NextMorphemeCut(kept, s, ms, k, x);
    }
  }

  lemma NoPairs(pairs: seq<(nat, nat)>)
    ensures forall x: nat :: !InPairs(pairs, 0, x)
  {
  }

  lemma PairStep(pairs: seq<(nat, nat)>, k: nat, earlier: seq<nat>, cuts: seq<nat>)
    requires k < |pairs| && forall x: nat :: x in cuts <==> x in earlier || InPairs(pairs, k, x)
    ensures forall x: nat :: x in cuts + [pairs[k].0, pairs[k].1] <==> x in earlier || InPairs(pairs, k + 1, x)
  {
    hide InPairs;
    forall x: nat
      ensures x in cuts + [pairs[k].0, pairs[k].1] <==> x in earlier || InPairs(pairs, k + 1, x)
    {
      NextPair(pairs, k, x);
    }
  }

  lemma SpanOf(kept: seq<Char>, s: nat, offset: nat, m: NativeMorpheme, a: AlignedMorpheme)
    requires offset + |m.surface| <= |kept| && a.id == m.id && a.surface == m.surface && a.derivational == m.derivational
    requires a.start == if m.surface == [] then Behind(kept, s, offset) else kept[offset].start
    requires a.end == if m.surface == [] then a.start else kept[offset + |m.surface| - 1].end
    ensures Spans(kept, s, offset, m, a)
  {
  }
}
