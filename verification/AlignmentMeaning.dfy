/** When an analysis fits a token and where it cuts it, told from the characters. */
module AlignmentMeaning {
  import opened Wrappers
  import opened Text
  import opened Alignment
  import LosslessFormat

  /** The five apostrophes are left out, and in abbreviations the full stops. */
  function Letters(chars: seq<Char>, abbreviated: bool): seq<Char> {
    if chars == [] then [] else IfLetter(chars[0], abbreviated) + Letters(chars[1..], abbreviated)
  }

  function IfLetter(c: Char, abbreviated: bool): seq<Char> {
    var v := c.value;
    if v == 0x27 || v == 0x2018 || v == 0x2019 || v == 0x2BC || v == 0xFF07 || (abbreviated && v == 0x2E) then [] else [c]
  }

  lemma {:induction false} LettersConcat(first: seq<Char>, second: seq<Char>, abbreviated: bool)
    ensures Letters(first + second, abbreviated) == Letters(first, abbreviated) + Letters(second, abbreviated)
  {
    hide IfLetter;
    if first == [] {
      assert first + second == second;
    } else {
      LettersConcat(first[1..], second, abbreviated);
      assert (first + second)[1..] == first[1..] + second;
    }
  }

  lemma {:induction false} LettersAre(chars: seq<Char>, abbreviated: bool)
    ensures Kept(chars, abbreviated) == Letters(chars, abbreviated)
  {
    if chars != [] {
      var body, last := chars[..|chars| - 1], chars[|chars| - 1];
      LettersAre(body, abbreviated);
      LettersConcat(body, [last], abbreviated);
      assert chars == body + [last];
      assert Letters([last], abbreviated) == (if Keeps(last, abbreviated) then [last] else []) + Letters([last][1..], abbreviated);
    }
  }

  /** A foreign letter stands for the Turkish one without its accent. */
  predicate Folds(value: int, letter: int) {
    || (0xE0 <= value <= 0xE5 && value != 0xE2 && letter == 0x61)
    || (0xE8 <= value <= 0xEB && letter == 0x65)
    || (0xEC <= value <= 0xEF && value != 0xEE && letter == 0x69)
    || (value == 0xF1 && letter == 0x6E)
    || (0xF2 <= value <= 0xF5 && letter == 0x6F)
    || (0xF9 <= value <= 0xFA && letter == 0x75)
    || (letter == value
        && !(0xE0 <= value <= 0xE5 && value != 0xE2) && !(0xE8 <= value <= 0xEB) && !(0xEC <= value <= 0xEF && value != 0xEE)
        && !(0xF1 <= value <= 0xF5) && !(0xF9 <= value <= 0xFA))
  }

  /** Small letters a to z, seven Turkish letters with diacritics and circumflexes each of their own, full stop
      and hyphen are known; anything else is read as a question mark. */
  predicate Reads(value: int, letter: int) {
    if || 0x61 <= value <= 0x7A || value == 0x2D || value == 0x2E || value == 0xE2 || value == 0xE7 || value == 0xEE
       || value == 0xF6 || value == 0xFB || value == 0xFC || value == 0x11F || value == 0x131 || value == 0x15F
    then letter == value
    else letter == 0x3F
  }

  /** The letters are the same, or they are so letter by letter once foreign ones are folded, or once these are
      read in the known alphabet. */
  ghost predicate SameLetters(actual: seq<int>, expected: seq<int>) {
    || actual == expected
    || (|actual| == |expected| && forall i: nat | i < |actual| :: Folds(actual[i], expected[i]))
    || (|actual| == |expected| && forall i: nat | i < |actual| :: FoldsAndReads(actual[i], expected[i]))
  }

  ghost predicate FoldsAndReads(value: int, letter: int) {
    exists folded: int :: Folds(value, folded) && Reads(folded, letter)
  }

  lemma FoldIs(value: int, letter: int)
    ensures Folds(value, letter) <==> ForeignToTurkish(value) == letter
  {
  }

  lemma ReadIs(value: int, letter: int)
    ensures Reads(value, letter) <==> RuntimeNormalized(value) == letter
  {
  }

  lemma BothIs(value: int, letter: int)
    ensures FoldsAndReads(value, letter) <==> RuntimeNormalized(ForeignToTurkish(value)) == letter
  {
    hide Folds, Reads, ForeignToTurkish, RuntimeNormalized;
    forall folded: int
      ensures Folds(value, folded) <==> ForeignToTurkish(value) == folded
      ensures Reads(folded, letter) <==> RuntimeNormalized(folded) == letter
    {
      FoldIs(value, folded);
      ReadIs(folded, letter);
    }
  }

  lemma SameLettersIs(actual: seq<int>, expected: seq<int>)
    ensures NormalizationMatches(actual, expected) <==> SameLetters(actual, expected)
  {
    hide Folds, FoldsAndReads, ForeignToTurkish, RuntimeNormalized;
    var folded := MapAll(ForeignToTurkish, actual);
    var read := MapAll(RuntimeNormalized, folded);
    forall i: nat | i < |actual| && i < |expected|
      ensures Folds(actual[i], expected[i]) <==> folded[i] == expected[i]
      ensures FoldsAndReads(actual[i], expected[i]) <==> read[i] == expected[i]
    {
      FoldIs(actual[i], expected[i]);
      BothIs(actual[i], expected[i]);
    }
  }

  /** An analysis fits if its surfaces, normalised, spell the normalised letters of the token. */
  lemma AlignsIs(l: Language, chars: seq<Char>, a: NativeAnalysis)
    ensures Aligns(l, chars, a) <==>
      var actual := NormalizedAll(l, Values(Letters(chars, a.secondaryPos == "RegAbbrv" || l.isDotted(Values(chars)))));
      var expected := NormalizedAll(l, Target(a.morphemes));
      actual.Some? && expected.Some? && SameLetters(actual.value, expected.value)
  {
    hide Letters, Kept, NormalizedAll, Target, SameLetters, NormalizationMatches;
    var dots := IgnoresDots(l, Values(chars), a);
    LettersAre(chars, dots);
    var actual, expected := NormalizedAll(l, Values(Letters(chars, dots))), NormalizedAll(l, Target(a.morphemes));
    if actual.Some? && expected.Some? {
      SameLettersIs(actual.value, expected.value);
    }
  }

  /** The token is cut inside beside each of the five apostrophes, and behind each morpheme with letters that
      letters follow. */
  lemma AlignmentCutIs(l: Language, chars: seq<Char>, s: nat, e: nat, a: NativeAnalysis, x: nat)
    ensures AlignmentCut(l, chars, s, e, a, x) <==>
      && s < x < e
      && var kept := Letters(chars, a.secondaryPos == "RegAbbrv" || l.isDotted(Values(chars)));
        || (exists i: nat :: i < |chars| && chars[i].value in {0x27, 0x2018, 0x2019, 0x2BC, 0xFF07}
                             && (x == chars[i].start || x == chars[i].end))
        || MorphemeCut(kept, s, a.morphemes, |a.morphemes|, x)
  {
    hide Letters, Kept, MorphemeCut;
    LettersAre(chars, IgnoresDots(l, Values(chars), a));
  }

  /** Morpheme by morpheme, the letters of the token are used up: a morpheme without letters stands where the one
      before it ends, any other reaches from its first letter to its last one. */
  lemma MorphemesStand(l: Language, chars: seq<Char>, s: nat, e: nat, a: NativeAnalysis, aligned: Aligned, i: nat)
    requires AlignedTo(l, chars, s, e, a, aligned) && i < |a.morphemes|
    ensures |aligned.morphemes| == |a.morphemes|
    ensures var kept, m, at := Letters(chars, a.secondaryPos == "RegAbbrv" || l.isDotted(Values(chars))),
                               a.morphemes[i], aligned.morphemes[i];
      && at.id == m.id && at.surface == m.surface && at.derivational == m.derivational
      && Offset(a.morphemes, i) + |m.surface| <= |kept|
      && (m.surface == [] ==> at.start == at.end == if i == 0 then s else aligned.morphemes[i - 1].end)
      && (m.surface != [] ==>
        && at.start == kept[Offset(a.morphemes, i)].start
        && at.end == kept[Offset(a.morphemes, i) + |m.surface| - 1].end)
  {
    hide Letters, Kept, AlignmentCut, AllSpan, MorphemesOk, LosslessFormat.CutsValid, Spans, Offset;
    LettersAre(chars, IgnoresDots(l, Values(chars), a));
    var kept := Kept(chars, IgnoresDots(l, Values(chars), a));
    var offset := Offset(a.morphemes, i);
    AllSpanAt(kept, s, a.morphemes, aligned.morphemes, i);
    SpanStands(kept, s, offset, a.morphemes[i], aligned.morphemes[i]);
    if i > 0 {
      AllSpanAt(kept, s, a.morphemes, aligned.morphemes, i - 1);
      SpanStands(kept, s, Offset(a.morphemes, i - 1), a.morphemes[i - 1], aligned.morphemes[i - 1]);
      OffsetNext(a.morphemes, i - 1);
    } else {
      NoOffset(a.morphemes);
    }
  }

  lemma NoOffset(ms: seq<NativeMorpheme>)
    ensures Offset(ms, 0) == 0
  {
  }

  lemma SpanStands(kept: seq<Char>, s: nat, offset: nat, m: NativeMorpheme, at: AlignedMorpheme)
    requires offset + |m.surface| <= |kept| && Spans(kept, s, offset, m, at)
    ensures at.id == m.id && at.surface == m.surface && at.derivational == m.derivational
    ensures at.end == if offset + |m.surface| == 0 then s else kept[offset + |m.surface| - 1].end
    ensures at.start == if m.surface != [] then kept[offset].start else if offset == 0 then s else kept[offset - 1].end
  {
  }
}
