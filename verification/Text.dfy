/** The characters of a stretch of well-formed bytes, and where it may be cut. */
module Text {
  import opened Wrappers
  import opened Bytes
  import opened Utf8
  import opened LexicalClasses

  /** A scalar value and the bytes it stands on. */
  datatype Char = Char(value: int, start: nat, end: nat)

  /** The characters of raw[s..e], `None` if it is no text. */
  function CharsOf(raw: seq<byte>, s: nat, e: nat): (chars: Option<seq<Char>>)
    requires s <= e <= |raw|
    decreases e - s
  {
    if s == e then Some([])
    else
      var scalar := ScalarAt(raw, s);
      if scalar.None? || s + scalar.value.1 > e then None
      else
        var rest := CharsOf(raw, s + scalar.value.1, e);
        if rest.None? then None else Some([Char(scalar.value.0, s, s + scalar.value.1)] + rest.value)
  }

  function Values(chars: seq<Char>): seq<int> {
    seq(|chars|, i requires 0 <= i < |chars| => chars[i].value)
  }

  predicate IsText(raw: seq<byte>, s: nat, e: nat)
    requires s <= e <= |raw|
  {
    CharsOf(raw, s, e).Some?
  }

  lemma ScalarAtIsEncoded(raw: seq<byte>, s: nat)
    requires ScalarAt(raw, s).Some?
    ensures var (value, width) := ScalarAt(raw, s).value;
      IsScalar(value) && EncodedAt(raw, s, value) && width == |Encode(value)|
  {
    hide DecodeAt;
    if raw[s] < 0x80 {
      assert raw[s..s + 1] == [raw[s]];
    } else {
      DecodeSound(raw, s);
    }
  }

  lemma EncodedIsScalarAt(raw: seq<byte>, s: nat, value: int)
    requires IsScalar(value) && EncodedAt(raw, s, value)
    ensures ScalarAt(raw, s) == Some((value, |Encode(value)|))
  {
    hide DecodeAt;
    EncodedFirst(raw, s, value);
    if value >= 0x80 {
      DecodeComplete(raw, s, value);
    }
  }

  lemma {:induction false} CharsAreText(raw: seq<byte>, s: nat, e: nat)
    requires s <= e <= |raw| && IsText(raw, s, e)
    ensures WellFormed(raw[s..e])
    decreases e - s
  {
    hide WellFormed, Encode;
    if s == e {
      WellFormedEmpty();
    } else {
      ScalarAtIsEncoded(raw, s);
      var (value, width) := ScalarAt(raw, s).value;
      WellFormedScalar(value);
      CharsAreText(raw, s + width, e);
      WellFormedConcat(raw[s..s + width], raw[s + width..e]);
      assert raw[s..e] == raw[s..s + width] + raw[s + width..e];
    }
  }

  lemma {:induction false} EncodedTextHasChars(raw: seq<byte>, s: nat, e: nat, values: seq<int>)
    requires s <= e <= |raw| && AllScalars(values) && EncodeText(values) == raw[s..e]
    ensures IsText(raw, s, e)
    decreases |values|
  {
    hide Encode, ScalarAt;
    if values == [] {
      assert raw[s..e] == [];
    } else {
      var first, rest := values[0], values[1..];
      assert values == [first] + rest;
      EncodeTextConcat([first], rest);
      EncodeTextPush([], first);
      assert [] + [first] == [first] && EncodeText([]) == [];
      var width := |Encode(first)|;
      assert raw[s..s + width] == raw[s..e][..width] == Encode(first);
      EncodedIsScalarAt(raw, s, first);
      assert raw[s + width..e] == raw[s..e][width..] == EncodeText(rest);
      EncodedTextHasChars(raw, s + width, e, rest);
    }
  }

  /** A stretch of bytes has characters exactly if it is well formed. */
  lemma TextIsWellFormed(raw: seq<byte>, s: nat, e: nat)
    requires s <= e <= |raw|
    ensures IsText(raw, s, e) <==> WellFormed(raw[s..e])
  {
    if IsText(raw, s, e) {
      CharsAreText(raw, s, e);
    }
    if WellFormed(raw[s..e]) {
      var values: seq<int> :| AllScalars(values) && EncodeText(values) == raw[s..e];
      EncodedTextHasChars(raw, s, e, values);
    }
  }

  /** Characters stand side by side and none is empty. */
  predicate Adjoin(chars: seq<Char>, s: nat, e: nat) {
    && (forall i: nat | i < |chars| :: s <= chars[i].start < chars[i].end <= e)
    && (forall i: nat | 0 < i < |chars| :: chars[i - 1].end == chars[i].start)
    && if chars == [] then s == e else chars[0].start == s && chars[|chars| - 1].end == e
  }

  lemma {:induction false} CharsAdjoin(raw: seq<byte>, s: nat, e: nat)
    requires s <= e <= |raw| && IsText(raw, s, e)
    ensures Adjoin(CharsOf(raw, s, e).value, s, e)
    decreases e - s
  {
    hide ScalarAt;
    if s < e {
      var (value, width) := ScalarAt(raw, s).value;
      CharsAdjoin(raw, s + width, e);
      AdjoinPush(Char(value, s, s + width), CharsOf(raw, s + width, e).value, e);
    }
  }

  lemma AdjoinPush(first: Char, rest: seq<Char>, e: nat)
    requires first.start < first.end <= e && Adjoin(rest, first.end, e)
    ensures Adjoin([first] + rest, first.start, e)
  {
    var chars := [first] + rest;
    forall i: nat | 0 < i < |chars|
      ensures chars[i - 1].end == chars[i].start
    {
      if i > 1 {
        assert rest[i - 1 - 1].end == rest[i - 1].start;
      }
    }
  }

  /** A place next to an ASCII byte or an end of the bytes. */
  predicate Clean(raw: seq<byte>, m: nat) {
    m == 0 || m >= |raw| || raw[m - 1] < 0x80 || raw[m] < 0x80
  }

  /** A clean place is never inside a scalar. */
  lemma CleanIsOutside(raw: seq<byte>, s: nat, m: nat)
    requires ScalarAt(raw, s).Some? && Clean(raw, m)
    ensures !(s < m < s + ScalarAt(raw, s).value.1)
  {
    hide DecodeAt;
    if raw[s] >= 0x80 {
      DecodedBytes(raw, s);
    }
  }

  /** Text may be cut at a clean place. */
  lemma {:induction false} CleanCut(raw: seq<byte>, s: nat, m: nat, e: nat)
    requires s <= m <= e <= |raw| && IsText(raw, s, e) && Clean(raw, m)
    ensures IsText(raw, s, m) && IsText(raw, m, e)
    decreases e - s
  {
    hide ScalarAt, Clean;
    if s < m {
      CleanIsOutside(raw, s, m);
      CleanCut(raw, s + ScalarAt(raw, s).value.1, m, e);
    }
  }

  /** Text may be cut where one of its characters starts or ends. */
  lemma {:induction false} CharCut(raw: seq<byte>, s: nat, m: nat, e: nat)
    requires s <= m <= e <= |raw| && IsText(raw, s, e)
    requires m == s || m == e || exists c :: c in CharsOf(raw, s, e).value && (c.start == m || c.end == m)
    ensures IsText(raw, s, m) && IsText(raw, m, e)
    decreases e - s
  {
    hide ScalarAt;
    if s < m < e {
      var (value, width) := ScalarAt(raw, s).value;
      var next := s + width;
      CharsAdjoin(raw, s, e);
      CharsAdjoin(raw, next, e);
      var rest := CharsOf(raw, next, e).value;
      var c :| c in CharsOf(raw, s, e).value && (c.start == m || c.end == m);
      assert c == Char(value, s, next) || c in rest;
      CharCut(raw, next, m, e);
    }
  }

  lemma {:induction false} TextJoin(raw: seq<byte>, s: nat, m: nat, e: nat)
    requires s <= m <= e <= |raw| && IsText(raw, s, m) && IsText(raw, m, e)
    ensures IsText(raw, s, e)
    decreases m - s
  {
    hide ScalarAt;
    if s < m {
      TextJoin(raw, s + ScalarAt(raw, s).value.1, m, e);
    }
  }

  /** Stepping over characters from one place, a place reached later is reached from any place
      reached before. */
  lemma {:induction false} TextBetween(raw: seq<byte>, s: nat, a: nat, b: nat)
    requires s <= a <= b <= |raw| && IsText(raw, s, a) && IsText(raw, s, b)
    ensures IsText(raw, a, b)
    decreases a - s
  {
    hide ScalarAt;
    if s < a {
      TextBetween(raw, s + ScalarAt(raw, s).value.1, a, b);
    }
  }

  lemma {:induction false} CharsOfOne(raw: seq<byte>, s: nat)
    requires s < |raw| && ScalarAt(raw, s).Some?
    ensures var (value, width) := ScalarAt(raw, s).value;
      s + width <= |raw| && CharsOf(raw, s, s + width) == Some([Char(value, s, s + width)])
  {
    hide DecodeAt;
    var (value, width) := ScalarAt(raw, s).value;
    assert CharsOf(raw, s + width, s + width) == Some([]);
    assert [Char(value, s, s + width)] + [] == [Char(value, s, s + width)];
  }

  /** The characters of a stretch between two characters are those between them. */
  lemma {:induction false} SliceChars(raw: seq<byte>, s: nat, e: nat, i: nat, j: nat)
    requires s <= e <= |raw| && IsText(raw, s, e) && i < j <= |CharsOf(raw, s, e).value|
    ensures var chars := CharsOf(raw, s, e).value;
      s <= chars[i].start < chars[j - 1].end <= e
      && CharsOf(raw, chars[i].start, chars[j - 1].end) == Some(chars[i..j])
    decreases j
  {
    hide ScalarAt;
    CharsAdjoin(raw, s, e);
    var chars := CharsOf(raw, s, e).value;
    var (value, width) := ScalarAt(raw, s).value;
    var next := s + width;
    var rest := CharsOf(raw, next, e).value;
    assert chars == [Char(value, s, next)] + rest;
    if i > 0 {
      SliceChars(raw, next, e, i - 1, j - 1);
      assert chars[i..j] == rest[i - 1..j - 1];
    } else if j > 1 {
      assert rest != [];
      CharsAdjoin(raw, next, e);
      SliceChars(raw, next, e, 0, j - 1);
      assert rest[0].start == next;
      assert chars[0..j] == [Char(value, s, next)] + rest[0..j - 1];
    } else {
      CharsOfOne(raw, s);
      assert chars[0..1] == [Char(value, s, next)];
    }
  }
}
