/** Interning of the identities that scores depend on, in a frozen base and a private delta. */
module Interner {
  import opened Wrappers
  import opened Bytes
  import opened Trigram
  import opened Lattice
  import Scoring

  /** Numbers are given in order and to one key each, and they fit 32 bits. */
  ghost predicate Compact<K(!new)>(ids: map<K, nat>) {
    && (forall k | k in ids :: ids[k] < |ids| && ids[k] <= U32_MAX)
    && (forall j, k | j in ids && k in ids && ids[j] == ids[k] :: j == k)
  }

  /** A delta goes on numbering where its base ends. */
  ghost predicate Layered<K(!new)>(base: map<K, nat>, delta: map<K, nat>) {
    && Compact(base) && base.Keys !! delta.Keys
    && (forall k | k in delta :: |base| <= delta[k] < |base| + |delta| && delta[k] <= U32_MAX)
    && (forall j, k | j in delta && k in delta && delta[j] == delta[k] :: j == k)
  }

  ghost predicate Extends<K(!new)>(less: map<K, nat>, more: map<K, nat>) {
    forall k | k in less :: k in more && more[k] == less[k]
  }

  /** The two layers together number like one table. */
  lemma LayersAreCompact<K(!new)>(base: map<K, nat>, delta: map<K, nat>)
    requires Layered(base, delta)
    ensures Compact(base + delta) && Extends(base, base + delta)
  {
    assert (base + delta).Keys == base.Keys + delta.Keys;
    assert |base.Keys + delta.Keys| == |base.Keys| + |delta.Keys|;
  }

  lemma SizeInsert<K(!new)>(ids: map<K, nat>, key: K, id: nat)
    requires key !in ids
    ensures |ids[key := id]| == |ids| + 1
  {
    assert ids[key := id].Keys == ids.Keys + {key};
  }

  lemma ExtendsInsert<K(!new)>(base: map<K, nat>, delta: map<K, nat>, key: K, id: nat)
    requires key !in base && key !in delta
    ensures Extends(base + delta, base + delta[key := id])
  {
  }

  lemma LayeredInsert<K(!new)>(base: map<K, nat>, delta: map<K, nat>, key: K)
    requires Layered(base, delta) && key !in base && key !in delta && |base| + |delta| <= U32_MAX
    ensures Layered(base, delta[key := |base| + |delta|])
  {
    hide Compact;
    var more := delta[key := |base| + |delta|];
    SizeInsert(delta, key, |base| + |delta|);
    forall j, k | j in more && k in more && more[j] == more[k]
      ensures j == k
    {
      assert j in delta ==> delta[j] < |base| + |delta|;
      assert k in delta ==> delta[k] < |base| + |delta|;
    }
  }

  lemma ExtendsSelf<K(!new)>(ids: map<K, nat>)
    ensures Extends(ids, ids)
  {
  }

  lemma LayersDisjoint<K(!new)>(base: map<K, nat>, delta: map<K, nat>, key: K)
    requires Layered(base, delta) && key in base
    ensures key !in delta && base[key] <= U32_MAX && (base + delta)[key] == base[key]
  {
  }

  lemma DeltaNumber<K(!new)>(base: map<K, nat>, delta: map<K, nat>, key: K)
    requires Layered(base, delta) && key in delta
    ensures delta[key] <= U32_MAX
  {
  }

  /** A table whose numbers are used up. */
  ghost predicate Full<K(!new)>(base: map<K, nat>, delta: map<K, nat>) {
    |base| + |delta| > U32_MAX
  }

  /** The delta once a key was looked up: an unknown key takes the next number, if one is left. */
  function Entered<K(!new)>(base: map<K, nat>, delta: map<K, nat>, key: K): map<K, nat> {
    if key in base || key in delta || |base| + |delta| > U32_MAX then delta else delta[key := |base| + |delta|]
  }

  function NumberIn<K(!new)>(base: map<K, nat>, delta: map<K, nat>, key: K): Option<nat> {
    if key in base then Some(base[key]) else if key in delta then Some(delta[key]) else None
  }

  lemma EnteredIs<K(!new)>(base: map<K, nat>, delta: map<K, nat>, key: K)
    ensures key in base ==> Entered(base, delta, key) == delta && NumberIn(base, delta, key) == Some(base[key])
    ensures key !in base && key in delta ==>
      Entered(base, delta, key) == delta && NumberIn(base, delta, key) == Some(delta[key])
    ensures key !in base && key !in delta && |base| + |delta| > U32_MAX ==>
      Entered(base, delta, key) == delta && NumberIn(base, delta, key) == None
    ensures key !in base && key !in delta && |base| + |delta| <= U32_MAX ==>
      && var more := delta[key := |base| + |delta|];
      && Entered(base, delta, key) == more && NumberIn(base, more, key) == Some(|base| + |delta|)
  {
  }

  /** The number of a key: the base's if it has one, else the delta's, else the next one. */
  method InternLayered<K(==, !new)>(base: map<K, nat>, delta: map<K, nat>, key: K)
    returns (more: map<K, nat>, id: Option<nat>)
    requires Layered(base, delta)
    ensures Layered(base, more) && Extends(base + delta, base + more)
    ensures id.Some? <==> key in base || key in delta || |base| + |delta| <= U32_MAX
    ensures id.Some? ==> key in base + more && (base + more)[key] == id.value <= U32_MAX
    ensures id.None? ==> more == delta
    ensures key in base ==> id == Some(base[key]) && more == delta
    ensures key in delta ==> more == delta
    ensures more == Entered(base, delta, key) && id == NumberIn(base, more, key)
  {
    hide Layered, Extends, Entered, NumberIn;
    ExtendsSelf(base + delta);
    EnteredIs(base, delta, key);
    if key in base {
      LayersDisjoint(base, delta, key);
      return delta, Some(base[key]);
    }
    if key in delta {
      DeltaNumber(base, delta, key);
      return delta, Some(delta[key]);
    }
    var next := |base| + |delta|;
    if next > U32_MAX {
      return delta, None;
    }
    LayeredInsert(base, delta, key);
    ExtendsInsert(base, delta, key, next);
    return delta[key := next], Some(next);
  }

  /** The five tables of an interner. */
  datatype Tables = Tables(
    canonicals: map<string, nat>, lemmas: map<string, nat>, igs: map<string, nat>,
    igSequences: map<seq<nat>, nat>, signatures: map<(nat, nat), nat>)

  function Merge(base: Tables, delta: Tables): Tables {
    Tables(base.canonicals + delta.canonicals, base.lemmas + delta.lemmas, base.igs + delta.igs,
           base.igSequences + delta.igSequences, base.signatures + delta.signatures)
  }

  const EMPTY := Tables(map[], map[], map[], map[], map[])

  ghost predicate LayeredTables(base: Tables, delta: Tables) {
    && Layered(base.canonicals, delta.canonicals) && Layered(base.lemmas, delta.lemmas) && Layered(base.igs, delta.igs)
    && Layered(base.igSequences, delta.igSequences) && Layered(base.signatures, delta.signatures)
  }

  ghost predicate CompactTables(t: Tables) {
    Compact(t.canonicals) && Compact(t.lemmas) && Compact(t.igs) && Compact(t.igSequences) && Compact(t.signatures)
  }

  ghost predicate ExtendsTables(less: Tables, more: Tables) {
    && Extends(less.canonicals, more.canonicals) && Extends(less.lemmas, more.lemmas) && Extends(less.igs, more.igs)
    && Extends(less.igSequences, more.igSequences) && Extends(less.signatures, more.signatures)
  }

  ghost predicate SomeFull(base: Tables, delta: Tables) {
    || Full(base.canonicals, delta.canonicals) || Full(base.lemmas, delta.lemmas) || Full(base.igs, delta.igs)
    || Full(base.igSequences, delta.igSequences) || Full(base.signatures, delta.signatures)
  }

  // ------------------------------------------------------------ what the numbers mean

  ghost function IgIds(ids: map<string, nat>, igs: seq<string>): (found: Option<seq<nat>>)
    ensures found.Some? ==> |found.value| == |igs|
  {
    if igs == [] then Some([])
    else
      var body, last := IgIds(ids, igs[..|igs| - 1]), igs[|igs| - 1];
      if body.None? || last !in ids then None else Some(body.value + [ids[last]])
  }

  /** The signature the tables give to a word, if they know it. */
  ghost function SignatureOf(t: Tables, w: WordData): Option<nat> {
    var ids := IgIds(t.igs, w.igs);
    if w.lexeme !in t.lemmas || ids.None? || ids.value !in t.igSequences then None
    else
      var key := (t.lemmas[w.lexeme], t.igSequences[ids.value]);
      if key !in t.signatures then None else Some(t.signatures[key])
  }

  // ------------------------------------------------------------ what coding a word does

  function EnteredAll(base: map<string, nat>, delta: map<string, nat>, igs: seq<string>): map<string, nat> {
    if igs == [] then delta else Entered(base, EnteredAll(base, delta, igs[..|igs| - 1]), igs[|igs| - 1])
  }

  /** Numbers a sequence of groups and its pair with a lexeme. Without a base a full table is
      refused before it is searched. */
  function PairNumbering(base: Tables, t: Tables, lexeme: nat, ids: seq<nat>, guarded: bool): (Tables, Option<nat>) {
    if guarded && |t.igSequences| > U32_MAX then (t, None)
    else
      var s := t.(igSequences := Entered(base.igSequences, t.igSequences, ids));
      var sequence := NumberIn(base.igSequences, s.igSequences, ids);
      if sequence.None? || (guarded && |s.signatures| > U32_MAX) then (s, None)
      else
        var key := (lexeme, sequence.value);
        var p := s.(signatures := Entered(base.signatures, s.signatures, key));
        (p, NumberIn(base.signatures, p.signatures, key))
  }

  /** Numbers the lexeme, the groups, their sequence and the pair; the first refusal ends it. */
  ghost function WordNumbering(base: Tables, t: Tables, w: WordData, guarded: bool): (Tables, Option<nat>) {
    var l := t.(lemmas := Entered(base.lemmas, t.lemmas, w.lexeme));
    var lexeme := NumberIn(base.lemmas, l.lemmas, w.lexeme);
    if lexeme.None? then (l, None)
    else
      var g := l.(igs := EnteredAll(base.igs, l.igs, w.igs));
      var ids := IgIds(base.igs + g.igs, w.igs);
      if ids.None? then (g, None) else PairNumbering(base, g, lexeme.value, ids.value, guarded)
  }

  /** The tables after a call and the code it returns. */
  ghost function Coding(base: Tables, t: Tables, a: Analysis, guarded: bool): (Tables, Option<ScoringCode>) {
    var c := t.(canonicals := Entered(base.canonicals, t.canonicals, a.canonical));
    var canonical := NumberIn(base.canonicals, c.canonicals, a.canonical);
    if canonical.None? || canonical.value > U32_MAX then (c, None)
    else
      var numbered := WordNumbering(base, c, a.word, guarded);
      (numbered.0, if numbered.1.None? then None else Some(NewCode(numbered.1.value, canonical.value, a.javaHash)))
  }

  lemma CodingOfCanonical(base: Tables, t: Tables, a: Analysis, guarded: bool, middle: Tables, canonical: Option<nat>)
    requires middle == t.(canonicals := Entered(base.canonicals, t.canonicals, a.canonical))
    requires canonical == NumberIn(base.canonicals, middle.canonicals, a.canonical)
    requires canonical.Some? ==> canonical.value <= U32_MAX
    ensures canonical.None? ==> Coding(base, t, a, guarded) == (middle, None)
    ensures canonical.Some? ==>
      var numbered := WordNumbering(base, middle, a.word, guarded);
      Coding(base, t, a, guarded)
        == (numbered.0, if numbered.1.None? then None else Some(NewCode(numbered.1.value, canonical.value, a.javaHash)))
  {
    hide Entered, NumberIn, WordNumbering;
  }

  lemma KnownKey<K(!new)>(base: map<K, nat>, delta: map<K, nat>, key: K)
    requires Layered(base, delta) && key in base + delta
    ensures Entered(base, delta, key) == delta && NumberIn(base, delta, key) == Some((base + delta)[key])
  {
  }

  lemma {:induction false} KnownGroups(base: map<string, nat>, delta: map<string, nat>, igs: seq<string>)
    requires Layered(base, delta) && IgIds(base + delta, igs).Some?
    ensures EnteredAll(base, delta, igs) == delta
  {
    hide Layered, Entered;
    if igs != [] {
      KnownGroups(base, delta, igs[..|igs| - 1]);
      KnownKey(base, delta, igs[|igs| - 1]);
    }
  }

  lemma PairOfKnown(base: Tables, t: Tables, lexeme: nat, ids: seq<nat>, guarded: bool)
    requires LayeredTables(base, t) && ids in base.igSequences + t.igSequences
    requires (lexeme, (base.igSequences + t.igSequences)[ids]) in base.signatures + t.signatures
    ensures PairNumbering(base, t, lexeme, ids, guarded)
         == (t, if guarded && (|t.igSequences| > U32_MAX || |t.signatures| > U32_MAX) then None
                else Some((base.signatures + t.signatures)[(lexeme, (base.igSequences + t.igSequences)[ids])]))
  {
    hide Layered, Entered, NumberIn;
    KnownKey(base.igSequences, t.igSequences, ids);
    KnownKey(base.signatures, t.signatures, (lexeme, (base.igSequences + t.igSequences)[ids]));
  }

  lemma WordOfKnown(base: Tables, t: Tables, w: WordData, guarded: bool)
    requires LayeredTables(base, t) && SignatureOf(Merge(base, t), w).Some?
    ensures WordNumbering(base, t, w, guarded)
         == (t, if guarded && (|t.igSequences| > U32_MAX || |t.signatures| > U32_MAX) then None
                else SignatureOf(Merge(base, t), w))
  {
    hide Layered, Entered, NumberIn, EnteredAll, IgIds, PairNumbering;
    KnownKey(base.lemmas, t.lemmas, w.lexeme);
    KnownGroups(base.igs, t.igs, w.igs);
    PairOfKnown(base, t, (base.lemmas + t.lemmas)[w.lexeme], IgIds(base.igs + t.igs, w.igs).value, guarded);
  }

  /** A word that is known keeps its code and adds nothing; without a base a full table refuses it. */
  lemma CodingOfKnown(base: Tables, t: Tables, a: Analysis, guarded: bool)
    requires LayeredTables(base, t) && CodeOf(Merge(base, t), a).Some?
    ensures Coding(base, t, a, guarded)
         == (t, if guarded && (|t.igSequences| > U32_MAX || |t.signatures| > U32_MAX) then None else CodeOf(Merge(base, t), a))
  {
    hide Layered, Entered, NumberIn, SignatureOf, WordNumbering;
    KnownKey(base.canonicals, t.canonicals, a.canonical);
    WordOfKnown(base, t, a.word, guarded);
  }

  lemma CodeMade(base: Tables, t: Tables, a: Analysis, signature: nat, canonical: nat)
    requires SignatureOf(Merge(base, t), a.word) == Some(signature)
    requires NumberIn(base.canonicals, t.canonicals, a.canonical) == Some(canonical) && canonical <= U32_MAX
    requires LayeredTables(base, t)
    ensures CodeOf(Merge(base, t), a) == Some(NewCode(signature, canonical, a.javaHash))
  {
    hide SignatureOf;
  }

  ghost function CodeOf(t: Tables, a: Analysis): Option<ScoringCode> {
    var signature := SignatureOf(t, a.word);
    if signature.None? || a.canonical !in t.canonicals || t.canonicals[a.canonical] > U32_MAX then None
    else Some(NewCode(signature.value, t.canonicals[a.canonical], a.javaHash))
  }

  lemma {:induction false} IgIdsInjective(ids: map<string, nat>, first: seq<string>, second: seq<string>)
    requires Compact(ids) && IgIds(ids, first).Some? && IgIds(ids, first) == IgIds(ids, second)
    ensures first == second
  {
    if first != [] {
      var one, other := IgIds(ids, first).value, IgIds(ids, second).value;
      var left, right := first[..|first| - 1], second[..|second| - 1];
      assert one[..|one| - 1] == IgIds(ids, left).value && other[..|other| - 1] == IgIds(ids, right).value;
      IgIdsInjective(ids, left, right);
      assert ids[first[|first| - 1]] == one[|one| - 1] == other[|other| - 1] == ids[second[|second| - 1]];
      assert first == left + [first[|first| - 1]] && second == right + [second[|second| - 1]];
    }
  }

  /** Equal signatures are equal words. */
  lemma SignatureInjective(t: Tables, first: WordData, second: WordData)
    requires CompactTables(t) && SignatureOf(t, first).Some? && SignatureOf(t, first) == SignatureOf(t, second)
    ensures first == second
  {
    IgIdsInjective(t.igs, first.igs, second.igs) by {
      assert t.igSequences[IgIds(t.igs, first.igs).value] == t.igSequences[IgIds(t.igs, second.igs).value];
    }
  }

  /** Two coded analyses have the same signature exactly if lemma and groups are the same, and
      the same canonical number exactly if the canonical identities are the same. */
  lemma CodesIdentify(t: Tables, first: Analysis, second: Analysis)
    requires CompactTables(t) && CodeOf(t, first).Some? && CodeOf(t, second).Some?
    ensures CodeOf(t, first).value.signature == CodeOf(t, second).value.signature <==> first.word == second.word
    ensures CodeOf(t, first).value.canonical == CodeOf(t, second).value.canonical <==> first.canonical == second.canonical
    ensures CodeOf(t, first).value.javaHash == first.javaHash
  {
    hide SignatureOf, IgIds;
    if CodeOf(t, first).value.signature == CodeOf(t, second).value.signature {
      SignatureInjective(t, first.word, second.word);
    }
  }

  lemma {:induction false} IgIdsKept(less: map<string, nat>, more: map<string, nat>, igs: seq<string>)
    requires Extends(less, more) && IgIds(less, igs).Some?
    ensures IgIds(more, igs) == IgIds(less, igs)
  {
    if igs != [] {
      IgIdsKept(less, more, igs[..|igs| - 1]);
    }
  }

  /** A code stays what it is while the tables grow. */
  lemma CodeKept(less: Tables, more: Tables, a: Analysis)
    requires ExtendsTables(less, more) && CodeOf(less, a).Some?
    ensures CodeOf(more, a) == CodeOf(less, a)
  {
    hide IgIds;
    IgIdsKept(less.igs, more.igs, a.word.igs);
  }

  lemma MergedAreCompact(base: Tables, delta: Tables)
    requires LayeredTables(base, delta)
    ensures CompactTables(Merge(base, delta)) && CompactTables(base) && ExtendsTables(base, Merge(base, delta))
  {
    hide Compact, Extends;
    LayersAreCompact(base.canonicals, delta.canonicals);
    LayersAreCompact(base.lemmas, delta.lemmas);
    LayersAreCompact(base.igs, delta.igs);
    LayersAreCompact(base.igSequences, delta.igSequences);
    LayersAreCompact(base.signatures, delta.signatures);
    LayersCompactBase(base, delta);
  }

  lemma LayersCompactBase(base: Tables, delta: Tables)
    requires LayeredTables(base, delta)
    ensures CompactTables(base)
  {
    hide Compact;
  }

  lemma ExtendsTransitive(first: Tables, second: Tables, third: Tables)
    requires ExtendsTables(first, second) && ExtendsTables(second, third)
    ensures ExtendsTables(first, third)
  {
  }

  /** Numbers the groups of a word one by one. */
  method InternIgs(base: map<string, nat>, delta: map<string, nat>, igs: seq<string>)
    returns (more: map<string, nat>, ids: Option<seq<nat>>)
    requires Layered(base, delta)
    ensures Layered(base, more) && Extends(base + delta, base + more)
    ensures ids.Some? ==> IgIds(base + more, igs) == ids
    ensures ids.None? ==> Full(base, more)
    ensures IgIds(base + delta, igs).Some? ==> ids == IgIds(base + delta, igs) && more == delta
    ensures more == EnteredAll(base, delta, igs) && ids == IgIds(base + more, igs)
  {
    hide Layered, Extends, IgIds, Compact, EnteredAll;
    more := delta;
    var found: seq<nat> := [];
    ExtendsSelf(base + delta);
    IgIdsNone(base + delta);
    EnteredNone(base, delta, igs);
    for i := 0 to |igs|
      invariant Layered(base, more) && Extends(base + delta, base + more)
      invariant IgIds(base + more, igs[..i]) == Some(found)
      invariant IgIds(base + delta, igs).Some? ==> more == delta
      invariant more == EnteredAll(base, delta, igs[..i])
    {
      ghost var before := more;
      var id;
      IgIdsPrefix(base + delta, igs, i);
      EnteredAllPush(base, delta, igs, i);
      more, id := InternLayered(base, more, igs[i]);
      if id.None? {
        FullStays(base, delta, igs, i + 1);
        IgIdsPrefix(base + more, igs, i);
        return more, None;
      }
      ExtendsThrough(base + delta, base + before, base + more);
      IgIdsKept(base + before, base + more, igs[..i]);
      IgIdsPush(base + more, igs, i);
      found := found + [id.value];
    }
    assert igs[..|igs|] == igs;
    ids := Some(found);
  }

  lemma EnteredNone(base: map<string, nat>, delta: map<string, nat>, igs: seq<string>)
    ensures EnteredAll(base, delta, igs[..0]) == delta
  {
  }

  lemma EnteredAllPush(base: map<string, nat>, delta: map<string, nat>, igs: seq<string>, i: nat)
    requires i < |igs|
    ensures EnteredAll(base, delta, igs[..i + 1]) == Entered(base, EnteredAll(base, delta, igs[..i]), igs[i])
  {
    assert igs[..i + 1][..i] == igs[..i];
  }

  /** A full table takes nothing more. */
  lemma {:induction false} FullStays(base: map<string, nat>, delta: map<string, nat>, igs: seq<string>, i: nat)
    requires i <= |igs| && Full(base, EnteredAll(base, delta, igs[..i]))
    ensures EnteredAll(base, delta, igs) == EnteredAll(base, delta, igs[..i])
    decreases |igs| - i
  {
    hide EnteredAll;
    if i == |igs| {
      assert igs[..i] == igs;
    } else {
      EnteredAllPush(base, delta, igs, i);
      FullStays(base, delta, igs, i + 1);
    }
  }

  lemma ExtendsThrough<K(!new)>(first: map<K, nat>, second: map<K, nat>, third: map<K, nat>)
    requires Extends(first, second) && Extends(second, third)
    ensures Extends(first, third)
  {
  }

  lemma IgIdsNone(ids: map<string, nat>)
    ensures forall igs: seq<string> :: IgIds(ids, igs[..0]) == Some([])
  {
  }

  lemma {:induction false} IgIdsPush(ids: map<string, nat>, igs: seq<string>, i: nat)
    requires i < |igs| && igs[i] in ids && IgIds(ids, igs[..i]).Some?
    ensures IgIds(ids, igs[..i + 1]) == Some(IgIds(ids, igs[..i]).value + [ids[igs[i]]])
  {
    assert igs[..i + 1][..i] == igs[..i];
  }

  lemma {:induction false} IgIdsPrefix(ids: map<string, nat>, igs: seq<string>, i: nat)
    requires i < |igs|
    ensures IgIds(ids, igs).Some? ==> igs[i] in ids
  {
    if i < |igs| - 1 {
      IgIdsPrefix(ids, igs[..|igs| - 1], i);
    }
  }

  // ----------------------------------------------------------------- the interner

  /** The delta grew by new numbers only. */
  ghost predicate Grown(base: Tables, less: Tables, more: Tables) {
    LayeredTables(base, more) && ExtendsTables(Merge(base, less), Merge(base, more))
  }

  lemma GrownThrough(base: Tables, first: Tables, second: Tables, third: Tables)
    requires Grown(base, first, second) && Grown(base, second, third)
    ensures Grown(base, first, third)
  {
    hide LayeredTables;
    ExtendsTransitive(Merge(base, first), Merge(base, second), Merge(base, third));
  }

  lemma GrownSelf(base: Tables, t: Tables)
    requires LayeredTables(base, t)
    ensures Grown(base, t, t)
  {
    hide LayeredTables;
  }

  /** The last number is the signature of a word whose parts are numbered. */
  lemma Signed(t: Tables, w: WordData, lexeme: nat, ids: seq<nat>, sequence: nat, signature: nat)
    requires w.lexeme in t.lemmas && t.lemmas[w.lexeme] == lexeme
    requires IgIds(t.igs, w.igs) == Some(ids)
    requires ids in t.igSequences && t.igSequences[ids] == sequence
    requires (lexeme, sequence) in t.signatures && t.signatures[(lexeme, sequence)] == signature
    ensures SignatureOf(t, w) == Some(signature)
  {
    hide IgIds;
  }

  lemma SignatureParts(t: Tables, w: WordData)
    requires SignatureOf(t, w).Some?
    ensures w.lexeme in t.lemmas && IgIds(t.igs, w.igs).Some? && IgIds(t.igs, w.igs).value in t.igSequences
    ensures (t.lemmas[w.lexeme], t.igSequences[IgIds(t.igs, w.igs).value]) in t.signatures
  {
    hide IgIds;
  }

  /** The sequence of a word and its pair with the lexeme have numbers. */
  predicate KnownPair(sequences: map<seq<nat>, nat>, signatures: map<(nat, nat), nat>, lexeme: nat, ids: seq<nat>) {
    ids in sequences && (lexeme, sequences[ids]) in signatures
  }

  class AmbiguityScoringInterner {
    var canonicals: map<string, nat>
    var lemmas: map<string, nat>
    var igs: map<string, nat>
    var igSequences: map<seq<nat>, nat>
    var signatures: map<(nat, nat), nat>

    constructor ()
      ensures State() == EMPTY
    {
      canonicals, lemmas, igs, igSequences, signatures := map[], map[], map[], map[], map[];
    }

    ghost function State(): Tables
      reads this
    {
      Tables(canonicals, lemmas, igs, igSequences, signatures)
    }

    /** Codes a word with the numbers of the base where it has them. */
    method CodeWithBase(base: Tables, a: Analysis) returns (code: Option<ScoringCode>)
      requires LayeredTables(base, State())
      modifies this
      ensures Grown(base, old(State()), State())
      ensures code.Some? ==> CodeOf(Merge(base, State()), a) == code
      ensures code.None? ==> SomeFull(base, State())
      ensures CodeOf(Merge(base, old(State())), a).Some? ==>
        code == CodeOf(Merge(base, old(State())), a) && State() == old(State())
      ensures CodeOf(base, a).Some? ==> code == CodeOf(base, a) && State() == old(State())
      ensures (State(), code) == Coding(base, old(State()), a, false)
    {
      hide Grown, LayeredTables, CodeOf, CompactTables, Coding;
      MergedAreCompact(base, State());
      if CodeOf(base, a).Some? {
        CodeKept(base, Merge(base, State()), a);
      }
      code := CodeIn(base, a, false);
    }

    /** The two combined tables are full, and numbering without a base looks at that first. */
    ghost predicate Blocked(guarded: bool)
      reads this
    {
      guarded && (|igSequences| > U32_MAX || |signatures| > U32_MAX)
    }

    method CodeIn(base: Tables, a: Analysis, guarded: bool) returns (code: Option<ScoringCode>)
      requires LayeredTables(base, State())
      modifies this
      ensures Grown(base, old(State()), State())
      ensures code.Some? ==> CodeOf(Merge(base, State()), a) == code
      ensures code.None? ==> SomeFull(base, State())
      ensures CodeOf(Merge(base, old(State())), a).Some? ==>
        && State() == old(State())
        && code == if old(Blocked(guarded)) then None else CodeOf(Merge(base, old(State())), a)
      ensures (State(), code) == Coding(base, old(State()), a, guarded)
    {
      hide Grown, LayeredTables, SignatureOf, Full, WordNumbering, Entered, NumberIn, ExtendsTables, CodeOf, Coding;
      ghost var start := State();
      if CodeOf(Merge(base, start), a).Some? {
        CodingOfKnown(base, start, a, guarded);
      }
      var canonical := InternCanonical(base, a.canonical);
      ghost var middle := State();
      CodingOfCanonical(base, start, a, guarded, middle, canonical);
      if canonical.None? {
        return None;
      }
      var signature := InternWord(base, a.word, guarded);
      GrownThrough(base, start, middle, State());
      if signature.None? {
        return None;
      }
      CodeMade(base, State(), a, signature.value, canonical.value);
      code := Some(NewCode(signature.value, canonical.value, a.javaHash));
    }

    /** Numbers the lemma, the groups, their sequence and the pair of lemma and sequence. */
    method InternWord(base: Tables, w: WordData, guarded: bool) returns (signature: Option<nat>)
      requires LayeredTables(base, State())
      modifies `lemmas, `igs, `igSequences, `signatures
      ensures LayeredTables(base, State()) && Grown(base, old(State()), State())
      ensures signature.Some? ==> SignatureOf(Merge(base, State()), w) == signature
      ensures signature.None? ==> SomeFull(base, State())
      ensures SignatureOf(Merge(base, old(State())), w).Some? ==>
        && State() == old(State())
        && signature == if old(Blocked(guarded)) then None else SignatureOf(Merge(base, old(State())), w)
      ensures (State(), signature) == WordNumbering(base, old(State()), w, guarded)
    {
      hide Grown, LayeredTables, IgIds, SignatureOf, Full, Blocked, PairNumbering, EnteredAll, Entered, NumberIn,
           ExtendsTables;
      ghost var start := State();
      ghost var known := SignatureOf(Merge(base, start), w).Some?;
      if known {
        SignatureParts(Merge(base, start), w);
      }
      var lexeme := InternLemma(base, w.lexeme);
      if lexeme.None? {
        return None;
      }
      ghost var second := State();
      var ids := InternGroups(base, w.igs);
      GrownThrough(base, start, second, State());
      if ids.None? {
        return None;
      }
      ghost var third := State();
      var sequence;
      sequence, signature := InternNumbers(base, lexeme.value, ids.value, guarded);
      GrownThrough(base, start, third, State());
      if signature.Some? {
        Signed(Merge(base, State()), w, lexeme.value, ids.value, sequence, signature.value);
      }
    }

    method InternNumbers(base: Tables, lexeme: nat, ids: seq<nat>, guarded: bool)
      returns (sequence: nat, signature: Option<nat>)
      requires LayeredTables(base, State())
      modifies `igSequences, `signatures
      ensures LayeredTables(base, State()) && Grown(base, old(State()), State())
      ensures signature.Some? ==>
        && ids in base.igSequences + igSequences && (base.igSequences + igSequences)[ids] == sequence
        && (lexeme, sequence) in base.signatures + signatures
        && (base.signatures + signatures)[(lexeme, sequence)] == signature.value
      ensures signature.None? ==> SomeFull(base, State())
      ensures KnownPair(base.igSequences + old(igSequences), base.signatures + old(signatures), lexeme, ids) ==>
        && igSequences == old(igSequences) && signatures == old(signatures)
        && (signature.None? <==> old(Blocked(guarded)))
      ensures (State(), signature) == PairNumbering(base, old(State()), lexeme, ids, guarded)
    {
      hide Grown, LayeredTables;
      sequence, signature := 0, None;
      ghost var start := State();
      GrownSelf(base, start);
      if guarded && |igSequences| > U32_MAX {
        return;
      }
      var found := InternSequence(base, ids);
      if found.None? || (guarded && |signatures| > U32_MAX) {
        return;
      }
      sequence := found.value;
      ghost var middle := State();
      signature := InternSignature(base, (lexeme, sequence));
      GrownThrough(base, start, middle, State());
    }

    /** Codes a word without a base. A word the tables hold is refused exactly if one of the two
        combined tables is full; it never changes them. */
    method Code(a: Analysis) returns (code: Option<ScoringCode>)
      requires LayeredTables(EMPTY, State())
      modifies this
      ensures Grown(EMPTY, old(State()), State())
      ensures code.Some? ==> CodeOf(State(), a) == code
      ensures code.None? ==> SomeFull(EMPTY, State())
      ensures CodeOf(old(State()), a).Some? ==>
        && State() == old(State())
        && (code.Some? <==> |old(igSequences)| <= U32_MAX && |old(signatures)| <= U32_MAX)
      ensures (State(), code) == Coding(EMPTY, old(State()), a, true)
    {
      hide Grown, LayeredTables, CodeOf, Coding;
      MergeEmpty(State());
      code := CodeIn(EMPTY, a, true);
      MergeEmpty(State());
    }

    /** Codes the candidates of a surface one after the other. */
    method CodeAll(base: Tables, words: seq<Analysis>) returns (codes: Option<seq<ScoringCode>>)
      requires LayeredTables(base, State())
      modifies this
      ensures Grown(base, old(State()), State())
      ensures codes.Some? ==> Coded(Merge(base, State()), words, codes.value)
      ensures codes.None? ==> SomeFull(base, State())
    {
      hide Grown, LayeredTables, CodeOf;
      var found: seq<ScoringCode> := [];
      ghost var start := State();
      GrownSelf(base, start);
      for i := 0 to |words|
        invariant LayeredTables(base, State()) && Grown(base, start, State())
        invariant Coded(Merge(base, State()), words[..i], found)
      {
        ghost var before := State();
        var code := CodeWithBase(base, words[i]);
        GrownThrough(base, start, before, State());
        GrownLayered(base, before, State());
        if code.None? {
          return None;
        }
        CodedStep(Merge(base, before), Merge(base, State()), words, i, found, code.value);
        found := found + [code.value];
      }
      assert words[..|words|] == words;
      codes := Some(found);
    }

    method InternCanonical(base: Tables, canonical: string) returns (id: Option<nat>)
      requires LayeredTables(base, State())
      modifies this`canonicals
      ensures LayeredTables(base, State()) && Grown(base, old(State()), State())
      ensures id.None? ==> Full(base.canonicals, canonicals)
      ensures id.Some? ==> canonical in base.canonicals + canonicals && (base.canonicals + canonicals)[canonical] == id.value <= U32_MAX
      ensures canonical in base.canonicals + old(canonicals) ==> id == Some((base.canonicals + old(canonicals))[canonical]) && canonicals == old(canonicals)
      ensures canonicals == Entered(base.canonicals, old(canonicals), canonical) && id == NumberIn(base.canonicals, canonicals, canonical)
    {
      hide Layered, Extends;
      SelfExtends(Merge(base, State()));
      canonicals, id := InternLayered(base.canonicals, canonicals, canonical);
    }

    method InternLemma(base: Tables, lexeme: string) returns (id: Option<nat>)
      requires LayeredTables(base, State())
      modifies this`lemmas
      ensures LayeredTables(base, State()) && Grown(base, old(State()), State())
      ensures id.None? ==> Full(base.lemmas, lemmas)
      ensures id.Some? ==> lexeme in base.lemmas + lemmas && (base.lemmas + lemmas)[lexeme] == id.value <= U32_MAX
      ensures lexeme in base.lemmas + old(lemmas) ==> id == Some((base.lemmas + old(lemmas))[lexeme]) && lemmas == old(lemmas)
      ensures lemmas == Entered(base.lemmas, old(lemmas), lexeme) && id == NumberIn(base.lemmas, lemmas, lexeme)
    {
      hide Layered, Extends;
      SelfExtends(Merge(base, State()));
      lemmas, id := InternLayered(base.lemmas, lemmas, lexeme);
    }

    method InternSequence(base: Tables, ids: seq<nat>) returns (id: Option<nat>)
      requires LayeredTables(base, State())
      modifies this`igSequences
      ensures LayeredTables(base, State()) && Grown(base, old(State()), State())
      ensures id.None? ==> Full(base.igSequences, igSequences)
      ensures id.Some? ==> ids in base.igSequences + igSequences && (base.igSequences + igSequences)[ids] == id.value <= U32_MAX
      ensures ids in base.igSequences + old(igSequences) ==> id == Some((base.igSequences + old(igSequences))[ids]) && igSequences == old(igSequences)
      ensures igSequences == Entered(base.igSequences, old(igSequences), ids) && id == NumberIn(base.igSequences, igSequences, ids)
    {
      hide Layered, Extends;
      SelfExtends(Merge(base, State()));
      igSequences, id := InternLayered(base.igSequences, igSequences, ids);
    }

    method InternSignature(base: Tables, key: (nat, nat)) returns (id: Option<nat>)
      requires LayeredTables(base, State())
      modifies this`signatures
      ensures LayeredTables(base, State()) && Grown(base, old(State()), State())
      ensures id.None? ==> Full(base.signatures, signatures)
      ensures id.Some? ==> key in base.signatures + signatures && (base.signatures + signatures)[key] == id.value <= U32_MAX
      ensures key in base.signatures + old(signatures) ==> id == Some((base.signatures + old(signatures))[key]) && signatures == old(signatures)
      ensures signatures == Entered(base.signatures, old(signatures), key) && id == NumberIn(base.signatures, signatures, key)
    {
      hide Layered, Extends;
      SelfExtends(Merge(base, State()));
      signatures, id := InternLayered(base.signatures, signatures, key);
    }

    method InternGroups(base: Tables, groups: seq<string>) returns (ids: Option<seq<nat>>)
      requires LayeredTables(base, State())
      modifies this`igs
      ensures LayeredTables(base, State()) && Grown(base, old(State()), State())
      ensures ids.None? ==> Full(base.igs, igs)
      ensures ids.Some? ==> IgIds(base.igs + igs, groups) == ids
      ensures IgIds(base.igs + old(igs), groups).Some? ==> ids == IgIds(base.igs + old(igs), groups) && igs == old(igs)
      ensures igs == EnteredAll(base.igs, old(igs), groups) && ids == IgIds(base.igs + igs, groups)
    {
      hide Layered, Extends, IgIds, EnteredAll;
      SelfExtends(Merge(base, State()));
      igs, ids := InternIgs(base.igs, igs, groups);
    }
  }

  lemma SelfExtends(t: Tables)
    ensures ExtendsTables(t, t)
  {
  }

  lemma GrownLayered(base: Tables, less: Tables, more: Tables)
    requires Grown(base, less, more)
    ensures LayeredTables(base, more) && ExtendsTables(Merge(base, less), Merge(base, more))
  {
    hide LayeredTables, ExtendsTables;
  }

  lemma MergeEmpty(t: Tables)
    ensures Merge(EMPTY, t) == t
  {
    assert EMPTY.canonicals + t.canonicals == t.canonicals;
    assert EMPTY.lemmas + t.lemmas == t.lemmas;
    assert EMPTY.igs + t.igs == t.igs;
    assert EMPTY.igSequences + t.igSequences == t.igSequences;
    assert EMPTY.signatures + t.signatures == t.signatures;
  }

  /** Every word has its code. */
  ghost predicate Coded(t: Tables, words: seq<Analysis>, codes: seq<ScoringCode>) {
    |codes| == |words| && forall i: nat | i < |words| :: CodeOf(t, words[i]) == Some(codes[i])
  }

  lemma CodedKept(less: Tables, more: Tables, words: seq<Analysis>, codes: seq<ScoringCode>)
    requires ExtendsTables(less, more) && Coded(less, words, codes)
    ensures Coded(more, words, codes)
  {
    hide CodeOf, ExtendsTables;
    forall i: nat | i < |words|
      ensures CodeOf(more, words[i]) == Some(codes[i])
    {
      CodeKept(less, more, words[i]);
    }
  }

  lemma CodedStep(less: Tables, more: Tables, words: seq<Analysis>, i: nat, codes: seq<ScoringCode>, code: ScoringCode)
    requires i < |words| && ExtendsTables(less, more) && Coded(less, words[..i], codes)
    requires CodeOf(more, words[i]) == Some(code)
    ensures Coded(more, words[..i + 1], codes + [code])
  {
    hide CodeOf, ExtendsTables;
    CodedKept(less, more, words[..i], codes);
  }

  /** A word numbered in the base and one that only the delta numbers never share a signature,
      and a word of the base keeps its number in every delta over that base. */
  lemma BaseNumbersStay(base: Tables, delta: Tables, known: Analysis, other: Analysis)
    requires LayeredTables(base, delta)
    requires CodeOf(base, known).Some? && CodeOf(Merge(base, delta), other).Some?
    ensures CodeOf(Merge(base, delta), known) == CodeOf(base, known)
    ensures CodeOf(base, known).value.signature == CodeOf(Merge(base, delta), other).value.signature
       <==> known.word == other.word
  {
    hide CodeOf, LayeredTables, CompactTables, ExtendsTables, Merge;
    MergedAreCompact(base, delta);
    CodeKept(base, Merge(base, delta), known);
    CodesIdentify(Merge(base, delta), known, other);
  }

  // ---------------------------------------------- why cached scores may be shared

  /** The word a signature names; the two boundary signatures are reserved. */
  ghost function Lexicon(t: Tables, begin: WordData, end: WordData): nat -> WordData {
    (s: nat) =>
      if s == BEGIN_SIGNATURE then begin
      else if s == END_SIGNATURE then end
      else if exists w: WordData :: SignatureOf(t, w) == Some(s) then var w: WordData :| SignatureOf(t, w) == Some(s); w
      else begin
  }

  /** Codes of one interner are fit for the shared score cache: what is cached under a signature
      was computed from the word that the signature names, however far the tables have grown. */
  lemma CodesFitCache(earlier: Tables, later: Tables, begin: WordData, end: WordData, a: Analysis)
    requires CompactTables(later) && ExtendsTables(earlier, later) && CodeOf(earlier, a).Some?
    ensures Scoring.CodeFits(Lexicon(later, begin, end), CodeOf(earlier, a).value, a.word)
  {
    hide SignatureOf, CompactTables, ExtendsTables;
    CodeKept(earlier, later, a);
    var code := CodeOf(later, a).value;
    assert SignatureOf(later, a.word) == Some(code.signature);
    forall w: WordData | SignatureOf(later, w) == Some(code.signature)
      ensures w == a.word
    {
      SignatureInjective(later, w, a.word);
    }
  }
}
