/** What calls of an interner lead to: the tables of a run, and a run that fills them. */
module InternerRuns {
  import opened Wrappers
  import opened Bytes
  import opened Trigram
  import opened Lattice
  import opened Interner

  /** The delta over a base after words were coded one after the other. */
  ghost function AfterWords(base: Tables, words: seq<Analysis>, guarded: bool): Tables {
    if words == [] then EMPTY
    else Coding(base, AfterWords(base, words[..|words| - 1], guarded), words[|words| - 1], guarded).0
  }

  // --------------------------------------------------------- what every run keeps

  predicate AllBelow(ids: seq<nat>, bound: nat) {
    forall k: nat | k < |ids| :: ids[k] < bound
  }

  ghost predicate SequencesBelow(sequences: map<seq<nat>, nat>, bound: nat) {
    forall ids | ids in sequences :: AllBelow(ids, bound)
  }

  ghost predicate PairsBelow(pairs: map<(nat, nat), nat>, lexemes: nat, sequences: nat) {
    forall key | key in pairs :: key.0 < lexemes && key.1 < sequences
  }

  /** Numbers that keys are made of are numbers of something. */
  ghost predicate Grounded(t: Tables) {
    SequencesBelow(t.igSequences, |t.igs|) && PairsBelow(t.signatures, |t.lemmas|, |t.igSequences|)
  }

  lemma SequencesGrow(less: map<seq<nat>, nat>, more: map<seq<nat>, nat>, key: seq<nat>, bound: nat)
    requires SequencesBelow(less, bound) && AllBelow(key, bound)
    requires forall k | k in more :: k in less || k == key
    ensures SequencesBelow(more, bound)
  {
    hide AllBelow;
  }

  lemma SequencesWiden(sequences: map<seq<nat>, nat>, bound: nat, wider: nat)
    requires SequencesBelow(sequences, bound) && bound <= wider
    ensures SequencesBelow(sequences, wider)
  {
    forall ids | ids in sequences
      ensures AllBelow(ids, wider)
    {
      assert AllBelow(ids, bound);
    }
  }

  lemma PairsWiden(pairs: map<(nat, nat), nat>, lexemes: nat, sequences: nat, moreLexemes: nat, moreSequences: nat)
    requires PairsBelow(pairs, lexemes, sequences) && lexemes <= moreLexemes && sequences <= moreSequences
    ensures PairsBelow(pairs, moreLexemes, moreSequences)
  {
  }

  lemma PairsGrow(less: map<(nat, nat), nat>, more: map<(nat, nat), nat>, key: (nat, nat), lexemes: nat, sequences: nat)
    requires PairsBelow(less, lexemes, sequences) && key.0 < lexemes && key.1 < sequences
    requires forall k | k in more :: k in less || k == key
    ensures PairsBelow(more, lexemes, sequences)
  {
  }

  lemma EnteredLayered<K(!new)>(base: map<K, nat>, delta: map<K, nat>, key: K)
    requires Layered(base, delta)
    ensures Layered(base, Entered(base, delta, key))
  {
    hide Layered;
    if key !in base && key !in delta && |base| + |delta| <= U32_MAX {
      LayeredInsert(base, delta, key);
    }
  }

  lemma {:induction false} EnteredAllLayered(base: map<string, nat>, delta: map<string, nat>, igs: seq<string>)
    requires Layered(base, delta)
    ensures Layered(base, EnteredAll(base, delta, igs))
  {
    hide Layered, Entered;
    if igs != [] {
      EnteredAllLayered(base, delta, igs[..|igs| - 1]);
      EnteredLayered(base, EnteredAll(base, delta, igs[..|igs| - 1]), igs[|igs| - 1]);
    }
  }

  lemma PairLayered(base: Tables, t: Tables, lexeme: nat, ids: seq<nat>, guarded: bool)
    requires LayeredTables(base, t)
    ensures LayeredTables(base, PairNumbering(base, t, lexeme, ids, guarded).0)
  {
    hide Layered, Entered, NumberIn;
    EnteredLayered(base.igSequences, t.igSequences, ids);
    var s := t.(igSequences := Entered(base.igSequences, t.igSequences, ids));
    var sequence := NumberIn(base.igSequences, s.igSequences, ids);
    if sequence.Some? {
      EnteredLayered(base.signatures, s.signatures, (lexeme, sequence.value));
    }
  }

  lemma WordLayered(base: Tables, t: Tables, w: WordData, guarded: bool)
    requires LayeredTables(base, t)
    ensures LayeredTables(base, WordNumbering(base, t, w, guarded).0)
  {
    hide Layered, Entered, EnteredAll, NumberIn, IgIds, PairNumbering;
    EnteredLayered(base.lemmas, t.lemmas, w.lexeme);
    EnteredAllLayered(base.igs, t.igs, w.igs);
    var g := t.(lemmas := Entered(base.lemmas, t.lemmas, w.lexeme), igs := EnteredAll(base.igs, t.igs, w.igs));
    var lexeme := NumberIn(base.lemmas, g.lemmas, w.lexeme);
    var ids := IgIds(base.igs + g.igs, w.igs);
    if lexeme.Some? && ids.Some? {
      PairLayered(base, g, lexeme.value, ids.value, guarded);
    }
  }

  lemma CanonicalLayered(base: Tables, t: Tables, canonical: string)
    requires LayeredTables(base, t)
    ensures LayeredTables(base, t.(canonicals := Entered(base.canonicals, t.canonicals, canonical)))
  {
    hide Layered, Entered;
    EnteredLayered(base.canonicals, t.canonicals, canonical);
  }

  lemma CodingLayered(base: Tables, t: Tables, a: Analysis, guarded: bool)
    requires LayeredTables(base, t)
    ensures LayeredTables(base, Coding(base, t, a, guarded).0)
  {
    hide LayeredTables, Entered, NumberIn, WordNumbering;
    CanonicalLayered(base, t, a.canonical);
    WordLayered(base, t.(canonicals := Entered(base.canonicals, t.canonicals, a.canonical)), a.word, guarded);
  }

  lemma {:induction false} IgIdsBelow(ids: map<string, nat>, igs: seq<string>)
    requires Compact(ids) && IgIds(ids, igs).Some?
    ensures AllBelow(IgIds(ids, igs).value, |ids|)
  {
    if igs != [] {
      IgIdsBelow(ids, igs[..|igs| - 1]);
    }
  }

  /** An entry may add its key, and its number is below the size of the table. */
  lemma EnteredBounds<K(!new)>(base: map<K, nat>, delta: map<K, nat>, key: K)
    requires Layered(base, delta)
    ensures var more := Entered(base, delta, key);
      && |base + delta| <= |base + more|
      && (forall k | k in base + more :: k in base + delta || k == key)
      && (NumberIn(base, more, key).Some? ==> NumberIn(base, more, key).value < |base + more|)
  {
    var more := Entered(base, delta, key);
    EnteredLayered(base, delta, key);
    LayersAreCompact(base, more);
    assert (base + delta).Keys <= (base + more).Keys;
    FewerKeys((base + delta).Keys, (base + more).Keys);
    assert NumberIn(base, more, key).Some? ==> key in base + more && (base + more)[key] == NumberIn(base, more, key).value;
  }

  lemma {:induction false} FewerKeys<K>(less: set<K>, more: set<K>)
    requires less <= more
    ensures |less| <= |more|
  {
    assert more == less + (more - less);
  }

  lemma {:induction false} EnteredAllGrows(base: map<string, nat>, delta: map<string, nat>, igs: seq<string>)
    requires Layered(base, delta)
    ensures |base + delta| <= |base + EnteredAll(base, delta, igs)|
  {
    hide Layered, Entered;
    if igs != [] {
      EnteredAllGrows(base, delta, igs[..|igs| - 1]);
      EnteredAllLayered(base, delta, igs[..|igs| - 1]);
      EnteredBounds(base, EnteredAll(base, delta, igs[..|igs| - 1]), igs[|igs| - 1]);
    }
  }

  lemma GroundedPair(base: Tables, t: Tables, lexeme: nat, ids: seq<nat>, guarded: bool)
    requires LayeredTables(base, t) && Grounded(Merge(base, t))
    requires lexeme < |base.lemmas + t.lemmas| && AllBelow(ids, |base.igs + t.igs|)
    ensures Grounded(Merge(base, PairNumbering(base, t, lexeme, ids, guarded).0))
  {
    hide Layered, Entered, NumberIn, SequencesBelow, PairsBelow, AllBelow;
    EnteredBounds(base.igSequences, t.igSequences, ids);
    var s := t.(igSequences := Entered(base.igSequences, t.igSequences, ids));
    SequencesGrow(base.igSequences + t.igSequences, base.igSequences + s.igSequences, ids, |base.igs + t.igs|);
    var lexemes, sequences := |base.lemmas + t.lemmas|, |base.igSequences + s.igSequences|;
    PairsWiden(base.signatures + t.signatures, lexemes, |base.igSequences + t.igSequences|, lexemes, sequences);
    var sequence := NumberIn(base.igSequences, s.igSequences, ids);
    if sequence.Some? {
      var key := (lexeme, sequence.value);
      EnteredBounds(base.signatures, s.signatures, key);
      PairsGrow(base.signatures + t.signatures, base.signatures + Entered(base.signatures, t.signatures, key), key,
                lexemes, sequences);
    }
  }

  /** More lexemes and groups leave keys grounded. */
  lemma GroundedWiden(less: Tables, more: Tables)
    requires Grounded(less) && |less.lemmas| <= |more.lemmas| && |less.igs| <= |more.igs|
    requires more.igSequences == less.igSequences && more.signatures == less.signatures
    ensures Grounded(more)
  {
    hide SequencesBelow, PairsBelow;
    SequencesWiden(less.igSequences, |less.igs|, |more.igs|);
    PairsWiden(less.signatures, |less.lemmas|, |less.igSequences|, |more.lemmas|, |less.igSequences|);
  }

  lemma WordGrounded(base: Tables, t: Tables, w: WordData, guarded: bool)
    requires LayeredTables(base, t) && Grounded(Merge(base, t))
    ensures Grounded(Merge(base, WordNumbering(base, t, w, guarded).0))
  {
    hide Layered, Entered, EnteredAll, NumberIn, IgIds, PairNumbering, Grounded, AllBelow;
    var l := t.(lemmas := Entered(base.lemmas, t.lemmas, w.lexeme));
    var g := l.(igs := EnteredAll(base.igs, t.igs, w.igs));
    EnteredBounds(base.lemmas, t.lemmas, w.lexeme);
    GroundedWiden(Merge(base, t), Merge(base, l));
    EnteredAllGrows(base.igs, t.igs, w.igs);
    GroundedWiden(Merge(base, l), Merge(base, g));
    EnteredLayered(base.lemmas, t.lemmas, w.lexeme);
    EnteredAllLayered(base.igs, t.igs, w.igs);
    var lexeme := NumberIn(base.lemmas, g.lemmas, w.lexeme);
    var ids := IgIds(base.igs + g.igs, w.igs);
    if lexeme.Some? && ids.Some? {
      LayersAreCompact(base.igs, g.igs);
      IgIdsBelow(base.igs + g.igs, w.igs);
      GroundedPair(base, g, lexeme.value, ids.value, guarded);
    }
  }

  /** A call keeps keys grounded, with or without a base. */
  lemma CodingGrounded(base: Tables, t: Tables, a: Analysis, guarded: bool)
    requires LayeredTables(base, t) && Grounded(Merge(base, t))
    ensures Grounded(Merge(base, Coding(base, t, a, guarded).0))
  {
    hide LayeredTables, Entered, NumberIn, WordNumbering, Grounded;
    var c := t.(canonicals := Entered(base.canonicals, t.canonicals, a.canonical));
    CanonicalLayered(base, t, a.canonical);
    GroundedWiden(Merge(base, t), Merge(base, c));
    WordGrounded(base, c, a.word, guarded);
  }

  /** Whatever words are coded in whatever order, the delta goes on numbering where its base ends, and
      the numbers in its keys are numbers of something. */
  lemma {:induction false} RunsKeepTables(base: Tables, words: seq<Analysis>, guarded: bool)
    requires LayeredTables(base, EMPTY) && Grounded(base)
    ensures LayeredTables(base, AfterWords(base, words, guarded))
    ensures Grounded(Merge(base, AfterWords(base, words, guarded)))
  {
    hide LayeredTables, Grounded, Coding;
    if words == [] {
      NothingAdded(base);
    } else {
      var before := AfterWords(base, words[..|words| - 1], guarded);
      RunsKeepTables(base, words[..|words| - 1], guarded);
      CodingLayered(base, before, words[|words| - 1], guarded);
      CodingGrounded(base, before, words[|words| - 1], guarded);
    }
  }

  lemma NothingAdded(base: Tables)
    ensures Merge(base, EMPTY) == base
  {
    assert base.canonicals + EMPTY.canonicals == base.canonicals;
    assert base.lemmas + EMPTY.lemmas == base.lemmas;
    assert base.igs + EMPTY.igs == base.igs;
    assert base.igSequences + EMPTY.igSequences == base.igSequences;
    assert base.signatures + EMPTY.signatures == base.signatures;
  }

  // ---------------------------------------------- a run that fills the tables

  ghost predicate Injective(name: nat -> string) {
    forall j: nat, k: nat | name(j) == name(k) :: j == k
  }

  /** The word of one group that has a name of its own. */
  ghost function Word(name: nat -> string, lexeme: string, k: nat): Analysis {
    Analysis(name(k), WordData(lexeme, [name(k)]), 0)
  }

  ghost function Words(name: nat -> string, lexeme: string, n: nat): (words: seq<Analysis>)
    ensures |words| == n
  {
    if n == 0 then [] else Words(name, lexeme, n - 1) + [Word(name, lexeme, n - 1)]
  }

  ghost function Named(name: nat -> string, n: nat): map<string, nat> {
    if n == 0 then map[] else Named(name, n - 1)[name(n - 1) := n - 1]
  }

  ghost function Singles(n: nat): map<seq<nat>, nat> {
    if n == 0 then map[] else Singles(n - 1)[[n - 1] := n - 1]
  }

  ghost function Pairs(n: nat): map<(nat, nat), nat> {
    if n == 0 then map[] else Pairs(n - 1)[(0, n - 1) := n - 1]
  }

  ghost function Filled(name: nat -> string, lexeme: string, n: nat): Tables {
    Tables(Named(name, n), if n == 0 then map[] else map[lexeme := 0], Named(name, n), Singles(n), Pairs(n))
  }

  lemma {:induction false} NamedAre(name: nat -> string, n: nat)
    requires Injective(name)
    ensures |Named(name, n)| == n
    ensures forall k: nat :: name(k) in Named(name, n) <==> k < n
    ensures forall k: nat | k < n :: Named(name, n)[name(k)] == k
  {
    if n > 0 {
      NamedAre(name, n - 1);
      SizeInsert(Named(name, n - 1), name(n - 1), n - 1);
    }
  }

  lemma {:induction false} SinglesAre(n: nat)
    ensures |Singles(n)| == n
    ensures forall k: nat :: [k] in Singles(n) <==> k < n
    ensures forall k: nat | k < n :: Singles(n)[[k]] == k
  {
    if n > 0 {
      SinglesAre(n - 1);
      SizeInsert(Singles(n - 1), [n - 1], n - 1);
      assert forall k: nat :: [k][0] == k;
    }
  }

  lemma {:induction false} PairsAre(n: nat)
    ensures |Pairs(n)| == n
    ensures forall k: nat :: (0, k) in Pairs(n) <==> k < n
    ensures forall k: nat | k < n :: Pairs(n)[(0, k)] == k
  {
    if n > 0 {
      PairsAre(n - 1);
      SizeInsert(Pairs(n - 1), (0, n - 1), n - 1);
    }
  }

  lemma OneGroup(ids: map<string, nat>, group: string)
    requires group in ids
    ensures IgIds(ids, [group]) == Some([ids[group]])
  {
    hide IgIds;
    IgIdsNone(ids);
    IgIdsPush(ids, [group], 0);
    var none: seq<nat> := [];
    assert [group][..1] == [group] && none + [ids[group]] == [ids[group]];
  }

  lemma OneEntered(base: map<string, nat>, delta: map<string, nat>, group: string)
    ensures EnteredAll(base, delta, [group]) == Entered(base, delta, group)
  {
    hide Entered;
    EnteredNone(base, delta, [group]);
    EnteredAllPush(base, delta, [group], 0);
    assert [group][..1] == [group];
  }

  lemma NameEntered(name: nat -> string, n: nat)
    requires Injective(name) && n <= U32_MAX
    ensures Entered(map[], Named(name, n), name(n)) == Named(name, n + 1)
    ensures NumberIn(map[], Named(name, n + 1), name(n)) == Some(n)
  {
    NamedAre(name, n);
  }

  lemma SingleEntered(n: nat)
    requires n <= U32_MAX
    ensures Entered(map[], Singles(n), [n]) == Singles(n + 1) && NumberIn(map[], Singles(n + 1), [n]) == Some(n)
  {
    SinglesAre(n);
  }

  lemma PairEntered(n: nat)
    requires n <= U32_MAX
    ensures Entered(map[], Pairs(n), (0, n)) == Pairs(n + 1) && NumberIn(map[], Pairs(n + 1), (0, n)) == Some(n)
  {
    PairsAre(n);
  }

  lemma NoBase<K>(delta: map<K, nat>)
    ensures map[] + delta == delta
  {
  }

  lemma LexemeEntered(lexeme: string, n: nat)
    requires n <= U32_MAX
    ensures var less: map<string, nat> := if n == 0 then map[] else map[lexeme := 0];
      Entered(map[], less, lexeme) == map[lexeme := 0] && NumberIn(map[], map[lexeme := 0], lexeme) == Some(0)
  {
  }

  /** The next word with a name of its own takes the next numbers. */
  lemma FilledNext(name: nat -> string, lexeme: string, n: nat)
    requires Injective(name) && n <= U32_MAX
    ensures Coding(EMPTY, Filled(name, lexeme, n), Word(name, lexeme, n), true)
         == (Filled(name, lexeme, n + 1), Some(NewCode(n, n, 0)))
  {
    hide Entered, EnteredAll, NumberIn, IgIds, Named, Singles, Pairs, PairNumbering, Injective;
    NameEntered(name, n);
    LexemeEntered(lexeme, n);
    OneEntered(map[], Named(name, n), name(n));
    NamedAre(name, n + 1);
    NoBase(Named(name, n + 1));
    OneGroup(Named(name, n + 1), name(n));
    NextPair(n, Filled(name, lexeme, n + 1).(igSequences := Singles(n), signatures := Pairs(n)));
  }

  lemma NextPair(n: nat, t: Tables)
    requires n <= U32_MAX && t.igSequences == Singles(n) && t.signatures == Pairs(n)
    ensures PairNumbering(EMPTY, t, 0, [n], true)
         == (t.(igSequences := Singles(n + 1), signatures := Pairs(n + 1)), Some(n))
  {
    hide Entered, NumberIn, Singles, Pairs;
    SinglesAre(n);
    PairsAre(n);
    SingleEntered(n);
    PairEntered(n);
  }

  /** After n such words the tables are filled up to n, and each of the words got its code. */
  lemma {:induction false} RunFills(name: nat -> string, lexeme: string, n: nat)
    requires Injective(name) && n <= U32_MAX + 1
    ensures AfterWords(EMPTY, Words(name, lexeme, n), true) == Filled(name, lexeme, n)
  {
    hide Filled, Coding, Injective;
    if n == 0 {
      FilledNone(name, lexeme);
    } else {
      RunFills(name, lexeme, n - 1);
      FilledNext(name, lexeme, n - 1);
      assert Words(name, lexeme, n)[..n - 1] == Words(name, lexeme, n - 1);
    }
  }

  lemma FilledNone(name: nat -> string, lexeme: string)
    ensures Filled(name, lexeme, 0) == EMPTY
  {
  }

  lemma FilledHolds(name: nat -> string, lexeme: string, n: nat, k: nat)
    requires Injective(name) && k < n && k <= U32_MAX
    ensures CodeOf(Filled(name, lexeme, n), Word(name, lexeme, k)) == Some(NewCode(k, k, 0))
  {
    hide IgIds, Named, Singles, Pairs, Injective;
    NamedAre(name, n);
    SinglesAre(n);
    PairsAre(n);
    OneGroup(Named(name, n), name(k));
    assert Filled(name, lexeme, n).igs[name(k)] == k;
  }

  lemma HeldIsFound<K(!new)>(delta: map<K, nat>, key: K)
    requires key in delta
    ensures Entered(map[], delta, key) == delta && NumberIn(map[], delta, key) == Some(delta[key])
  {
  }

  lemma FullRefuses(name: nat -> string, lexeme: string, n: nat, k: nat)
    requires Injective(name) && k < n && n > U32_MAX
    ensures Coding(EMPTY, Filled(name, lexeme, n), Word(name, lexeme, k), true) == (Filled(name, lexeme, n), None)
  {
    hide Entered, EnteredAll, NumberIn, IgIds, Named, Singles, Pairs, Injective;
    NamedAre(name, n);
    SinglesAre(n);
    HeldIsFound(Named(name, n), name(k));
    HeldIsFound(map[lexeme := 0], lexeme);
    OneEntered(map[], Named(name, n), name(k));
  }

  /** Without a base, 2^32 words of one group each, named in any way, are coded one after the other;
      from then on the interner holds every one of them and refuses every one of them. */
  lemma KnownWordMayBeRefused(name: nat -> string, lexeme: string, k: nat)
    requires Injective(name) && k <= U32_MAX
    ensures Coding(EMPTY, AfterWords(EMPTY, Words(name, lexeme, k), true), Word(name, lexeme, k), true).1.Some?
    ensures var t := AfterWords(EMPTY, Words(name, lexeme, U32_MAX + 1), true);
      CodeOf(t, Word(name, lexeme, k)).Some? && Coding(EMPTY, t, Word(name, lexeme, k), true) == (t, None)
  {
    hide Filled, Coding, CodeOf, Injective, AfterWords;
    RunFills(name, lexeme, k);
    FilledNext(name, lexeme, k);
    RunFills(name, lexeme, U32_MAX + 1);
    FilledHolds(name, lexeme, U32_MAX + 1, k);
    FullRefuses(name, lexeme, U32_MAX + 1, k);
  }

  /** Names are not scarce. */
  lemma NamesExist()
    ensures Injective((k: nat) => seq(k, _ => 'a'))
  {
    var name := (k: nat) => seq(k, _ => 'a');
    forall j: nat, k: nat | name(j) == name(k)
      ensures j == k
    {
      assert |name(j)| == j && |name(k)| == k;
    }
  }

  /** So there is a run after which a word is held and refused. */
  lemma RefusalHappens() returns (words: seq<Analysis>, a: Analysis)
    ensures var t := AfterWords(EMPTY, words, true);
      CodeOf(t, a).Some? && Coding(EMPTY, t, a, true) == (t, None)
  {
    hide AfterWords, CodeOf, Coding, Injective;
    NamesExist();
    var name := (k: nat) => seq(k, _ => 'a');
    words, a := Words(name, "", U32_MAX + 1), Word(name, "", 0);
    KnownWordMayBeRefused(name, "", 0);
  }
}
