/** Encoding and loading of compiled surface tables. */
module CompiledCodec {
  import opened Wrappers
  import opened Bytes
  import opened LosslessFormat
  import opened TokenizedCodec
  import opened Codecs
  import opened CompiledTable
  import opened CompiledFormat
  import opened CompiledReader
  import Sorting

  const TABLE_MAGIC: seq<byte> := [0x4E, 0x45, 0x44, 0x4F, 0x46, 0x55, 0x4C, 0x31]
  const TABLE_VERSION: nat := 1

  // ------------------------------------------------------------------- surface order

  /** The order of byte strings. */
  predicate LexLe(a: seq<byte>, b: seq<byte>) {
    a == [] || (b != [] && (a[0] < b[0] || (a[0] == b[0] && LexLe(a[1..], b[1..]))))
  }

  /** The strings agree up to `k`, and there the first one ends or has the smaller byte. */
  predicate Precedes(a: seq<byte>, b: seq<byte>, k: nat) {
    k <= |a| && k <= |b| && a[..k] == b[..k] && (k == |a| || (k < |b| && a[k] < b[k]))
  }

  /** The order goes by the first difference, or by length if there is none. */
  lemma {:induction false} LexLeIs(a: seq<byte>, b: seq<byte>)
    ensures LexLe(a, b) <==> exists k: nat :: Precedes(a, b, k)
  {
    if a == [] || b == [] {
      if a == [] {
        assert Precedes(a, b, 0);
      }
    } else if a[0] != b[0] {
      if a[0] < b[0] {
        assert Precedes(a, b, 0);
      }
      if k: nat :| Precedes(a, b, k) && k > 0 {
        assert a[..k][0] == b[..k][0];
      }
    } else {
      LexLeIs(a[1..], b[1..]);
      if k: nat :| Precedes(a[1..], b[1..], k) {
        assert a[..k + 1] == [a[0]] + a[1..][..k] && b[..k + 1] == [b[0]] + b[1..][..k];
        assert Precedes(a, b, k + 1);
      }
      if k: nat :| Precedes(a, b, k) {
        assert k > 0;
        assert a[1..][..k - 1] == a[..k][1..] && b[1..][..k - 1] == b[..k][1..];
        assert Precedes(a[1..], b[1..], k - 1);
      }
    }
  }

  lemma {:induction false} LexTotal(a: seq<byte>, b: seq<byte>)
    ensures LexLe(a, b) || LexLe(b, a)
  {
    if a != [] && b != [] && a[0] == b[0] {
      LexTotal(a[1..], b[1..]);
    }
  }

  lemma {:induction false} LexAntisymmetric(a: seq<byte>, b: seq<byte>)
    requires LexLe(a, b) && LexLe(b, a)
    ensures a == b
  {
    if a != [] {
      LexAntisymmetric(a[1..], b[1..]);
      assert a == [a[0]] + a[1..] && b == [b[0]] + b[1..];
    }
  }

  lemma {:induction false} LexTransitive(a: seq<byte>, b: seq<byte>, c: seq<byte>)
    requires LexLe(a, b) && LexLe(b, c)
    ensures LexLe(a, c)
  {
    if a != [] && a[0] == b[0] && b[0] == c[0] {
      LexTransitive(a[1..], b[1..], c[1..]);
    }
  }

  ghost predicate Ordered(entries: seq<ParsedEntry>) {
    forall i: nat, j: nat | i < j < |entries| :: LexLe(entries[i].surface, entries[j].surface)
  }

  function Insert(ordered: seq<ParsedEntry>, e: ParsedEntry): seq<ParsedEntry> {
    if ordered == [] || LexLe(ordered[|ordered| - 1].surface, e.surface) then ordered + [e]
    else Insert(ordered[..|ordered| - 1], e) + [ordered[|ordered| - 1]]
  }

  /** The library's sort by surface. */
  function Sort(entries: seq<ParsedEntry>): seq<ParsedEntry> {
    if entries == [] then [] else Insert(Sort(entries[..|entries| - 1]), entries[|entries| - 1])
  }

  lemma OrderedPush(ordered: seq<ParsedEntry>, e: ParsedEntry)
    requires Ordered(ordered) && forall x | x in ordered :: LexLe(x.surface, e.surface)
    ensures Ordered(ordered + [e])
  {
    hide LexLe;
  }

  lemma OrderedSplit(ordered: seq<ParsedEntry>)
    requires Ordered(ordered) && ordered != []
    ensures Ordered(ordered[..|ordered| - 1])
    ensures forall x | x in ordered[..|ordered| - 1] :: LexLe(x.surface, ordered[|ordered| - 1].surface)
  {
    hide LexLe;
  }

  lemma {:induction false} InsertOrders(ordered: seq<ParsedEntry>, e: ParsedEntry)
    requires Ordered(ordered)
    ensures Ordered(Insert(ordered, e)) && multiset(Insert(ordered, e)) == multiset(ordered) + multiset{e}
  {
    hide Ordered, LexLe;
    if ordered == [] {
      OrderedPush([], e);
      return;
    }
    var body, last := ordered[..|ordered| - 1], ordered[|ordered| - 1];
    assert ordered == body + [last];
    OrderedSplit(ordered);
    if LexLe(last.surface, e.surface) {
      forall x | x in ordered
        ensures LexLe(x.surface, e.surface)
      {
        if x in body {
          LexTransitive(x.surface, last.surface, e.surface);
        }
      }
      OrderedPush(ordered, e);
    } else {
      InsertOrders(body, e);
      LexTotal(last.surface, e.surface);
      forall x | x in Insert(body, e)
        ensures LexLe(x.surface, last.surface)
      {
        assert x in multiset(Insert(body, e));
      }
      OrderedPush(Insert(body, e), last);
    }
  }

  lemma {:induction false} SortOrders(entries: seq<ParsedEntry>)
    ensures Ordered(Sort(entries)) && multiset(Sort(entries)) == multiset(entries)
  {
    if entries != [] {
      var body, last := entries[..|entries| - 1], entries[|entries| - 1];
      assert entries == body + [last];
      SortOrders(body);
      InsertOrders(Sort(body), last);
    }
  }

  /** No surface stands beside itself. */
  predicate NoNeighbours(entries: seq<ParsedEntry>) {
    forall i: nat | 0 < i < |entries| :: entries[i - 1].surface != entries[i].surface
  }

  /** In an ordered list it is enough to compare neighbours. */
  lemma NeighboursSuffice(entries: seq<ParsedEntry>)
    requires Ordered(entries) && NoNeighbours(entries)
    ensures Distinct(entries, |entries|)
  {
    hide LexLe;
    forall i: nat, j: nat | i < j < |entries|
      ensures entries[i].surface != entries[j].surface
    {
      if i + 1 < j && entries[i].surface == entries[j].surface {
        LexAntisymmetric(entries[i].surface, entries[i + 1].surface);
        assert false;
      }
      if i + 1 == j {
        assert entries[j - 1].surface != entries[j].surface;
      }
    }
  }

  /** Distinct surfaces are a matter of the entries, not of their order. */
  lemma DistinctPermutes(first: seq<ParsedEntry>, second: seq<ParsedEntry>)
    requires multiset(first) == multiset(second) && Distinct(first, |first|)
    ensures Distinct(second, |second|)
  {
    forall i: nat, j: nat | i < j < |second|
      ensures second[i].surface != second[j].surface
    {
      assert second[i] in multiset(second) && second[j] in multiset(second);
      assert second[i] in multiset(first) && second[j] in multiset(first);
      if second[i] == second[j] {
        TwiceInside(second, i, j);
        OnceInside(first, second[i]);
        assert false;
      }
      SurfacesDiffer(first, second[i], second[j]);
    }
  }

  lemma SurfacesDiffer(entries: seq<ParsedEntry>, x: ParsedEntry, y: ParsedEntry)
    requires Distinct(entries, |entries|) && x in entries && y in entries && x != y
    ensures x.surface != y.surface
  {
    var i: nat :| i < |entries| && entries[i] == x;
    var j: nat :| j < |entries| && entries[j] == y;
    assert i < j || j < i;
  }

  lemma TwiceInside(entries: seq<ParsedEntry>, i: nat, j: nat)
    requires i < j < |entries| && entries[i] == entries[j]
    ensures multiset(entries)[entries[i]] >= 2
  {
    assert entries == entries[..j] + entries[j..];
    assert entries[..j][i] == entries[i] && entries[j..][0] == entries[i];
    assert entries[i] in multiset(entries[..j]) && entries[i] in multiset(entries[j..]);
  }

  lemma OnceInside(entries: seq<ParsedEntry>, e: ParsedEntry)
    requires Distinct(entries, |entries|)
    ensures multiset(entries)[e] <= 1
  {
    if multiset(entries)[e] >= 1 {
      assert e in multiset(entries);
      var i: nat :| i < |entries| && entries[i] == e;
      assert entries == entries[..i] + [e] + entries[i + 1..];
      assert e !in entries[..i] && e !in entries[i + 1..];
    }
  }

  /** Entries with distinct surfaces have one order, so the encoding does not depend on the order
      in which they are given. */
  lemma {:induction false} OneOrder(first: seq<ParsedEntry>, second: seq<ParsedEntry>)
    requires multiset(first) == multiset(second) && Ordered(first) && Ordered(second) && Distinct(first, |first|)
    ensures first == second
    decreases |first|
  {
    hide LexLe, Ordered, Distinct;
    assert |first| == |multiset(first)| == |multiset(second)| == |second|;
    if first != [] {
      var n := |first| - 1;
      SameLast(first, second);
      var last := first[n];
      assert first == first[..n] + [last] && second == second[..n] + [last];
      Sorting.CancelOne(multiset(first[..n]), multiset(second[..n]), last);
      OrderedSplit(first);
      OrderedSplit(second);
      DistinctBody(first, n);
      OneOrder(first[..n], second[..n]);
    }
  }

  lemma DistinctBody(entries: seq<ParsedEntry>, n: nat)
    requires n <= |entries| && Distinct(entries, |entries|)
    ensures Distinct(entries[..n], |entries[..n]|)
  {
  }

  lemma SameLast(first: seq<ParsedEntry>, second: seq<ParsedEntry>)
    requires multiset(first) == multiset(second) && Ordered(first) && Ordered(second) && Distinct(first, |first|)
    requires |first| == |second| > 0
    ensures first[|first| - 1] == second[|second| - 1]
  {
    hide LexLe, Ordered, Distinct;
    var one, other := first[|first| - 1], second[|second| - 1];
    assert one in multiset(first) && other in multiset(second);
    assert one in multiset(second) && other in multiset(first);
    LastIsGreatest(second, one);
    LastIsGreatest(first, other);
    LexAntisymmetric(one.surface, other.surface);
    if one != other {
      SurfacesDiffer(first, one, other);
    }
  }

  lemma LastIsGreatest(entries: seq<ParsedEntry>, e: ParsedEntry)
    requires Ordered(entries) && e in entries
    ensures LexLe(e.surface, entries[|entries| - 1].surface)
  {
    LexReflexive(e.surface);
  }

  lemma {:induction false} LexReflexive(a: seq<byte>)
    ensures LexLe(a, a)
  {
    if a != [] {
      LexReflexive(a[1..]);
    }
  }

  // ------------------------------------------------------------------------ the form

  function EncodeTable(assets: TokenAssets, entries: seq<ParsedEntry>): seq<byte> {
    var payload := EncodeList(EncodeEntry, entries);
    TableHeader(assets, |entries|, assets.digest(payload)) + payload
  }

  /** The 176 bytes before the payload. */
  function TableHeader(assets: TokenAssets, count: nat, digest: seq<byte>): seq<byte> {
    TABLE_MAGIC + (U32(TABLE_VERSION) + (assets.morphology + (assets.model + (Low32(count) + digest))))
  }

  /** The lists of entries that have a binary form. */
  ghost predicate TableCodable(entries: seq<ParsedEntry>) {
    |entries| <= U32_MAX && AllValid(EntryCodable, entries) && Distinct(entries, |entries|)
  }

  predicate HeaderFits(assets: TokenAssets, input: seq<byte>) {
    && |input| >= 176 && input[..8] == TABLE_MAGIC && ReadU32(input, 8) == TABLE_VERSION
    && input[12..76] == assets.morphology && input[76..140] == assets.model
    && input[144..176] == assets.digest(input[176..])
  }

  lemma {:induction false} TableParts(assets: TokenAssets, input: seq<byte>, entries: seq<ParsedEntry>)
    requires assets.Valid() && |entries| <= U32_MAX && input == EncodeTable(assets, entries)
    ensures HeaderFits(assets, input) && ReadU32(input, 140) == |entries|
    ensures input[176..] == EncodeList(EncodeEntry, entries)
  {
    hide U32, ReadU32, EncodeList, EncodeEntry;
    var payload := EncodeList(EncodeEntry, entries);
    HeaderParts(assets, input, |entries|, assets.digest(payload), payload);
  }

  lemma HeaderParts(assets: TokenAssets, input: seq<byte>, count: nat, digest: seq<byte>, payload: seq<byte>)
    requires assets.Valid() && count <= U32_MAX && |digest| == 32
    requires input == TableHeader(assets, count, digest) + payload
    ensures |input| >= 176 && input[..8] == TABLE_MAGIC && ReadU32(input, 8) == TABLE_VERSION
    ensures input[12..76] == assets.morphology && input[76..140] == assets.model
    ensures ReadU32(input, 140) == count && input[144..176] == digest && input[176..] == payload
  {
    hide U32, ReadU32;
    var at140 := Low32(count) + digest;
    var at76 := assets.model + at140;
    var at12 := assets.morphology + at76;
    assert Embedded(input, 0, TableHeader(assets, count, digest));
    EmbeddedSplit(input, 0, TABLE_MAGIC, U32(TABLE_VERSION) + at12);
    EmbeddedSplit(input, 8, U32(TABLE_VERSION), at12);
    EmbeddedSplit(input, 12, assets.morphology, at76);
    EmbeddedSplit(input, 76, assets.model, at140);
    EmbeddedSplit(input, 140, Low32(count), digest);
    ReadOfU32(input, 8, TABLE_VERSION);
    ReadOfU32(input, 140, count);
    assert input[176..] == payload;
  }

  lemma {:induction false} TableJoined(assets: TokenAssets, input: seq<byte>, entries: seq<ParsedEntry>)
    requires assets.Valid() && HeaderFits(assets, input) && ReadU32(input, 140) == |entries|
    requires input[176..] == EncodeList(EncodeEntry, entries)
    ensures input == EncodeTable(assets, entries)
  {
    hide U32, ReadU32, EncodeList, EncodeEntry;
    ReadOfU32(input, 8, TABLE_VERSION);
    ReadOfU32(input, 140, |entries|);
    assert input[140..176] == input[140..144] + input[144..176];
    assert input[76..176] == input[76..140] + input[140..176];
    assert input[12..176] == input[12..76] + input[76..176];
    assert input[8..176] == input[8..12] + input[12..176];
    assert input[..176] == input[..8] + input[8..176];
    assert input == input[..176] + input[176..];
  }

  /** Different lists of entries have different encodings. */
  lemma EncodeInjective(assets: TokenAssets, first: seq<ParsedEntry>, second: seq<ParsedEntry>)
    requires assets.Valid() && TableCodable(first) && TableCodable(second)
    requires EncodeTable(assets, first) == EncodeTable(assets, second)
    ensures first == second
  {
    hide EncodeTable, EncodeEntry, EncodeList, EntryCodable, Distinct, PrefixFree, ReadU32;
    var input := EncodeTable(assets, first);
    TableParts(assets, input, first);
    TableParts(assets, input, second);
    EntryPrefixFree();
    ListUnique(EncodeEntry, EntryCodable, first, second, EncodeList(EncodeEntry, first), 0);
  }

  // ------------------------------------------------------------------------ encoding

  ghost predicate AllRepresentable(entries: seq<ParsedEntry>) {
    forall i: nat | i < |entries| :: EntryRepresentable(entries[i])
  }

  predicate EntryRepresentable(e: ParsedEntry) {
    forall k: nat | k < |e.candidates| :: Representable(e.candidates[k])
  }

  method WriteEntry(before: seq<byte>, e: ParsedEntry) returns (r: Option<seq<byte>>)
    requires EntryRepresentable(e)
    ensures r.Some? <==> EntryCodable(e)
    ensures r.Some? ==> r.value == before + EncodeEntry(e)
  {
    hide U32, Representable, EncodeList, TextOf, EncodeCandidate, Fits;
    if !ValidateSurface(e.surface) {
      TextOfWellFormed(e.surface);
      return None;
    }
    SurfaceNotEmpty(e.surface);
    if e.candidates == [] {
      return None;
    }
    if |e.surface| > U32_MAX || |e.candidates| > U32_MAX {
      return None;
    }
    var output := before + U32(|e.surface|) + U32(|e.candidates|) + e.surface;
    r := WriteCandidates(output, e.surface, e.candidates);
  }

  /** Writes the entries in the order of their surfaces, unless one of them has no binary form or a
      surface occurs twice. */
  method Encode(assets: TokenAssets, entries: seq<ParsedEntry>) returns (r: Option<seq<byte>>)
    requires AllRepresentable(entries)
    ensures r.Some? <==> TableCodable(entries)
    ensures r.Some? ==> TableCodable(Sort(entries)) && r.value == EncodeTable(assets, Sort(entries))
  {
    hide EntryCodable, Representable, EncodeEntry, EncodeList, Ordered, Sort, U32, Distinct, EntryRepresentable;
    if |entries| > U32_MAX {
      return None;
    }
    SortOrders(entries);
    SortKeeps(entries);
    var ordered := Sort(entries);
    var payload: seq<byte> := [];
    ListNone(EncodeEntry, ordered[..0]);
    for i := 0 to |ordered|
      invariant forall k: nat | k < i :: EntryCodable(ordered[k])
      invariant NoNeighbours(ordered[..i])
      invariant payload == EncodeList(EncodeEntry, ordered[..i])
    {
      if i > 0 && ordered[i - 1].surface == ordered[i].surface {
        Repeated(ordered, i - 1, i);
        return None;
      }
      var next := WriteEntry(payload, ordered[i]);
      if next.None? {
        return None;
      }
      payload := next.value;
      ListPush(EncodeEntry, ordered[..i], ordered[i]);
      assert ordered[..i + 1] == ordered[..i] + [ordered[i]];
    }
    assert ordered[..|ordered|] == ordered;
    NeighboursSuffice(ordered);
    var output := TABLE_MAGIC + U32(TABLE_VERSION) + assets.morphology + assets.model + U32(|entries|);
    output := output + assets.digest(payload) + payload;
    r := Some(output);
  }

  /** Sorting changes neither what can be encoded nor whether surfaces repeat. */
  lemma {:induction false} SortKeeps(entries: seq<ParsedEntry>)
    ensures |Sort(entries)| == |entries|
    ensures AllRepresentable(entries) ==> AllRepresentable(Sort(entries))
    ensures AllValid(EntryCodable, entries) <==> AllValid(EntryCodable, Sort(entries))
    ensures Distinct(entries, |entries|) <==> Distinct(Sort(entries), |Sort(entries)|)
  {
    hide EntryCodable, EntryRepresentable, Sort, Distinct, Ordered;
    SortOrders(entries);
    var sorted := Sort(entries);
    assert |sorted| == |multiset(sorted)| == |multiset(entries)| == |entries|;
    SameElements(entries, sorted);
    if Distinct(entries, |entries|) {
      DistinctPermutes(entries, sorted);
    }
    if Distinct(sorted, |sorted|) {
      DistinctPermutes(sorted, entries);
    }
    ByElement(entries);
    ByElement(sorted);
  }

  lemma SameElements(first: seq<ParsedEntry>, second: seq<ParsedEntry>)
    requires multiset(first) == multiset(second)
    ensures forall e :: e in first <==> e in second
  {
    forall e
      ensures e in first <==> e in second
    {
      assert e in first <==> e in multiset(first);
      assert e in second <==> e in multiset(second);
    }
  }

  lemma ByElement(entries: seq<ParsedEntry>)
    ensures AllValid(EntryCodable, entries) <==> forall e | e in entries :: EntryCodable(e)
    ensures AllRepresentable(entries) <==> forall e | e in entries :: EntryRepresentable(e)
  {
    hide EntryCodable, EntryRepresentable;
  }

  /** The encoding is that of the set of entries. */
  lemma {:induction false} OrderIndependent(assets: TokenAssets, first: seq<ParsedEntry>, second: seq<ParsedEntry>)
    requires multiset(first) == multiset(second) && TableCodable(first)
    ensures EncodeTable(assets, Sort(first)) == EncodeTable(assets, Sort(second))
  {
    hide EncodeTable, Sort, Ordered, Distinct, EntryCodable;
    SortOrders(first);
    SortOrders(second);
    SortKeeps(first);
    OneOrder(Sort(first), Sort(second));
  }

  // ------------------------------------------------------------------------- loading

  /** Parses the entries behind the header. */
  method ParseEntries(payload: seq<byte>, count: nat) returns (r: Option<seq<ParsedEntry>>)
    ensures r.Some? ==>
      |r.value| == count && AllValid(EntryCodable, r.value) && payload == EncodeList(EncodeEntry, r.value)
    ensures forall entries: seq<ParsedEntry> | |entries| == count && AllValid(EntryCodable, entries) ::
      payload == EncodeList(EncodeEntry, entries) ==> r == Some(entries)
  {
    hide EncodeList, EncodeEntry, EntryCodable, Found, ListFound, NoList, PrefixFree;
    var reader := new BinaryReader(payload);
    EntryPrefixFree();
    var entries: seq<ParsedEntry> := [];
    ListStart(EncodeEntry, EntryCodable, payload, 0);
    for i := 0 to count
      invariant reader.Valid() && |entries| == i
      invariant ListFound(EncodeEntry, EntryCodable, payload, 0, entries, reader.position)
    {
      ghost var middle := reader.position;
      var entry := ReadEntry(reader);
      if entry.None? {
        ListMisses(EncodeEntry, EntryCodable, payload, 0, entries, middle, count, reader.position);
        NoEntries(payload, count);
        return None;
      }
      ListGrows(EncodeEntry, EntryCodable, payload, 0, entries, middle, entry.value, reader.position);
      entries := entries + [entry.value];
    }
    OnlyEntries(payload, entries, reader.position);
    if reader.position != |payload| {
      return None;
    }
    r := Some(entries);
  }

  lemma NoEntries(payload: seq<byte>, count: nat)
    requires NoList(EncodeEntry, EntryCodable, payload, 0, count)
    ensures forall entries: seq<ParsedEntry> | |entries| == count && AllValid(EntryCodable, entries) ::
      payload != EncodeList(EncodeEntry, entries)
  {
    hide EncodeList, EncodeEntry, EntryCodable, AllValid;
    assert payload[0..|payload|] == payload;
  }

  lemma {:induction false} OnlyEntries(payload: seq<byte>, entries: seq<ParsedEntry>, end: nat)
    requires ListFound(EncodeEntry, EntryCodable, payload, 0, entries, end)
    ensures AllValid(EntryCodable, entries)
    ensures end == |payload| ==> payload == EncodeList(EncodeEntry, entries)
    ensures forall others: seq<ParsedEntry> | |others| == |entries| && AllValid(EntryCodable, others) ::
      payload == EncodeList(EncodeEntry, others) ==> others == entries && end == |payload|
  {
    hide EncodeList, EncodeEntry, EntryCodable, AllValid, PrefixFree;
    assert payload[0..|payload|] == payload;
    EntryPrefixFree();
    forall others: seq<ParsedEntry> | |others| == |entries| && AllValid(EntryCodable, others)
        && payload == EncodeList(EncodeEntry, others)
      ensures others == entries && end == |payload|
    {
      assert Embedded(payload, 0, EncodeList(EncodeEntry, others));
      ListUnique(EncodeEntry, EntryCodable, entries, others, payload, 0);
    }
  }

  /** Loads an input exactly if it is the encoding of entries with distinct surfaces, and then the
      table that holds those entries. */
  method FromBytes(assets: TokenAssets, hash: seq<byte> -> nat, input: seq<byte>) returns (r: Option<Table>)
    requires assets.Valid()
    ensures r.Some? ==>
      r.value.Valid() && TableCodable(r.value.parsed) && EncodeTable(assets, r.value.parsed) == input
    ensures forall entries | TableCodable(entries) && EncodeTable(assets, entries) == input ::
      r.Some? && r.value.parsed == entries
  {
    hide EncodeTable, EncodeEntry, EncodeList, EntryCodable, Distinct, ReadU32, TokenAssets.Valid;
    TablesAt(assets, input);
    if |input| < 176 {
      return None;
    }
    var reader := new BinaryReader(input);
    var magic := reader.Take(8);
    if magic.None? || magic.value != TABLE_MAGIC {
      return None;
    }
    var version := reader.TakeU32();
    if version.None? || version.value != TABLE_VERSION {
      return None;
    }
    var morphology := reader.Take(64);
    var model := reader.Take(64);
    if morphology.None? || model.None? || morphology.value != assets.morphology || model.value != assets.model {
      return None;
    }
    var count := reader.TakeU32();
    var digest := reader.Take(32);
    var payload := input[reader.position..];
    if count.None? || digest.None? || digest.value != assets.digest(payload) {
      return None;
    }
    var entries := ParseEntries(payload, count.value);
    if entries.None? {
      return None;
    }
    TableJoined(assets, input, entries.value);
    r := FromEntries(hash, entries.value);
  }

  lemma TablesAt(assets: TokenAssets, input: seq<byte>)
    requires assets.Valid()
    ensures forall entries | TableCodable(entries) && EncodeTable(assets, entries) == input ::
      HeaderFits(assets, input) && ReadU32(input, 140) == |entries| && input[176..] == EncodeList(EncodeEntry, entries)
  {
    hide EncodeTable, EncodeEntry, EncodeList, EntryCodable, Distinct, ReadU32;
    forall entries | TableCodable(entries) && EncodeTable(assets, entries) == input
      ensures HeaderFits(assets, input) && ReadU32(input, 140) == |entries|
      ensures input[176..] == EncodeList(EncodeEntry, entries)
    {
      TableParts(assets, input, entries);
    }
  }

  // -------------------------------------------------------------------- the whole way

  /** The candidates the entries give to a surface. */
  ghost predicate Maps(entries: seq<ParsedEntry>, surface: seq<byte>, candidates: seq<Candidate>) {
    exists i: nat :: i < |entries| && entries[i].surface == surface && entries[i].candidates == candidates
  }

  /** Encoding and loading keep every surface with its candidates in their order. */
  lemma {:induction false} SortedMaps(entries: seq<ParsedEntry>, surface: seq<byte>, candidates: seq<Candidate>)
    ensures Maps(Sort(entries), surface, candidates) <==> Maps(entries, surface, candidates)
  {
    hide Sort, Ordered;
    SortOrders(entries);
    SameElements(entries, Sort(entries));
    MapsIff(entries, surface, candidates);
    MapsIff(Sort(entries), surface, candidates);
  }

  lemma MapsIff(entries: seq<ParsedEntry>, surface: seq<byte>, candidates: seq<Candidate>)
    ensures Maps(entries, surface, candidates) <==> ParsedEntry(surface, candidates) in entries
  {
  }

  /** A lookup in the table loaded from encoded entries: exactly the candidates of the surface, and
      nothing for a surface that was not given. */
  method EncodeLoadGet(assets: TokenAssets, hash: seq<byte> -> nat, entries: seq<ParsedEntry>, surface: seq<byte>)
    returns (r: Option<seq<Candidate>>)
    requires assets.Valid() && AllRepresentable(entries) && TableCodable(entries)
    ensures r.Some? ==> Maps(entries, surface, r.value)
    ensures forall candidates | Maps(entries, surface, candidates) :: r == Some(candidates)
  {
    hide EncodeTable, EntryCodable, Distinct, Sort, TokenAssets.Valid, AllRepresentable;
    var encoded := Encode(assets, entries);
    var table := FromBytes(assets, hash, encoded.value);
    r := table.value.Get(surface);
    forall candidates
      ensures Maps(Sort(entries), surface, candidates) <==> Maps(entries, surface, candidates)
    {
      SortedMaps(entries, surface, candidates);
    }
  }
}
