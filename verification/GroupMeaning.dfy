/** Which units of a document share a group. */
module GroupMeaning {
  import opened Wrappers
  import opened Bytes
  import opened LexicalClasses
  import opened Text
  import opened Splitting
  import opened Alignment
  import opened Document
  import opened Run = PipelineRun
  import opened InnerGroups

  /** A Turkish unit that is neither blank nor a line break. */
  predicate Counts(u: TokenizedUnit) {
    u.mode.Turkish? && !u.kind.Whitespace? && !u.kind.LineBreak?
  }

  predicate IsGap(u: TokenizedUnit) {
    u.mode.Turkish? && u.kind.Whitespace?
  }

  /** The unit at `p` counts, and only gaps stand between it and the place `i`. */
  predicate Precedes(units: seq<TokenizedUnit>, p: nat, i: nat)
    requires i <= |units|
  {
    p < i && Counts(units[p]) && forall k: nat | p < k < i :: IsGap(units[k])
  }

  predicate Clitic(rules: CodeRules, raw: seq<byte>, u: TokenizedUnit) {
    && Counts(u) && u.start <= u.end <= |raw| && IsText(raw, u.start, u.end)
    && rules.isClitic(Values(CharsOf(raw, u.start, u.end).value))
  }

  /** A clitic takes the group of the unit it follows. */
  ghost predicate Clings(rules: CodeRules, raw: seq<byte>, units: seq<TokenizedUnit>, p: nat, i: nat)
    requires i < |units|
  {
    Clitic(rules, raw, units[i]) && Precedes(units, p, i)
  }

  ghost predicate ClingsToAny(rules: CodeRules, raw: seq<byte>, units: seq<TokenizedUnit>, i: nat)
    requires i < |units|
  {
    exists p: nat :: Clings(rules, raw, units, p, i)
  }

  /** The gap at `k` lies between the unit at `p` and a clitic that takes its group. */
  ghost predicate Bridges(rules: CodeRules, raw: seq<byte>, units: seq<TokenizedUnit>, p: nat, k: nat)
    requires k < |units|
  {
    IsGap(units[k]) && p < k && exists j: nat :: k < j < |units| && Clings(rules, raw, units, p, j)
  }

  /** The number is the first one that no unit before has. */
  predicate FirstFree(units: seq<TokenizedUnit>, i: nat, g: nat)
    requires i <= |units|
  {
    && (forall k: nat | k < i && units[k].groupId.Some? :: units[k].groupId.value < g)
    && (g == 0 || exists k: nat :: k < i && units[k].groupId == Some(g - 1))
  }

  /** Clitics and the gaps before them have the group of the unit they follow, every other unit that counts has
      the first free number, and nothing else has a group. */
  ghost predicate GroupsAre(rules: CodeRules, raw: seq<byte>, units: seq<TokenizedUnit>) {
    forall i: nat | i < |units| :: GroupIs(rules, raw, units, i)
  }

  ghost predicate GroupIs(rules: CodeRules, raw: seq<byte>, units: seq<TokenizedUnit>, i: nat)
    requires i < |units|
  {
    && (forall p: nat | Clings(rules, raw, units, p, i) :: units[i].groupId == units[p].groupId)
    && (Counts(units[i]) ==> units[i].groupId.Some?)
    && (Counts(units[i]) && !ClingsToAny(rules, raw, units, i) ==> FirstFree(units, i, units[i].groupId.value))
    && (forall p: nat | Bridges(rules, raw, units, p, i) :: units[i].groupId == units[p].groupId)
    && (!Counts(units[i]) && (forall p: nat :: !Bridges(rules, raw, units, p, i)) ==> units[i].groupId.None?)
  }

  // ------------------------------------------------------------ the assignment

  lemma ViewsAre(rules: CodeRules, raw: seq<byte>, units: seq<TokenizedUnit>, i: nat)
    requires Run.Inside(raw, units) && i < |units|
    ensures Views(rules, raw, units)[i].Content() <==> Counts(units[i])
    ensures Views(rules, raw, units)[i].Blank() <==> IsGap(units[i])
    ensures Counts(units[i]) ==> (Views(rules, raw, units)[i].clitic <==> Clitic(rules, raw, units[i]))
  {
    hide CharsOf;
  }

  lemma {:induction false} PreviousIs(rules: CodeRules, raw: seq<byte>, units: seq<TokenizedUnit>, p: nat, i: nat)
    requires Run.Inside(raw, units) && i <= |units|
    ensures PreviousContent(Views(rules, raw, units), i) == Some(p) <==> Precedes(units, p, i)
  {
    hide Views, CharsOf;
    if i > 0 {
      ViewsAre(rules, raw, units, i - 1);
      PreviousIs(rules, raw, units, p, i - 1);
      assert Counts(units[i - 1]) ==> !IsGap(units[i - 1]);
    }
  }

  lemma ClingsIs(rules: CodeRules, raw: seq<byte>, units: seq<TokenizedUnit>, p: nat, i: nat)
    requires Run.Inside(raw, units) && i < |units|
    ensures Clings(rules, raw, units, p, i) <==>
      Joins(Views(rules, raw, units), i) && PreviousContent(Views(rules, raw, units), i) == Some(p)
  {
    hide Views, CharsOf, PreviousContent, Precedes, Counts;
    ViewsAre(rules, raw, units, i);
    PreviousIs(rules, raw, units, p, i);
    assert Clitic(rules, raw, units[i]) ==> Counts(units[i]);
  }

  lemma BridgesIs(rules: CodeRules, raw: seq<byte>, units: seq<TokenizedUnit>, p: nat, k: nat)
    requires Run.Inside(raw, units) && k < |units|
    ensures Bridges(rules, raw, units, p, k) <==>
      Bridged(Views(rules, raw, units), |units|, k) && PreviousContent(Views(rules, raw, units), k) == Some(p)
  {
    hide Views, CharsOf, PreviousContent, Joins, Clitic;
    var views := Views(rules, raw, units);
    ViewsAre(rules, raw, units, k);
    PreviousIs(rules, raw, units, p, k);
    if Bridges(rules, raw, units, p, k) {
      var j: nat :| k < j < |units| && Clings(rules, raw, units, p, j);
      ClingsIs(rules, raw, units, p, j);
      assert Precedes(units, p, k);
    }
    if Bridged(views, |units|, k) && PreviousContent(views, k) == Some(p) {
      var j: nat :| k < j < |units| && Joins(views, j) && PreviousContent(views, j) == PreviousContent(views, k);
      ClingsIs(rules, raw, units, p, j);
      assert Precedes(units, p, k);
    }
  }

  lemma {:induction false} ContentGroupBelow(views: seq<UnitView>, k: nat)
    requires k < |views| && views[k].Content()
    ensures ContentGroup(views, k) < Opened(views, k + 1)
  {
    if Joins(views, k) {
      var p := PreviousContent(views, k).value;
      ContentGroupBelow(views, p);
      OpenedGrows(views, p + 1, k + 1);
    }
  }

  lemma {:induction false} OpenedGrows(views: seq<UnitView>, i: nat, j: nat)
    requires i <= j <= |views|
    ensures Opened(views, i) <= Opened(views, j)
    decreases j
  {
    if i < j {
      OpenedGrows(views, i, j - 1);
    }
  }

  lemma {:induction false} LastOpened(views: seq<UnitView>, i: nat) returns (k: nat)
    requires i <= |views| && Opened(views, i) > 0
    ensures k < i && views[k].Content() && ContentGroup(views, k) == Opened(views, i) - 1
  {
    hide PreviousContent;
    if views[i - 1].Content() && !Joins(views, i - 1) {
      k := i - 1;
    } else {
      k := LastOpened(views, i - 1);
    }
  }

  /** What the assignment says, with the numbers written into the units. */
  ghost predicate HasIds(rules: CodeRules, raw: seq<byte>, units: seq<TokenizedUnit>)
    requires Run.Inside(raw, units)
  {
    forall k: nat | k < |units| :: HasGroup(Views(rules, raw, units), |units|, k, units[k].groupId)
  }

  lemma GroupsBelow(rules: CodeRules, raw: seq<byte>, units: seq<TokenizedUnit>, i: nat, k: nat)
    requires Run.Inside(raw, units) && HasIds(rules, raw, units) && k < i <= |units| && units[k].groupId.Some?
    ensures units[k].groupId.value < Opened(Views(rules, raw, units), i)
  {
    hide Views, PreviousContent, Opened, ContentGroup, Joins, CharsOf;
    var views := Views(rules, raw, units);
    assert HasGroup(views, |units|, k, units[k].groupId);
    var at := if views[k].Content() then k else PreviousContent(views, k).value;
    ContentGroupBelow(views, at);
    OpenedGrows(views, at + 1, i);
  }

  lemma FreshIsFirstFree(rules: CodeRules, raw: seq<byte>, units: seq<TokenizedUnit>, i: nat)
    requires Run.Inside(raw, units) && HasIds(rules, raw, units) && i < |units|
    ensures FirstFree(units, i, Opened(Views(rules, raw, units), i))
  {
    hide Views, PreviousContent, Opened, ContentGroup, Joins, HasIds, HasGroup, CharsOf;
    var views := Views(rules, raw, units);
    forall k: nat | k < i && units[k].groupId.Some?
      ensures units[k].groupId.value < Opened(views, i)
    {
      GroupsBelow(rules, raw, units, i, k);
    }
    if Opened(views, i) > 0 {
      var k := LastOpened(views, i);
      HasGroupOf(rules, raw, units, k);
      assert units[k].groupId == Some(Opened(views, i) - 1);
    }
  }

  lemma HasGroupOf(rules: CodeRules, raw: seq<byte>, units: seq<TokenizedUnit>, k: nat)
    requires Run.Inside(raw, units) && HasIds(rules, raw, units) && k < |units|
    ensures HasGroup(Views(rules, raw, units), |units|, k, units[k].groupId)
    ensures Views(rules, raw, units)[k].Content() ==>
      units[k].groupId == Some(ContentGroup(Views(rules, raw, units), k))
  {
    hide Views, PreviousContent, ContentGroup, Joins;
  }

  lemma JoinedGroup(views: seq<UnitView>, i: nat, p: nat)
    requires i < |views| && Joins(views, i) && PreviousContent(views, i) == Some(p)
    ensures p < i && views[p].Content() && ContentGroup(views, i) == ContentGroup(views, p)
  {
    hide PreviousContent;
  }

  lemma OwnGroup(views: seq<UnitView>, i: nat)
    requires i < |views| && !Joins(views, i)
    ensures ContentGroup(views, i) == Opened(views, i)
  {
    hide PreviousContent, Joins, Opened;
  }

  lemma ClingingGroup(rules: CodeRules, raw: seq<byte>, units: seq<TokenizedUnit>, p: nat, i: nat)
    requires Run.Inside(raw, units) && HasIds(rules, raw, units) && i < |units| && Clings(rules, raw, units, p, i)
    ensures units[i].groupId == units[p].groupId
  {
    hide Views, PreviousContent, ContentGroup, HasIds, HasGroup, Clitic, Precedes;
    var views := Views(rules, raw, units);
    ClingsIs(rules, raw, units, p, i);
    JoinedGroup(views, i, p);
    ClingingCounts(rules, raw, units, p, i);
    ViewsAre(rules, raw, units, i);
    HasGroupOf(rules, raw, units, i);
    HasGroupOf(rules, raw, units, p);
  }

  lemma ClingingCounts(rules: CodeRules, raw: seq<byte>, units: seq<TokenizedUnit>, p: nat, i: nat)
    requires i < |units| && Clings(rules, raw, units, p, i)
    ensures Counts(units[i]) && Counts(units[p]) && p < i
  {
    hide CharsOf;
  }

  lemma BridgedGroupIs(rules: CodeRules, raw: seq<byte>, units: seq<TokenizedUnit>, p: nat, k: nat)
    requires Run.Inside(raw, units) && HasIds(rules, raw, units) && k < |units| && Bridges(rules, raw, units, p, k)
    ensures units[k].groupId == units[p].groupId
  {
    hide Views, PreviousContent, ContentGroup, HasIds, Bridged, Bridges;
    var views := Views(rules, raw, units);
    BridgesIs(rules, raw, units, p, k);
    HasGroupOf(rules, raw, units, k);
    BridgeEnds(rules, raw, units, p, k);
    ViewsAre(rules, raw, units, k);
    ViewsAre(rules, raw, units, p);
    HasGroupOf(rules, raw, units, p);
  }

  lemma BridgeEnds(rules: CodeRules, raw: seq<byte>, units: seq<TokenizedUnit>, p: nat, k: nat)
    requires k < |units| && Bridges(rules, raw, units, p, k)
    ensures p < |units| && Counts(units[p]) && !Counts(units[k])
  {
    hide CharsOf;
  }

  lemma UnbridgedGroup(rules: CodeRules, raw: seq<byte>, units: seq<TokenizedUnit>, k: nat)
    requires Run.Inside(raw, units) && HasIds(rules, raw, units) && k < |units| && !Counts(units[k])
    requires forall p: nat :: !Bridges(rules, raw, units, p, k)
    ensures units[k].groupId.None?
  {
    hide Views, PreviousContent, ContentGroup, HasIds, Bridges;
    var views := Views(rules, raw, units);
    ViewsAre(rules, raw, units, k);
    HasGroupOf(rules, raw, units, k);
    if Bridged(views, |units|, k) {
      BridgesIs(rules, raw, units, PreviousContent(views, k).value, k);
    }
  }

  lemma OwnGroupIs(rules: CodeRules, raw: seq<byte>, units: seq<TokenizedUnit>, i: nat)
    requires Run.Inside(raw, units) && HasIds(rules, raw, units) && i < |units| && Counts(units[i])
    ensures units[i].groupId.Some?
    ensures !ClingsToAny(rules, raw, units, i) ==> FirstFree(units, i, units[i].groupId.value)
  {
    hide Views, PreviousContent, ContentGroup, HasIds, HasGroup, Clings, FirstFree, Joins;
    var views := Views(rules, raw, units);
    ViewsAre(rules, raw, units, i);
    HasGroupOf(rules, raw, units, i);
    if !ClingsToAny(rules, raw, units, i) {
      if Joins(views, i) {
        JoinHasPrevious(views, i);
        ClingsIs(rules, raw, units, PreviousContent(views, i).value, i);
      }
      OwnGroup(views, i);
      FreshIsFirstFree(rules, raw, units, i);
    }
  }

  lemma JoinHasPrevious(views: seq<UnitView>, i: nat)
    requires i < |views| && Joins(views, i)
    ensures PreviousContent(views, i).Some?
  {
  }

  lemma IdsAreGroups(rules: CodeRules, raw: seq<byte>, units: seq<TokenizedUnit>)
    requires Run.Inside(raw, units) && HasIds(rules, raw, units)
    ensures GroupsAre(rules, raw, units)
  {
    hide HasIds, Clings, Bridges, FirstFree, Counts;
    forall i: nat | i < |units|
      ensures GroupIs(rules, raw, units, i)
    {
      forall p: nat | Clings(rules, raw, units, p, i)
        ensures p < |units| && units[i].groupId == units[p].groupId
      {
        ClingingCounts(rules, raw, units, p, i);
        ClingingGroup(rules, raw, units, p, i);
      }
      forall p: nat | Bridges(rules, raw, units, p, i)
        ensures p < |units| && units[i].groupId == units[p].groupId
      {
        BridgeEnds(rules, raw, units, p, i);
        BridgedGroupIs(rules, raw, units, p, i);
      }
      if Counts(units[i]) {
        OwnGroupIs(rules, raw, units, i);
      } else if forall p: nat :: !Bridges(rules, raw, units, p, i) {
        UnbridgedGroup(rules, raw, units, i);
      }
    }
  }

  /** The groups of every document that the pipeline groups. */
  lemma GroupedIs(rules: CodeRules, raw: seq<byte>, units: seq<TokenizedUnit>, grouped: seq<TokenizedUnit>)
    requires Grouped(rules, raw, units, grouped)
    ensures GroupsAre(rules, raw, grouped)
  {
    hide CharsOf, HasGroup, GroupsAre, View;
    forall i: nat | i < |units|
      ensures View(rules, raw, grouped[i]) == View(rules, raw, units[i])
    {
      SameView(rules, raw, units[i], grouped[i]);
    }
    assert Views(rules, raw, grouped) == Views(rules, raw, units);
    forall k: nat | k < |grouped|
      ensures HasGroup(Views(rules, raw, grouped), |grouped|, k, grouped[k].groupId)
    {
      assert GroupIds(grouped)[k] == grouped[k].groupId;
    }
    IdsAreGroups(rules, raw, grouped);
  }

  lemma SameView(rules: CodeRules, raw: seq<byte>, u: TokenizedUnit, v: TokenizedUnit)
    requires u.start <= u.end <= |raw| && v == u.(groupId := v.groupId)
    ensures View(rules, raw, v) == View(rules, raw, u)
  {
  }
}
