/** Assignment of inner groups: a clitic joins the word before it. */
module InnerGroups {
  import opened Wrappers
  import opened Bytes
  import opened SidecarFormat

  /** What the assignment looks at: whether a unit takes the Turkish path, its kind, and whether
      its text is a phonological clitic. */
  datatype UnitView = UnitView(turkish: bool, whitespace: bool, lineBreak: bool, clitic: bool) {
    predicate Blank() {
      turkish && whitespace
    }

    predicate Content() {
      turkish && !whitespace && !lineBreak
    }
  }

  /** The groups behind a list of group numbers, `None` if the numbers are not canonical. */
  function IdsAfter(ids: seq<Option<nat>>): (r: Option<Groups>)
    ensures r.Some? ==> r.value.Valid()
  {
    if ids == [] then Some(NO_GROUPS)
    else
      var before := IdsAfter(ids[..|ids| - 1]);
      if before.None? then None
      else
        var coded := EncodeGroup(before.value, ids[|ids| - 1]);
        if coded.None? then None else Some(coded.value.1)
  }

  lemma {:induction false} UnitsCarryIds(units: seq<SidecarUnit>, ids: seq<Option<nat>>)
    requires |units| == |ids| && forall i: nat | i < |ids| :: units[i].groupId == ids[i]
    ensures GroupsAfter(units) == IdsAfter(ids)
  {
    if units != [] {
      UnitsCarryIds(units[..|units| - 1], ids[..|ids| - 1]);
    }
  }

  lemma {:induction false} IdsPush(ids: seq<Option<nat>>, id: Option<nat>)
    requires IdsAfter(ids).Some? && EncodeGroup(IdsAfter(ids).value, id).Some?
    ensures IdsAfter(ids + [id]) == Some(EncodeGroup(IdsAfter(ids).value, id).value.1)
  {
    assert (ids + [id])[..|ids|] == ids;
  }

  /** Repeating the last group keeps the numbers canonical. */
  lemma {:induction false} IdsRepeat(ids: seq<Option<nat>>, g: nat, count: nat)
    requires IdsAfter(ids).Some? && IdsAfter(ids).value.previous == Some(g)
    ensures IdsAfter(ids + seq(count, _ => Some(g))) == IdsAfter(ids)
  {
    if count == 0 {
      assert ids + seq(count, _ => Some(g)) == ids;
    } else {
      IdsRepeat(ids, g, count - 1);
      IdsPush(ids + seq(count - 1, _ => Some(g)), Some(g));
      assert ids + seq(count, _ => Some(g)) == ids + seq(count - 1, _ => Some(g)) + [Some(g)];
    }
  }

  /** The last content unit before a position that a clitic there would join. */
  function PreviousContent(units: seq<UnitView>, i: nat): (p: Option<nat>)
    requires i <= |units|
    ensures p.Some? ==> p.value < i && units[p.value].Content() && forall k: nat | p.value < k < i :: units[k].Blank()
  {
    if i == 0 then None
    else if units[i - 1].Blank() then PreviousContent(units, i - 1)
    else if units[i - 1].Content() then Some(i - 1)
    else None
  }

  /** Whether the unit joins the group of the content before it. */
  predicate Joins(units: seq<UnitView>, i: nat)
    requires i < |units|
  {
    units[i].Content() && units[i].clitic && PreviousContent(units, i).Some?
  }

  /** The number of groups opened before a position. */
  function Opened(units: seq<UnitView>, i: nat): nat
    requires i <= |units|
  {
    if i == 0 then 0
    else Opened(units, i - 1) + if units[i - 1].Content() && !Joins(units, i - 1) then 1 else 0
  }

  /** The group of a content unit: its own, or that of the content it joins. */
  function ContentGroup(units: seq<UnitView>, i: nat): nat
    requires i < |units|
  {
    if Joins(units, i) then ContentGroup(units, PreviousContent(units, i).value) else Opened(units, i)
  }

  /** The groups of the first n units: content has its group, a blank that a join bridges has the
      group of the join, and nothing else has one. */
  ghost predicate Assigned(units: seq<UnitView>, n: nat, ids: seq<Option<nat>>)
    requires n <= |units| && n <= |ids|
  {
    forall k: nat | k < n :: HasGroup(units, n, k, ids[k])
  }

  ghost predicate HasGroup(units: seq<UnitView>, n: nat, k: nat, id: Option<nat>)
    requires k < n <= |units|
  {
    id ==
      if units[k].Content() then Some(ContentGroup(units, k))
      else if Bridged(units, n, k) then Some(ContentGroup(units, PreviousContent(units, k).value))
      else None
  }

  /** A blank between content and a clitic among the first n units that joins it. */
  predicate Bridged(units: seq<UnitView>, n: nat, k: nat)
    requires n <= |units| && k < n
  {
    && units[k].Blank() && PreviousContent(units, k).Some?
    && exists j: nat :: k < j < n && Joins(units, j) && PreviousContent(units, j) == PreviousContent(units, k)
  }

  lemma {:induction false} IdsPrevious(ids: seq<Option<nat>>)
    requires IdsAfter(ids).Some?
    ensures IdsAfter(ids).value.previous == if ids == [] then None else ids[|ids| - 1]
  {
  }

  lemma {:induction false} IdsPrefix(ids: seq<Option<nat>>, n: nat)
    requires n <= |ids| && IdsAfter(ids).Some?
    ensures IdsAfter(ids[..n]).Some?
  {
    if n < |ids| {
      IdsPrefix(ids[..|ids| - 1], n);
      assert ids[..|ids| - 1][..n] == ids[..n];
    } else {
      assert ids[..n] == ids;
    }
  }

  /** Units without a group open none. */
  lemma {:induction false} IdsSkip(ids: seq<Option<nat>>, n: nat)
    requires n <= |ids| && IdsAfter(ids).Some? && forall k: nat | n <= k < |ids| :: ids[k].None?
    ensures IdsAfter(ids[..n]).Some? && IdsAfter(ids[..n]).value.next == IdsAfter(ids).value.next
  {
    IdsPrefix(ids, n);
    if n < |ids| {
      var body := ids[..|ids| - 1];
      IdsSkip(body, n);
      assert body[..n] == ids[..n];
    } else {
      assert ids[..n] == ids;
    }
  }

  /** The groups of the prefix that ends behind the content at p, and of the filled prefix. */
  lemma {:induction false} FilledIds(before: seq<Option<nat>>, after: seq<Option<nat>>, p: nat, g: nat)
    requires p < |before| && |after| == |before| + 1 && IdsAfter(before).Some?
    requires before[p] == Some(g) && before[..p + 1] == after[..p + 1]
    requires forall k: nat | p < k < |before| :: before[k].None?
    requires forall k: nat | p < k < |after| :: after[k] == Some(g)
    ensures IdsAfter(after).Some? && IdsAfter(after).value.next == IdsAfter(before).value.next
  {
    IdsSkip(before, p + 1);
    IdsPrevious(before[..p + 1]);
    IdsRepeat(before[..p + 1], g, |after| - p - 1);
    assert after == before[..p + 1] + seq(|after| - p - 1, _ => Some(g));
  }

  /** A unit that does not join leaves the bridges before it as they are. */
  lemma SameBridges(units: seq<UnitView>, n: nat, k: nat)
    requires n < |units| && k < n && !(Joins(units, n) && PreviousContent(units, n) == PreviousContent(units, k))
    ensures Bridged(units, n + 1, k) == Bridged(units, n, k)
  {
    if Bridged(units, n + 1, k) {
      var j: nat :| k < j < n + 1 && Joins(units, j) && PreviousContent(units, j) == PreviousContent(units, k);
      assert j < n;
    }
  }

  /** A unit that does not join leaves the groups before it as they are. */
  lemma {:induction false} GroupKept(units: seq<UnitView>, n: nat, k: nat, id: Option<nat>)
    requires k < n < |units| && HasGroup(units, n, k, id)
    requires !(Joins(units, n) && PreviousContent(units, n) == PreviousContent(units, k))
    ensures HasGroup(units, n + 1, k, id)
  {
    hide Joins, PreviousContent, ContentGroup;
    SameBridges(units, n, k);
  }

  /** No unit is bridged by itself. */
  lemma {:induction false} LatestGroup(units: seq<UnitView>, n: nat)
    requires n < |units|
    ensures HasGroup(units, n + 1, n, if units[n].Content() then Some(ContentGroup(units, n)) else None)
  {
    hide Joins, PreviousContent, ContentGroup;
  }

  lemma {:induction false} BridgedGroup(units: seq<UnitView>, n: nat, p: nat, k: nat)
    requires n < |units| && Joins(units, n) && PreviousContent(units, n) == Some(p) && p < k < n
    ensures HasGroup(units, n + 1, k, Some(ContentGroup(units, p)))
  {
    hide Joins, ContentGroup;
    assert units[k].Blank();
    PreviousOfBlank(units, n, k);
  }

  /** Assigning a unit that joins nothing. */
  lemma {:induction false} AssignedAlone(units: seq<UnitView>, n: nat, before: seq<Option<nat>>, after: seq<Option<nat>>)
    requires n < |units| && |before| == |after| == |units| && Assigned(units, n, before) && !Joins(units, n)
    requires after[..n] == before[..n]
    requires after[n] == if units[n].Content() then Some(Opened(units, n)) else None
    ensures Assigned(units, n + 1, after)
  {
    hide HasGroup, PreviousContent, Opened, Joins;
    LatestGroup(units, n);
    forall k: nat | k < n
      ensures HasGroup(units, n + 1, k, after[k])
    {
      assert after[..n][k] == before[..n][k];
      GroupKept(units, n, k, before[k]);
    }
  }

  /** Between the content before a position and the position nothing is assigned. */
  lemma {:induction false} BlanksUnassigned(units: seq<UnitView>, n: nat, ids: seq<Option<nat>>, k: nat)
    requires n <= |units| && n <= |ids| && Assigned(units, n, ids)
    requires PreviousContent(units, n).Some? && PreviousContent(units, n).value < k < n
    ensures ids[k].None?
  {
    assert units[k].Blank();
    assert forall j: nat | k < j < n :: units[j].Blank();
  }

  lemma {:induction false} PreviousOfBlank(units: seq<UnitView>, n: nat, k: nat)
    requires n <= |units| && PreviousContent(units, n).Some? && PreviousContent(units, n).value < k <= n
    ensures PreviousContent(units, k) == PreviousContent(units, n)
  {
    if k < n {
      assert units[n - 1].Blank();
      PreviousOfBlank(units, n - 1, k);
    }
  }

  /** Assigning a clitic that joins the content at p. */
  lemma {:induction false} AssignedJoin(units: seq<UnitView>, n: nat, p: nat, before: seq<Option<nat>>, after: seq<Option<nat>>)
    requires n < |units| && |before| == |after| == |units| && Assigned(units, n, before)
    requires Joins(units, n) && PreviousContent(units, n) == Some(p)
    requires after[..p + 1] == before[..p + 1]
    requires forall k: nat | p < k <= n :: after[k] == Some(ContentGroup(units, p))
    ensures Assigned(units, n + 1, after)
  {
    hide HasGroup, Opened, Joins;
    LatestGroup(units, n);
    forall k: nat | k < n
      ensures HasGroup(units, n + 1, k, after[k])
    {
      if k > p {
        BridgedGroup(units, n, p, k);
      } else {
        assert after[..p + 1][k] == before[..p + 1][k];
        GroupKept(units, n, k, before[k]);
      }
    }
    JoinedGroup(units, n, p);
  }

  lemma {:induction false} JoinedGroup(units: seq<UnitView>, n: nat, p: nat)
    requires n < |units| && Joins(units, n) && PreviousContent(units, n) == Some(p)
    ensures units[n].Content() && ContentGroup(units, n) == ContentGroup(units, p)
  {
  }

  /** Assigns the groups in place. It only fails when the group counter overflows. */
  method AssignInnerGroups(units: seq<UnitView>, groups: array<Option<nat>>) returns (ok: bool)
    requires groups.Length == |units| && forall k: nat | k < |units| :: groups[k].None?
    modifies groups
    ensures ok <==> Opened(units, |units|) <= U32_MAX
    ensures ok ==> Assigned(units, |units|, groups[..])
    ensures ok ==> IdsAfter(groups[..]).Some?
  {
    hide Assigned, Bridged, IdsAfter, ContentGroup;
    var nextGroup := 0;
    var previousContent: Option<nat> := None;
    NothingAssigned(units, groups[..]);
    for i := 0 to |units|
      invariant nextGroup == Opened(units, i) <= U32_MAX && previousContent == PreviousContent(units, i)
      invariant forall k: nat | i <= k < |units| :: groups[k].None?
      invariant Assigned(units, i, groups[..])
      invariant IdsAfter(groups[..i]).Some? && IdsAfter(groups[..i]).value.next == nextGroup
    {
      ghost var before := groups[..];
      assert before[..i] == groups[..i];
      assert groups[..i + 1] == groups[..i] + [groups[i]];
      if !units[i].turkish {
        previousContent := None;
        LeftAlone(units, i, before, groups[..]);
        continue;
      }
      if units[i].whitespace {
        LeftAlone(units, i, before, groups[..]);
        continue;
      }
      if units[i].lineBreak {
        previousContent := None;
        LeftAlone(units, i, before, groups[..]);
        continue;
      }
      if units[i].clitic && previousContent.Some? {
        var p := previousContent.value;
        GroupOfContent(units, i, before, p);
        var group := if groups[p].Some? then groups[p].value else nextGroup;
        for k := p + 1 to i + 1
          invariant forall m: nat | p < m < k :: groups[m] == Some(group)
          invariant forall m: nat | m <= p || k <= m < |units| :: m < |units| ==> groups[m] == before[m]
        {
          groups[k] := Some(group);
        }
        assert groups[..][..p + 1] == before[..p + 1];
        AssignedJoin(units, i, p, before, groups[..]);
        JoinIds(units, i, before, groups[..], p, group);
        assert groups[..][..i + 1] == groups[..i + 1];
        previousContent := Some(i);
        continue;
      }
      groups[i] := Some(nextGroup);
      assert groups[..][..i] == before[..i];
      AssignedAlone(units, i, before, groups[..]);
      if nextGroup + 1 > U32_MAX {
        OpenedGrows(units, i + 1, |units|);
        return false;
      }
      FreshIds(before[..i], nextGroup);
      assert groups[..i + 1] == before[..i] + [Some(nextGroup)];
      nextGroup := nextGroup + 1;
      previousContent := Some(i);
    }
    assert groups[..|units|] == groups[..];
    ok := true;
  }

  lemma NothingAssigned(units: seq<UnitView>, ids: seq<Option<nat>>)
    requires |ids| == |units|
    ensures Assigned(units, 0, ids) && IdsAfter(ids[..0]) == Some(NO_GROUPS)
  {
  }

  lemma LeftAlone(units: seq<UnitView>, i: nat, before: seq<Option<nat>>, after: seq<Option<nat>>)
    requires i < |units| && |before| == |units| && after == before && before[i].None? && !units[i].Content()
    requires Assigned(units, i, before) && IdsAfter(before[..i]).Some?
    ensures Assigned(units, i + 1, after)
    ensures IdsAfter(after[..i] + [after[i]]).Some?
    ensures IdsAfter(after[..i] + [after[i]]).value.next == IdsAfter(before[..i]).value.next
  {
    hide Assigned;
    AssignedAlone(units, i, before, after);
    IdsPush(before[..i], None);
  }

  lemma {:induction false} GroupOfContent(units: seq<UnitView>, i: nat, ids: seq<Option<nat>>, p: nat)
    requires i < |units| && |ids| == |units| && Assigned(units, i, ids) && PreviousContent(units, i) == Some(p)
    ensures ids[p] == Some(ContentGroup(units, p))
  {
    assert units[p].Content();
  }

  lemma {:induction false} JoinIds(units: seq<UnitView>, i: nat, before: seq<Option<nat>>, after: seq<Option<nat>>, p: nat, g: nat)
    requires i < |units| && |before| == |after| == |units| && Assigned(units, i, before) && IdsAfter(before[..i]).Some?
    requires PreviousContent(units, i) == Some(p) && before[p] == Some(g) && after[..p + 1] == before[..p + 1]
    requires forall k: nat | p < k <= i :: after[k] == Some(g)
    ensures IdsAfter(after[..i + 1]).Some? && IdsAfter(after[..i + 1]).value.next == IdsAfter(before[..i]).value.next
  {
    hide Assigned;
    forall k: nat | p < k < i
      ensures before[k].None?
    {
      BlanksUnassigned(units, i, before, k);
    }
    assert before[..i][..p + 1] == before[..p + 1] && after[..i + 1][..p + 1] == after[..p + 1];
    FilledIds(before[..i], after[..i + 1], p, g);
  }

  lemma {:induction false} FreshIds(ids: seq<Option<nat>>, next: nat)
    requires IdsAfter(ids).Some? && IdsAfter(ids).value.next == next < U32_MAX
    ensures IdsAfter(ids + [Some(next)]).Some? && IdsAfter(ids + [Some(next)]).value.next == next + 1
  {
    IdsPush(ids, Some(next));
  }

  lemma {:induction false} OpenedGrows(units: seq<UnitView>, i: nat, n: nat)
    requires i <= n <= |units|
    ensures Opened(units, i) <= Opened(units, n)
  {
    if i < n {
      OpenedGrows(units, i, n - 1);
    }
  }
}
