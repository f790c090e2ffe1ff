/**
 * The resolved groups (groupsMap, a Map<number, IGroup>) and the views
 * the registry derives from them: the groups with a membership, their
 * reversal, and the membership ids still to be resolved.
 */
module GroupMap {
  import opened Wrappers
  import opened GroupTypes
  import opened Seqs
  import opened Memberships

  /**
   * A JavaScript Map: its keys in insertion order, and the value of each
   * key. Setting a present key keeps its position.
   */
  datatype GroupsMap = GroupsMap(order: seq<int>, entries: map<int, Group>)

  /** The two parts agree, and every group is stored under its own id. */
  predicate WellFormed(gm: GroupsMap) {
    Distinct(gm.order) &&
    (forall k :: k in gm.entries ==> k in gm.order) &&
    (forall k :: k in gm.order ==> k in gm.entries) &&
    (forall k :: k in gm.entries ==> gm.entries[k].id == k)
  }

  const EmptyMap: GroupsMap := GroupsMap([], map[])

  /**
   * groupsMap.set(group.id, group) in setGroup: the value is replaced, a
   * new key goes last, and the other keys keep their values and places.
   */
  function MapSet(gm: GroupsMap, g: Group): (r: GroupsMap)
    ensures g.id in r.entries && r.entries[g.id] == g
    ensures forall k :: k != g.id ==> (k in r.entries <==> k in gm.entries)
    ensures forall k :: k != g.id && k in gm.entries ==> r.entries[k] == gm.entries[k]
    ensures |gm.order| <= |r.order| <= |gm.order| + 1
    ensures r.order[..|gm.order|] == gm.order
    ensures g.id in r.order
    ensures WellFormed(gm) ==> WellFormed(r)
  {
    var order := if g.id in gm.order then gm.order else gm.order + [g.id];
    assert order[..|gm.order|] == gm.order;
    GroupsMap(order, gm.entries[g.id := g])
  }

  /** groups.forEach(setGroup): the groups set in turn. */
  function SetAll(gm: GroupsMap, gs: seq<Group>): (r: GroupsMap)
    ensures WellFormed(gm) ==> WellFormed(r)
    decreases |gs|
  {
    if gs == [] then gm else SetAll(MapSet(gm, gs[0]), gs[1..])
  }

  /** A group no fetched group shares its id with keeps its entry. */
  lemma {:induction false} SetAllKeeps(gm: GroupsMap, gs: seq<Group>, k: int)
    requires forall i :: 0 <= i < |gs| ==> gs[i].id != k
    ensures var r := SetAll(gm, gs);
      (k in r.entries <==> k in gm.entries) && (k in gm.entries ==> r.entries[k] == gm.entries[k])
    decreases |gs|
  {
    if gs != [] {
      SetAllKeeps(MapSet(gm, gs[0]), gs[1..], k);
    }
  }

  /** Each fetched id ends up holding its last fetched group. */
  lemma {:induction false} SetAllLastWins(gm: GroupsMap, gs: seq<Group>, i: nat)
    requires i < |gs|
    requires forall j :: i < j < |gs| ==> gs[j].id != gs[i].id
    ensures gs[i].id in SetAll(gm, gs).entries && SetAll(gm, gs).entries[gs[i].id] == gs[i]
    decreases |gs|
  {
    if i == 0 {
      SetAllKeeps(MapSet(gm, gs[0]), gs[1..], gs[0].id);
    } else {
      SetAllLastWins(MapSet(gm, gs[0]), gs[1..], i - 1);
    }
  }

  /** Keys already present keep their places; new keys only go after them. */
  lemma {:induction false} SetAllKeepsOrder(gm: GroupsMap, gs: seq<Group>)
    ensures |gm.order| <= |SetAll(gm, gs).order|
    ensures SetAll(gm, gs).order[..|gm.order|] == gm.order
    decreases |gs|
  {
    if gs != [] {
      var m := MapSet(gm, gs[0]);
      SetAllKeepsOrder(m, gs[1..]);
      var r := SetAll(gm, gs);
      assert r.order[..|gm.order|] == r.order[..|m.order|][..|gm.order|];
    }
  }

  // ---------------------------------------------------------------
  // groups: Array.from(groupsMap.values()).filter(x => localGroups[x.id])
  // ---------------------------------------------------------------

  /** The values under the keys of `order`, kept when a membership has the group's id. */
  function FilterGroups(order: seq<int>, entries: map<int, Group>, a: seq<LocalGroup>): (r: seq<Group>)
    ensures |r| <= |order|
  {
    if order == [] then []
    else
      var k := order[0];
      (if k in entries && k in KeyById(a) then [entries[k]] else [])
        + FilterGroups(order[1..], entries, a)
  }

  /** The groups getter. */
  function GroupsView(gm: GroupsMap, a: seq<LocalGroup>): (r: seq<Group>)
    ensures |r| <= |gm.order|
  {
    FilterGroups(gm.order, gm.entries, a)
  }

  /**
   * The filtered values are exactly the stored groups under keys in
   * `order` that some membership refers to.
   */
  lemma {:induction false} FilterGroupsMembers(order: seq<int>, entries: map<int, Group>, a: seq<LocalGroup>)
    ensures forall g :: g in FilterGroups(order, entries, a) <==>
      (exists k :: k in order && k in entries && entries[k] == g && HasId(a, k))
  {
    if order != [] {
      FilterGroupsMembers(order[1..], entries, a);
      assert forall k :: k in order <==> k == order[0] || k in order[1..];
    }
  }

  /**
   * For a well-formed map, the groups view holds exactly the loaded groups
   * that have a membership.
   */
  lemma GroupsViewMembers(gm: GroupsMap, a: seq<LocalGroup>)
    requires WellFormed(gm)
    ensures forall g :: g in GroupsView(gm, a) <==>
      g.id in gm.entries && gm.entries[g.id] == g && HasId(a, g.id)
  {
    FilterGroupsMembers(gm.order, gm.entries, a);
  }

  /** The filter repeats no group, and each group it keeps comes from a key. */
  lemma {:induction false} FilterGroupsOrdered(order: seq<int>, entries: map<int, Group>, a: seq<LocalGroup>)
    requires Distinct(order)
    requires forall k :: k in entries ==> entries[k].id == k
    ensures Distinct(FilterGroups(order, entries, a))
    ensures forall g :: g in FilterGroups(order, entries, a) ==> g.id in order
  {
    if order != [] {
      var rest := order[1..];
      assert Distinct(rest) by {
        forall i, j | 0 <= i < j < |rest| ensures rest[i] != rest[j] {
          assert rest[i] == order[i + 1] && rest[j] == order[j + 1];
        }
      }
      assert order[0] !in rest by {
        forall i | 0 <= i < |rest| ensures rest[i] != order[0] {
          assert rest[i] == order[i + 1];
        }
      }
      FilterGroupsOrdered(rest, entries, a);
      var t := FilterGroups(rest, entries, a);
      var h := if order[0] in entries && order[0] in KeyById(a) then [entries[order[0]]] else [];
      assert FilterGroups(order, entries, a) == h + t;
      forall i, j | 0 <= i < j < |h + t| ensures (h + t)[i] != (h + t)[j] {
        if i < |h| {
          assert (h + t)[j] == t[j - |h|] && t[j - |h|] in t;
        } else {
          assert (h + t)[i] == t[i - |h|] && (h + t)[j] == t[j - |h|];
        }
      }
      assert forall g :: g in h + t ==> g in h || g in t;
    }
  }

  /**
   * Every position moved one key later: increasing positions stay
   * increasing, and none of them is the first key any more.
   */
  function Shift(ps: seq<int>): (r: seq<int>)
    ensures |r| == |ps|
    ensures Increasing(ps) ==> Increasing(r)
    ensures (forall i :: 0 <= i < |ps| ==> ps[i] >= 0) ==> forall i :: 0 <= i < |r| ==> r[i] >= 1
  {
    seq(|ps|, i requires 0 <= i < |ps| => ps[i] + 1)
  }

  /** The positions in `order` of the keys whose values the filter keeps. */
  function KeptPositions(order: seq<int>, entries: map<int, Group>, a: seq<LocalGroup>): seq<int>
  {
    if order == [] then []
    else
      (if order[0] in entries && order[0] in KeyById(a) then [0] else [])
        + Shift(KeptPositions(order[1..], entries, a))
  }

  /** Strictly increasing positions. */
  predicate Increasing(ps: seq<int>) {
    forall i, j :: 0 <= i < j < |ps| ==> ps[i] < ps[j]
  }

  /** r holds, one for one, the values under the positions ps of `order`. */
  predicate ValuesAt(order: seq<int>, entries: map<int, Group>, ps: seq<int>, r: seq<Group>) {
    |ps| == |r| &&
    forall i :: 0 <= i < |ps| ==> 0 <= ps[i] < |order| && order[ps[i]] in entries && r[i] == entries[order[ps[i]]]
  }

  /**
   * The filter keeps the map's iteration order: its result is the values
   * under a strictly increasing run of positions of `order`.
   */
  lemma {:induction false} FilterGroupsKeyOrder(order: seq<int>, entries: map<int, Group>, a: seq<LocalGroup>)
    ensures ValuesAt(order, entries, KeptPositions(order, entries, a), FilterGroups(order, entries, a))
    ensures Increasing(KeptPositions(order, entries, a))
  {
    if order != [] {
      var rest := order[1..];
      FilterGroupsKeyOrder(rest, entries, a);
      var keep := order[0] in entries && order[0] in KeyById(a);
      KeyOrderStep(order, entries, KeptPositions(rest, entries, a), FilterGroups(rest, entries, a), keep);
    }
  }

  lemma KeyOrderStep(order: seq<int>, entries: map<int, Group>, pt: seq<int>, t: seq<Group>, keep: bool)
    requires order != [] && (keep ==> order[0] in entries)
    requires ValuesAt(order[1..], entries, pt, t) && Increasing(pt)
    ensures ValuesAt(order, entries, (if keep then [0] else []) + Shift(pt),
                     (if keep then [entries[order[0]]] else []) + t)
    ensures Increasing((if keep then [0] else []) + Shift(pt))
  {
    var ph := if keep then [0] else [];
    var h := if keep then [entries[order[0]]] else [];
    ValuesAtShift(order, entries, ph, h, pt, t);
    IncreasingShift(ph, pt);
  }

  lemma ValuesAtShift(order: seq<int>, entries: map<int, Group>, ph: seq<int>, h: seq<Group>, pt: seq<int>, t: seq<Group>)
    requires order != [] && ValuesAt(order[1..], entries, pt, t)
    requires (ph == [] && h == []) || (ph == [0] && order[0] in entries && h == [entries[order[0]]])
    ensures ValuesAt(order, entries, ph + Shift(pt), h + t)
  {
    var ps, r := ph + Shift(pt), h + t;
    forall i | 0 <= i < |ps|
      ensures 0 <= ps[i] < |order| && order[ps[i]] in entries && r[i] == entries[order[ps[i]]]
    {
      if i >= |ph| {
        assert ps[i] == pt[i - |ph|] + 1 && r[i] == t[i - |ph|];
        assert order[ps[i]] == order[1..][pt[i - |ph|]];
      }
    }
  }

  lemma IncreasingShift(ph: seq<int>, pt: seq<int>)
    requires ph == [] || ph == [0]
    requires Increasing(pt) && forall i :: 0 <= i < |pt| ==> pt[i] >= 0
    ensures Increasing(ph + Shift(pt))
  {
    var ps := ph + Shift(pt);
    forall i, j | 0 <= i < j < |ps| ensures ps[i] < ps[j] {
      assert ps[j] == pt[j - |ph|] + 1;
      if i >= |ph| {
        assert ps[i] == pt[i - |ph|] + 1;
      }
    }
  }

  /**
   * groupsReverse as intended: the groups view back to front, leaving the
   * groups view itself as it was. (The getter as written reverses the
   * cached array of the groups getter in place; GroupRegistry.GroupsGetters
   * models that.)
   */
  function GroupsReverse(gm: GroupsMap, a: seq<LocalGroup>): (r: seq<Group>)
    ensures |r| == |GroupsView(gm, a)|
    ensures forall k :: 0 <= k < |r| ==> r[k] == GroupsView(gm, a)[|r| - 1 - k]
  {
    ReverseAll(GroupsView(gm, a));
    Reverse(GroupsView(gm, a))
  }

  /** With two or more groups the reversed view differs from the view. */
  lemma GroupsReverseDiffers(gm: GroupsMap, a: seq<LocalGroup>)
    requires WellFormed(gm) && |GroupsView(gm, a)| >= 2
    ensures GroupsReverse(gm, a) != GroupsView(gm, a)
  {
    var v := GroupsView(gm, a);
    FilterGroupsOrdered(gm.order, gm.entries, a);
    assert GroupsReverse(gm, a)[0] == v[|v| - 1] != v[0];
  }

  lemma ReverseAll<T>(s: seq<T>)
    ensures forall k :: 0 <= k < |s| ==> Reverse(s)[k] == s[|s| - 1 - k]
  {
    forall k | 0 <= k < |s| ensures Reverse(s)[k] == s[|s| - 1 - k] {
      ReverseAt(s, k);
    }
  }

  // ---------------------------------------------------------------
  // loadNotLoadGroups: the ids to resolve
  // ---------------------------------------------------------------

  /** Object.keys(localGroups).map(toNumber).filter(id => !groupsMap.has(id)). */
  function MissingIds(a: seq<LocalGroup>, gm: GroupsMap): (r: set<int>)
    ensures forall k :: k in r <==> HasId(a, k) && k !in gm.entries
  {
    set k | k in KeyById(a) && k !in gm.entries
  }

  /**
   * After the fetched groups are set, an id that was requested and came
   * back is no longer missing, and no id becomes missing.
   */
  lemma {:induction false} SetAllResolves(a: seq<LocalGroup>, gm: GroupsMap, gs: seq<Group>)
    ensures MissingIds(a, SetAll(gm, gs)) <= MissingIds(a, gm)
    ensures forall i :: 0 <= i < |gs| ==> gs[i].id !in MissingIds(a, SetAll(gm, gs))
    decreases |gs|
  {
    if gs != [] {
      var m := MapSet(gm, gs[0]);
      SetAllResolves(a, m, gs[1..]);
      SetAllKeepsKey(m, gs[1..], gs[0].id);
      forall i | 1 <= i < |gs| ensures gs[i].id !in MissingIds(a, SetAll(gm, gs)) {
        assert gs[i] == gs[1..][i - 1];
      }
    }
  }

  /** A key, once present, stays present. */
  lemma {:induction false} SetAllKeepsKey(gm: GroupsMap, gs: seq<Group>, k: int)
    requires k in gm.entries
    ensures k in SetAll(gm, gs).entries
    decreases |gs|
  {
    if gs != [] {
      SetAllKeepsKey(MapSet(gm, gs[0]), gs[1..], k);
    }
  }
}
