/**
 * The group registry store: the membership list, the resolved groups, the
 * config and the counters cache, with the actions that change them.
 * Storage reads, remote requests and the clock are parameters of the
 * actions that use them.
 */
module GroupRegistry {
  import opened Wrappers
  import opened GroupTypes
  import opened Seqs
  import opened Memberships
  import opened FolderDict
  import opened GroupCache
  import opened GroupMap

  /** The whole state of the store, as one value. */
  datatype StoreState = StoreState(
    localGroupsArray: seq<LocalGroup>,
    groupsMap: GroupsMap,
    config: Config,
    cachedGroupsData: Cache,
    isInit: bool)

  lemma LoadedHead(entries: seq<StoredFolder>, i: nat)
    requires i < |entries|
    ensures LoadedGroups(entries[i..]) ==
      (if entries[i].value.IdArray? then Pairs(FolderIds(entries[i].folder, entries[i].value.ids)) else [])
        + LoadedGroups(entries[i + 1..])
  {
    assert entries[i..][0] == entries[i] && entries[i..][1..] == entries[i + 1..];
  }

  lemma FlattenHead(d: Dict, i: nat)
    requires i < |d|
    ensures Flatten(d[i..]) == Pairs(d[i]) + Flatten(d[i + 1..])
  {
    assert d[i..][0] == d[i] && d[i..][1..] == d[i + 1..];
  }

  lemma UpsertAllSnoc(a: seq<LocalGroup>, gs: seq<LocalGroup>, g: LocalGroup)
    ensures UpsertAll(a, gs + [g]) == Upsert(UpsertAll(a, gs), g)
  {
    UpsertAllConcat(a, gs, [g]);
    assert [g][1..] == [];
  }

  /** Upserting one more id of a key is one more addLocalGroup. */
  lemma UpsertPairsStep(a: seq<LocalGroup>, folder: string, ids: seq<int>, j: nat)
    requires j < |ids|
    ensures UpsertAll(a, Pairs(FolderIds(folder, ids[..j + 1])))
      == Upsert(UpsertAll(a, Pairs(FolderIds(folder, ids[..j]))), LocalGroup(ids[j], folder))
  {
    assert ids[..j + 1] == ids[..j] + [ids[j]];
    PairsSnoc(folder, ids[..j], ids[j]);
    UpsertAllSnoc(a, Pairs(FolderIds(folder, ids[..j])), LocalGroup(ids[j], folder));
  }

  lemma DictGetAll(a: seq<LocalGroup>)
    ensures forall f :: Get(GroupIdsDictByFolderName(a), f) ==
                        if HasFolder(a, f) then Some(IdsInFolder(a, f)) else None
  {
    forall f {
      DictGet(a, f);
    }
  }

  class GroupsStore {
    var localGroupsArray: seq<LocalGroup>
    var groupsMap: GroupsMap
    var config: Config
    var cachedGroupsData: Cache
    var isInit: bool

    /** The resolved-groups map is a well-formed JavaScript Map keyed by group id. */
    ghost predicate Valid()
      reads this
    {
      WellFormed(groupsMap)
    }

    ghost function State(): StoreState
      reads this
    {
      StoreState(localGroupsArray, groupsMap, config, cachedGroupsData, isInit)
    }

    /** Every field but the membership list. */
    ghost function Others(): (GroupsMap, Config, Cache, bool)
      reads this
    {
      (groupsMap, config, cachedGroupsData, isInit)
    }

    /** The initial state: no memberships, no groups, the default config, an empty cache. */
    constructor()
      ensures Valid()
      ensures State() == StoreState([], EmptyMap, DefaultConfig, map[], false)
    {
      localGroupsArray := [];
      groupsMap := EmptyMap;
      config := DefaultConfig;
      cachedGroupsData := map[];
      isInit := false;
    }

    // -------------------------------------------------------------
    // Membership edits
    // -------------------------------------------------------------

    /** addLocalGroup: drop the entries with the same id, then append. */
    method AddLocalGroup(g: LocalGroup)
      requires Valid()
      modifies this
      ensures Valid()
      ensures State() == old(State()).(localGroupsArray := Upsert(old(localGroupsArray), g))
      ensures UniqueIds(old(localGroupsArray)) ==> UniqueIds(localGroupsArray)
    {
      if UniqueIds(localGroupsArray) {
        UpsertKeepsUniqueIds(localGroupsArray, g);
      }
      if HasId(localGroupsArray, g.id) {
        localGroupsArray := Remove(localGroupsArray, One(g.id));
      }
      localGroupsArray := localGroupsArray + [g];
    }

    /** removeLocalGroup: keep the entries whose id is not selected. */
    method RemoveLocalGroup(sel: IdSelector)
      requires Valid()
      modifies this
      ensures Valid()
      ensures State() == old(State()).(localGroupsArray := Remove(old(localGroupsArray), sel))
      ensures UniqueIds(old(localGroupsArray)) ==> UniqueIds(localGroupsArray)
    {
      if UniqueIds(localGroupsArray) {
        RemoveKeepsUniqueIds(localGroupsArray, sel);
      }
      localGroupsArray := Remove(localGroupsArray, sel);
    }

    /** removeLocalGroups: forget every membership. */
    method RemoveLocalGroups()
      requires Valid()
      modifies this
      ensures Valid()
      ensures State() == old(State()).(localGroupsArray := [])
    {
      localGroupsArray := [];
    }

    // -------------------------------------------------------------
    // Storage: load, import, export, save
    // -------------------------------------------------------------

    /** The inner forEach of updateCurrentLocalGroups: push (id, folder) for each id. */
    method PushFolder(folder: string, ids: seq<int>)
      requires Valid()
      modifies this
      ensures Valid()
      ensures State() == old(State()).(localGroupsArray := old(localGroupsArray) + Pairs(FolderIds(folder, ids)))
    {
      var j := 0;
      while j < |ids|
        invariant 0 <= j <= |ids|
        invariant localGroupsArray == old(localGroupsArray) + Pairs(FolderIds(folder, ids[..j]))
        invariant Others() == old(Others())
      {
        assert ids[..j + 1] == ids[..j] + [ids[j]];
        PairsSnoc(folder, ids[..j], ids[j]);
        localGroupsArray := localGroupsArray + [LocalGroup(ids[j], folder)];
        j := j + 1;
      }
      assert ids[..j] == ids;
    }

    /**
     * updateCurrentLocalGroups with the value read from storage: the list
     * is emptied first, then rebuilt key by key from the keys whose value
     * is an array. When the read or the parse throws, the list stays empty
     * and `ok` is false (the error reaches the caller).
     */
    method UpdateCurrentLocalGroups(stored: StoredGroups) returns (ok: bool)
      requires Valid()
      modifies this
      ensures Valid()
      ensures ok <==> !stored.Unreadable?
      ensures State() == old(State()).(localGroupsArray :=
        if stored.Parsed? then LoadedGroups(stored.entries) else [])
    {
      localGroupsArray := [];
      match stored
      case Absent =>
        ok := true;
      case Unreadable =>
        ok := false;
      case Parsed(entries) =>
        var i := 0;
        while i < |entries|
          invariant 0 <= i <= |entries|
          invariant Valid()
          invariant localGroupsArray + LoadedGroups(entries[i..]) == LoadedGroups(entries)
          invariant Others() == old(Others())
        {
          var e := entries[i];
          LoadedHead(entries, i);
          ghost var before := localGroupsArray;
          if e.value.IdArray? {
            PushFolder(e.folder, e.value.ids);
          }
          AppendAssoc(before, if e.value.IdArray? then Pairs(FolderIds(e.folder, e.value.ids)) else [],
            LoadedGroups(entries[i + 1..]));
          i := i + 1;
        }
        ok := true;
    }

    /** The inner forEach of saveImport: addLocalGroup((id, folder)) for each id. */
    method ImportFolder(folder: string, ids: seq<int>)
      requires Valid()
      modifies this
      ensures Valid()
      ensures State() == old(State()).(localGroupsArray := UpsertAll(old(localGroupsArray), Pairs(FolderIds(folder, ids))))
    {
      var j := 0;
      while j < |ids|
        invariant 0 <= j <= |ids|
        invariant Valid()
        invariant localGroupsArray == UpsertAll(old(localGroupsArray), Pairs(FolderIds(folder, ids[..j])))
        invariant Others() == old(Others())
      {
        UpsertPairsStep(old(localGroupsArray), folder, ids, j);
        AddLocalGroup(LocalGroup(ids[j], folder));
        j := j + 1;
      }
      assert ids[..j] == ids;
    }

    /** saveImport: addLocalGroup for each id of each key, in order. */
    method SaveImport(d: Dict)
      requires Valid()
      modifies this
      ensures Valid()
      ensures State() == old(State()).(localGroupsArray := Import(old(localGroupsArray), d))
    {
      var i := 0;
      while i < |d|
        invariant 0 <= i <= |d|
        invariant Valid()
        invariant UpsertAll(localGroupsArray, Flatten(d[i..])) == Import(old(localGroupsArray), d)
        invariant Others() == old(Others())
      {
        FlattenHead(d, i);
        UpsertAllConcat(localGroupsArray, Pairs(d[i]), Flatten(d[i + 1..]));
        ImportFolder(d[i].folder, d[i].ids);
        i := i + 1;
      }
    }

    /**
     * getExport: the folder-to-ids dictionary. Its keys are the folders
     * in order of first appearance, each holding the ids of its
     * memberships in list order, and no membership is lost.
     */
    function GetExport(): (d: Dict)
      reads this
      ensures Keys(d) == Folders(localGroupsArray)
      ensures forall f :: Get(d, f) ==
                          if HasFolder(localGroupsArray, f) then Some(IdsInFolder(localGroupsArray, f)) else None
      ensures TotalIds(d) == |localGroupsArray|
      ensures NoEmptyFolder(d)
    {
      DictKeysAreFolders(localGroupsArray);
      DictGetAll(localGroupsArray);
      DictTotal(localGroupsArray);
      DictNoEmptyFolder(localGroupsArray);
      GroupIdsDictByFolderName(localGroupsArray)
    }

    /** saveCurrentLocalGroups: the dictionary written to storage, built by the same reduce. */
    method SaveCurrentLocalGroups() returns (saved: Dict)
      ensures saved == GroupIdsDictByFolderName(localGroupsArray)
    {
      var a := localGroupsArray;
      saved := [];
      var i := 0;
      while i < |a|
        invariant 0 <= i <= |a|
        invariant saved == GroupIdsDictByFolderName(a[..i])
      {
        assert a[..i + 1][..i] == a[..i] && a[..i + 1][i] == a[i];
        saved := PushId(saved, a[i].folder, a[i].id);
        i := i + 1;
      }
      assert a[..i] == a;
    }

    /** autoSaveCurrentLocalGroups: save only when autoSave is on. */
    method AutoSaveCurrentLocalGroups() returns (saved: Option<Dict>)
      ensures saved.Some? <==> config.autoSave
      ensures saved.Some? ==> saved.value == GroupIdsDictByFolderName(localGroupsArray)
    {
      if !config.autoSave {
        return None;
      }
      var d := SaveCurrentLocalGroups();
      saved := Some(d);
    }

    // -------------------------------------------------------------
    // Resolved groups
    // -------------------------------------------------------------

    /** setGroup: store the group under its id. */
    method SetGroup(g: Group) returns (r: Group)
      requires Valid()
      modifies this
      ensures Valid()
      ensures r == g
      ensures State() == old(State()).(groupsMap := MapSet(old(groupsMap), g))
    {
      groupsMap := MapSet(groupsMap, g);
      r := g;
    }

    /**
     * loadNotLoadGroups: request the membership ids that have no resolved
     * group, unless there are none or no api is available; then set every
     * group the request returns. `fetched` is None when it throws.
     */
    method LoadNotLoadGroups(apiAvailable: bool, fetched: Option<seq<Group>>) returns (request: Option<set<int>>)
      requires Valid()
      modifies this
      ensures Valid()
      ensures request.Some? <==> apiAvailable && MissingIds(old(localGroupsArray), old(groupsMap)) != {}
      ensures request.Some? ==> request.value == MissingIds(old(localGroupsArray), old(groupsMap))
      ensures State() == old(State()).(groupsMap :=
        if request.Some? && fetched.Some? then SetAll(old(groupsMap), fetched.value) else old(groupsMap))
    {
      var ids := MissingIds(localGroupsArray, groupsMap);
      if |ids| == 0 || !apiAvailable {
        return None;
      }
      request := Some(ids);
      if fetched.None? {
        return;
      }
      var gs := fetched.value;
      var i := 0;
      while i < |gs|
        invariant 0 <= i <= |gs|
        invariant Valid()
        invariant SetAll(groupsMap, gs[i..]) == SetAll(old(groupsMap), gs)
        invariant State() == old(State()).(groupsMap := groupsMap)
      {
        assert gs[i..][0] == gs[i] && gs[i..][1..] == gs[i + 1..];
        var _ := SetGroup(gs[i]);
        i := i + 1;
      }
    }

    /** The groups getter. */
    function Groups(): (r: seq<Group>)
      requires Valid()
      reads this
      ensures forall g :: g in r <==>
        g.id in groupsMap.entries && groupsMap.entries[g.id] == g && HasId(localGroupsArray, g.id)
      ensures Distinct(r)
      ensures var ps := KeptPositions(groupsMap.order, groupsMap.entries, localGroupsArray);
        ValuesAt(groupsMap.order, groupsMap.entries, ps, r) && Increasing(ps)
    {
      GroupsViewMembers(groupsMap, localGroupsArray);
      FilterGroupsOrdered(groupsMap.order, groupsMap.entries, localGroupsArray);
      FilterGroupsKeyOrder(groupsMap.order, groupsMap.entries, localGroupsArray);
      GroupsView(groupsMap, localGroupsArray)
    }

    // -------------------------------------------------------------
    // Counters cache
    // -------------------------------------------------------------

    /** clearCachedGroupIfExpired: delete the entry of id when more than three whole days old. */
    method ClearCachedGroupIfExpired(id: int, now: int)
      requires Valid()
      modifies this
      ensures Valid()
      ensures State() == old(State()).(cachedGroupsData := AfterExpiryCheck(old(cachedGroupsData), id, now))
    {
      if id !in cachedGroupsData {
        return;
      }
      var days := (now - cachedGroupsData[id].date) / DayMs;
      if days > 3 {
        cachedGroupsData := cachedGroupsData - {id};
      }
    }

    /** getCachedGroup: the data of the surviving entry of id, if any. */
    method GetCachedGroup(id: int, now: int) returns (r: Option<CachedData>)
      requires Valid()
      modifies this
      ensures Valid()
      ensures State() == old(State()).(cachedGroupsData := AfterExpiryCheck(old(cachedGroupsData), id, now))
      ensures r == CachedGroup(old(cachedGroupsData), id, now)
    {
      ClearCachedGroupIfExpired(id, now);
      if id in cachedGroupsData {
        r := Some(cachedGroupsData[id].data);
      } else {
        r := None;
      }
    }

    /** getGroupCounters: answer from the cache, or request and cache the answer. */
    method GetGroupCounters(id: int, now: int, fetch: CounterFetch) returns (requested: bool, outcome: CountersOutcome)
      requires Valid()
      modifies this
      ensures Valid()
      ensures var s := GetCounters(old(cachedGroupsData), id, now, fetch);
        requested == s.requested && outcome == s.outcome &&
        State() == old(State()).(cachedGroupsData := s.cache)
    {
      var cached := GetCachedGroup(id, now);
      if cached.Some? && cached.value.counters.Some? {
        return false, Returned(cached.value.counters);
      }
      requested := true;
      var counters: Option<Counters>;
      match fetch {
        case FetchFailed =>
          counters := Some(map[]);
        case FetchReturned(items) =>
          if items == [] {
            return true, Threw;
          }
          counters := items[0];
      }
      cachedGroupsData := cachedGroupsData[id := CacheEntry(now, CachedData(counters))];
      outcome := Returned(counters);
    }

    /** loadGroupCounters: keep a group that has counters or is banned, else fetch them. */
    method LoadGroupCounters(g: Group, banned: bool, now: int, fetch: CounterFetch) returns (requested: bool, outcome: LoadOutcome)
      requires Valid()
      modifies this
      ensures Valid()
      ensures var s := LoadCounters(old(cachedGroupsData), g, banned, now, fetch);
        requested == s.requested && outcome == s.outcome &&
        State() == old(State()).(cachedGroupsData := s.cache)
    {
      if g.counters.Some? || banned {
        return false, Loaded(g);
      }
      var r;
      requested, r := GetGroupCounters(g.id, now, fetch);
      match r
      case Returned(counters) =>
        outcome := Loaded(g.(counters := counters));
      case Threw =>
        outcome := LoadThrew;
    }

    // -------------------------------------------------------------
    // Config and start-up
    // -------------------------------------------------------------

    /** updateConfig: install the stored config when it passes the guard. */
    method UpdateConfig(read: ConfigRead)
      requires Valid()
      modifies this
      ensures Valid()
      ensures State() == old(State()).(config :=
        if AcceptConfig(read).Some? then AcceptConfig(read).value else old(config))
    {
      match read
      case ConfigReadFailed =>
      case ConfigRead(stored) =>
        if stored.Some? && stored.value.autoSave.Some? && stored.value.showCounters.Some? {
          var c := stored.value;
          config := Config(c.autoSave.value, c.showCounters.value, c.eruda, c.originalSizePhoto, c.reverseOrder);
        }
    }

    /**
     * init: read the config, rebuild the list, resolve the missing groups;
     * an error in the rebuild skips the resolving. The store is then marked
     * initialised.
     */
    method Init(read: ConfigRead, stored: StoredGroups, apiAvailable: bool, fetched: Option<seq<Group>>)
      returns (request: Option<set<int>>)
      requires Valid()
      modifies this
      ensures Valid()
      ensures isInit
      ensures config == if AcceptConfig(read).Some? then AcceptConfig(read).value else old(config)
      ensures localGroupsArray == if stored.Parsed? then LoadedGroups(stored.entries) else []
      ensures cachedGroupsData == old(cachedGroupsData)
      ensures stored.Unreadable? ==> request == None && groupsMap == old(groupsMap)
      ensures !stored.Unreadable? ==>
        (request.Some? <==> apiAvailable && MissingIds(localGroupsArray, old(groupsMap)) != {}) &&
        (request.Some? ==> request.value == MissingIds(localGroupsArray, old(groupsMap))) &&
        groupsMap == if request.Some? && fetched.Some? then SetAll(old(groupsMap), fetched.value) else old(groupsMap)
    {
      UpdateConfig(read);
      var ok := UpdateCurrentLocalGroups(stored);
      request := None;
      if ok {
        request := LoadNotLoadGroups(apiAvailable, fetched);
      }
      isInit := true;
    }
  }

  // ---------------------------------------------------------------
  // The cached groups and groupsReverse getters
  // ---------------------------------------------------------------

  /** Array.prototype.reverse: the array's elements back to front, in place. */
  method ReverseInPlace<T>(arr: array<T>)
    modifies arr
    ensures arr[..] == Reverse(old(arr[..]))
  {
    var n := arr.Length;
    var i := 0;
    while i < n / 2
      invariant 0 <= i <= n / 2
      invariant forall k :: 0 <= k < i ==> arr[k] == old(arr[n - 1 - k])
      invariant forall k :: n - i <= k < n ==> arr[k] == old(arr[n - 1 - k])
      invariant forall k :: i <= k < n - i ==> arr[k] == old(arr[k])
    {
      arr[i], arr[n - 1 - i] := arr[n - 1 - i], arr[i];
      i := i + 1;
    }
    ghost var s := old(arr[..]);
    forall k | 0 <= k < n ensures arr[k] == Reverse(s)[k] {
      ReverseAt(s, k);
    }
  }

  /**
   * The groups and groupsReverse getters of the store with their cached
   * values. A getter returns the array it last computed until one of its
   * dependencies (groupsMap, localGroupsArray) changes. groupsReverse
   * reverses, in place, the very array the groups getter returned, so
   * afterwards both caches hold that one reversed array.
   */
  class GroupsGetters {
    var groupsMap: GroupsMap
    var localGroupsArray: seq<LocalGroup>
    var groupsCache: Option<array<Group>>
    var reverseCache: Option<array<Group>>

    ghost function Cached(): set<object>
      reads this
    {
      if groupsCache.Some? then {groupsCache.value} else {}
    }

    /**
     * The groupsReverse cache is the groups cache itself; the cached array
     * holds the groups view, or its reversal once groupsReverse was read.
     */
    ghost predicate Valid()
      reads this, Cached()
    {
      WellFormed(groupsMap) &&
      (reverseCache.Some? ==> groupsCache == reverseCache) &&
      (groupsCache.Some? && reverseCache.None? ==>
        groupsCache.value[..] == GroupsView(groupsMap, localGroupsArray)) &&
      (reverseCache.Some? ==>
        reverseCache.value[..] == Reverse(GroupsView(groupsMap, localGroupsArray)))
    }

    constructor(gm: GroupsMap, a: seq<LocalGroup>)
      requires WellFormed(gm)
      ensures Valid()
      ensures groupsMap == gm && localGroupsArray == a
      ensures groupsCache == None && reverseCache == None
    {
      groupsMap := gm;
      localGroupsArray := a;
      groupsCache := None;
      reverseCache := None;
    }

    /** A dependency changed: both getters will compute afresh. */
    method DependenciesChanged(gm: GroupsMap, a: seq<LocalGroup>)
      requires WellFormed(gm)
      modifies this
      ensures Valid()
      ensures groupsMap == gm && localGroupsArray == a
      ensures groupsCache == None && reverseCache == None
    {
      groupsMap := gm;
      localGroupsArray := a;
      groupsCache := None;
      reverseCache := None;
    }

    /**
     * Reading groups: the cached array when there is one (reversed, once
     * groupsReverse was read), otherwise a new array holding the view.
     */
    method ReadGroups() returns (arr: array<Group>)
      requires Valid()
      modifies this
      ensures Valid()
      ensures groupsMap == old(groupsMap) && localGroupsArray == old(localGroupsArray)
      ensures reverseCache == old(reverseCache) && groupsCache == Some(arr)
      ensures old(groupsCache).Some? ==> arr == old(groupsCache).value
      ensures old(groupsCache).None? ==> fresh(arr)
      ensures arr[..] == if reverseCache.Some? then Reverse(GroupsView(groupsMap, localGroupsArray))
                         else GroupsView(groupsMap, localGroupsArray)
    {
      if groupsCache.Some? {
        arr := groupsCache.value;
      } else {
        var v := GroupsView(groupsMap, localGroupsArray);
        arr := new Group[|v|](i requires 0 <= i < |v| => v[i]);
        groupsCache := Some(arr);
      }
    }

    /**
     * Reading groupsReverse as written: the cached value when there is one,
     * otherwise the groups array, reversed in place.
     */
    method ReadGroupsReverse() returns (arr: array<Group>)
      requires Valid()
      modifies this, Cached()
      ensures Valid()
      ensures groupsMap == old(groupsMap) && localGroupsArray == old(localGroupsArray)
      ensures groupsCache == Some(arr) && reverseCache == Some(arr)
      ensures old(groupsCache).Some? ==> arr == old(groupsCache).value
      ensures arr[..] == Reverse(GroupsView(groupsMap, localGroupsArray))
    {
      if reverseCache.Some? {
        arr := reverseCache.value;
      } else {
        arr := ReadGroups();
        ReverseInPlace(arr);
        reverseCache := Some(arr);
      }
    }
  }

  /**
   * Reading groups, then groupsReverse, then groups again: the second read
   * returns the same array as the first, now back to front, so with two or
   * more groups it no longer lists them in the map's order.
   */
  method GroupsAroundGroupsReverse(gm: GroupsMap, a: seq<LocalGroup>)
    returns (before: seq<Group>, reversed: seq<Group>, after: seq<Group>)
    requires WellFormed(gm) && |GroupsView(gm, a)| >= 2
    ensures before == GroupsView(gm, a)
    ensures reversed == Reverse(GroupsView(gm, a))
    ensures after == reversed && after != before
  {
    var getters := new GroupsGetters(gm, a);
    var first := getters.ReadGroups();
    before := first[..];
    var rev := getters.ReadGroupsReverse();
    reversed := rev[..];
    var second := getters.ReadGroups();
    after := second[..];
    GroupsReverseDiffers(gm, a);
  }
}
