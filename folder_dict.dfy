/**
 * The folder-to-ids dictionary of the groups store: the getter
 * `groupIdsDictByFolderName` (the same reduce that saveCurrentLocalGroups
 * writes to storage), the import saveImport, and the list that
 * updateCurrentLocalGroups rebuilds from the stored dictionary.
 *
 * A JavaScript object is modelled as a list of (key, value) entries
 * with distinct keys in enumeration order, which for these objects is
 * the order in which keys were first assigned.
 */
module FolderDict {
  import opened Wrappers
  import opened GroupTypes
  import opened Seqs
  import opened Memberships

  /** One key of the dictionary: a folder and its ids, in order. */
  datatype FolderIds = FolderIds(folder: string, ids: seq<int>)

  /** Record<string, number[]>, in key enumeration order. */
  type Dict = seq<FolderIds>

  function Keys(d: Dict): (r: seq<string>)
    ensures |r| == |d|
    ensures forall i :: 0 <= i < |d| ==> r[i] == d[i].folder
  {
    if d == [] then [] else [d[0].folder] + Keys(d[1..])
  }

  predicate UniqueKeys(d: Dict) {
    Distinct(Keys(d))
  }

  /** Every key holds at least one id. */
  predicate NoEmptyFolder(d: Dict) {
    forall i :: 0 <= i < |d| ==> d[i].ids != []
  }

  /** `dict[f]`: the ids under a key, if the key is present. */
  function Get(d: Dict, f: string): (r: Option<seq<int>>)
    ensures r.Some? <==> f in Keys(d)
  {
    if d == [] then None
    else if d[0].folder == f then Some(d[0].ids)
    else Get(d[1..], f)
  }

  /** The number of ids stored under all keys together. */
  function TotalIds(d: Dict): nat {
    if d == [] then 0 else |d[0].ids| + TotalIds(d[1..])
  }

  // ---------------------------------------------------------------
  // groupIdsDictByFolderName: reduce with `dict[f] ??= []; dict[f].push(id)`
  // ---------------------------------------------------------------

  /** One step of the reduce: append `id` under `f`, creating the key last if new. */
  function PushId(d: Dict, f: string, id: int): (r: Dict)
    ensures Keys(r) == if f in Keys(d) then Keys(d) else Keys(d) + [f]
  {
    if d == [] then [FolderIds(f, [id])]
    else if d[0].folder == f then
      var r := [FolderIds(f, d[0].ids + [id])] + d[1..];
      assert r[1..] == d[1..];
      r
    else
      var r := [d[0]] + PushId(d[1..], f, id);
      assert r[1..] == PushId(d[1..], f, id);
      r
  }

  /** The push appends to the list under f and leaves every other key alone. */
  lemma {:induction false} PushIdGet(d: Dict, f: string, id: int, g: string)
    ensures Get(PushId(d, f, id), g) ==
      if g == f then Some((if f in Keys(d) then Get(d, f).value else []) + [id])
      else Get(d, g)
  {
    if d == [] {
      assert [] + [id] == [id];
    } else if d[0].folder != f {
      PushIdGet(d[1..], f, id, g);
      assert PushId(d, f, id)[1..] == PushId(d[1..], f, id);
    }
  }

  lemma {:induction false} PushIdTotal(d: Dict, f: string, id: int)
    ensures TotalIds(PushId(d, f, id)) == TotalIds(d) + 1
  {
    if d != [] && d[0].folder != f {
      PushIdTotal(d[1..], f, id);
      assert PushId(d, f, id)[1..] == PushId(d[1..], f, id);
    }
  }

  /** The getter itself: the reduce over localGroupsArray, left to right. */
  function GroupIdsDictByFolderName(a: seq<LocalGroup>): Dict {
    if a == [] then []
    else
      var last := a[|a| - 1];
      PushId(GroupIdsDictByFolderName(a[..|a| - 1]), last.folder, last.id)
  }

  /** The ids of the memberships in folder f, in list order (an independent filter). */
  function IdsInFolder(a: seq<LocalGroup>, f: string): seq<int> {
    if a == [] then []
    else
      var last := a[|a| - 1];
      IdsInFolder(a[..|a| - 1], f) + (if last.folder == f then [last.id] else [])
  }

  /**
   * The keys of the dictionary are exactly the folders present, without
   * repetition, in their order of first appearance.
   */
  lemma {:induction false} DictKeysAreFolders(a: seq<LocalGroup>)
    ensures Keys(GroupIdsDictByFolderName(a)) == Folders(a)
    ensures UniqueKeys(GroupIdsDictByFolderName(a))
  {
    if a != [] {
      DictKeysAreFolders(a[..|a| - 1]);
    }
  }

  lemma {:induction false} IdsInFolderAbsent(a: seq<LocalGroup>, f: string)
    requires !HasFolder(a, f)
    ensures IdsInFolder(a, f) == []
  {
    if a != [] {
      var init := a[..|a| - 1];
      assert forall e :: e in init ==> e in a;
      assert a[|a| - 1] in a;
      IdsInFolderAbsent(init, f);
    }
  }

  /** Each folder maps to the ids of its memberships, in list order. */
  lemma {:induction false} DictGet(a: seq<LocalGroup>, f: string)
    ensures Get(GroupIdsDictByFolderName(a), f) ==
      if HasFolder(a, f) then Some(IdsInFolder(a, f)) else None
  {
    if a != [] {
      var init := a[..|a| - 1];
      var last := a[|a| - 1];
      var d := GroupIdsDictByFolderName(init);
      DictGet(init, f);
      DictKeysAreFolders(init);
      HasFolderSnoc(a, f);
      PushIdGet(d, last.folder, last.id, f);
      assert GroupIdsDictByFolderName(a) == PushId(d, last.folder, last.id);
      assert IdsInFolder(a, f) == IdsInFolder(init, f) + (if last.folder == f then [last.id] else []);
      if last.folder == f {
        if HasFolder(init, f) {
          assert f in Keys(d);
        } else {
          IdsInFolderAbsent(init, f);
          assert f !in Keys(d);
        }
      } else {
        assert IdsInFolder(a, f) == IdsInFolder(init, f);
      }
    }
  }

  lemma HasFolderSnoc(a: seq<LocalGroup>, f: string)
    requires a != []
    ensures HasFolder(a, f) <==> HasFolder(a[..|a| - 1], f) || a[|a| - 1].folder == f
  {
    assert a == a[..|a| - 1] + [a[|a| - 1]];
    assert forall e :: e in a <==> e == a[|a| - 1] || e in a[..|a| - 1];
  }

  /** No membership is lost or duplicated: the list lengths sum to the list length. */
  lemma {:induction false} DictTotal(a: seq<LocalGroup>)
    ensures TotalIds(GroupIdsDictByFolderName(a)) == |a|
  {
    if a != [] {
      DictTotal(a[..|a| - 1]);
      PushIdTotal(GroupIdsDictByFolderName(a[..|a| - 1]), a[|a| - 1].folder, a[|a| - 1].id);
    }
  }

  /** A key is only ever created by a push, so no key holds an empty list. */
  lemma {:induction false} DictNoEmptyFolder(a: seq<LocalGroup>)
    ensures NoEmptyFolder(GroupIdsDictByFolderName(a))
  {
    if a != [] {
      DictNoEmptyFolder(a[..|a| - 1]);
      PushIdNoEmptyFolder(GroupIdsDictByFolderName(a[..|a| - 1]), a[|a| - 1].folder, a[|a| - 1].id);
    }
  }

  lemma {:induction false} PushIdNoEmptyFolder(d: Dict, f: string, id: int)
    requires NoEmptyFolder(d)
    ensures NoEmptyFolder(PushId(d, f, id))
  {
    if d != [] && d[0].folder != f {
      PushIdNoEmptyFolder(d[1..], f, id);
      var r := PushId(d, f, id);
      assert forall i :: 1 <= i < |r| ==> r[i] == PushId(d[1..], f, id)[i - 1];
    }
  }

  // ---------------------------------------------------------------
  // Flattening: the (folder, id) pairs in the order saveImport and
  // updateCurrentLocalGroups visit them
  // ---------------------------------------------------------------

  /**
   * The memberships of one key, in id order: one per id, and exactly the
   * key's ids, each under that key.
   */
  function Pairs(e: FolderIds): (r: seq<LocalGroup>)
    ensures |r| == |e.ids|
    ensures forall g: LocalGroup :: g in r <==> g.folder == e.folder && g.id in e.ids
  {
    var r := seq(|e.ids|, i requires 0 <= i < |e.ids| => LocalGroup(e.ids[i], e.folder));
    assert forall g: LocalGroup | g.folder == e.folder && g.id in e.ids :: g in r by {
      forall g: LocalGroup | g.folder == e.folder && g.id in e.ids ensures g in r {
        var i :| 0 <= i < |e.ids| && e.ids[i] == g.id;
        assert r[i] == g;
      }
    }
    r
  }

  /** Every (folder, id) pair: keys in order, and ids in order within each key. */
  function Flatten(d: Dict): seq<LocalGroup> {
    if d == [] then [] else Pairs(d[0]) + Flatten(d[1..])
  }

  /**
   * On a dictionary with distinct keys, a (folder, id) pair is flattened
   * exactly when the folder is a key holding the id.
   */
  lemma {:induction false} FlattenMembers(d: Dict)
    requires UniqueKeys(d)
    ensures forall g: LocalGroup :: g in Flatten(d) <==> Get(d, g.folder).Some? && g.id in Get(d, g.folder).value
  {
    if d != [] {
      KeysHead(d);
      FlattenMembers(d[1..]);
    }
  }

  /** The first key is not among the keys after it. */
  lemma KeysHead(d: Dict)
    requires d != [] && UniqueKeys(d)
    ensures UniqueKeys(d[1..]) && d[0].folder !in Keys(d[1..])
  {
    var k := Keys(d);
    assert Keys(d[1..]) == k[1..];
    forall i | 0 <= i < |k| - 1 ensures k[1..][i] != d[0].folder {
      assert k[0] != k[i + 1];
    }
  }

  lemma {:induction false} FlattenSnoc(d: Dict, e: FolderIds)
    ensures Flatten(d + [e]) == Flatten(d) + Pairs(e)
  {
    if d == [] {
      assert d + [e] == [e];
    } else {
      assert (d + [e])[0] == d[0];
      assert (d + [e])[1..] == d[1..] + [e];
      FlattenSnoc(d[1..], e);
    }
  }

  /** A key absent from a dictionary is neither its first key nor among the rest. */
  lemma KeysTail(d: Dict, f: string)
    requires d != [] && f !in Keys(d)
    ensures d[0].folder != f && f !in Keys(d[1..])
  {
    assert Keys(d)[0] == d[0].folder;
    forall i | 0 <= i < |d[1..]| ensures Keys(d[1..])[i] != f {
      assert Keys(d[1..])[i] == d[i + 1].folder == Keys(d)[i + 1];
    }
  }

  /** A push under another folder leaves the first key in front. */
  lemma PushIdSkip(d: Dict, f: string, id: int)
    requires d != [] && d[0].folder != f
    ensures PushId(d, f, id) == [d[0]] + PushId(d[1..], f, id)
  {
  }

  /** A new key goes last. */
  lemma {:induction false} PushIdNewKey(d: Dict, f: string, id: int)
    requires f !in Keys(d)
    ensures PushId(d, f, id) == d + [FolderIds(f, [id])]
  {
    if d != [] {
      KeysTail(d, f);
      PushIdNewKey(d[1..], f, id);
    }
  }

  /** Pushing under the last key extends that key's list. */
  lemma {:induction false} PushIdLastKey(d: Dict, f: string, ids: seq<int>, id: int)
    requires f !in Keys(d)
    ensures PushId(d + [FolderIds(f, ids)], f, id) == d + [FolderIds(f, ids + [id])]
  {
    var e := FolderIds(f, ids);
    var e' := FolderIds(f, ids + [id]);
    if d == [] {
      assert d + [e] == [e];
    } else {
      var d' := d + [e];
      assert d'[0] == d[0] && d'[1..] == d[1..] + [e];
      KeysTail(d, f);
      calc {
        PushId(d', f, id);
        { PushIdSkip(d', f, id); }
        [d[0]] + PushId(d[1..] + [e], f, id);
        { PushIdLastKey(d[1..], f, ids, id); }
        [d[0]] + (d[1..] + [e']);
        { assert d == [d[0]] + d[1..]; }
        d + [e'];
      }
    }
  }

  /** The reduce over a list with one more membership does one more push. */
  lemma DictSnoc(a: seq<LocalGroup>, g: LocalGroup)
    ensures GroupIdsDictByFolderName(a + [g]) == PushId(GroupIdsDictByFolderName(a), g.folder, g.id)
  {
    assert (a + [g])[..|a + [g]| - 1] == a;
  }

  lemma PairsSnoc(f: string, ids: seq<int>, id: int)
    ensures Pairs(FolderIds(f, ids + [id])) == Pairs(FolderIds(f, ids)) + [LocalGroup(id, f)]
  {
  }

  /** Reducing the pairs of a folder not seen yet adds that folder as the last key. */
  lemma {:induction false} DictOfPairs(x: seq<LocalGroup>, e: FolderIds)
    requires !HasFolder(x, e.folder)
    requires e.ids != []
    ensures GroupIdsDictByFolderName(x + Pairs(e)) == GroupIdsDictByFolderName(x) + [e]
    decreases |e.ids|
  {
    var f, n := e.folder, |e.ids|;
    var ids', id := e.ids[..n - 1], e.ids[n - 1];
    assert e.ids == ids' + [id];
    var init := FolderIds(f, ids');
    PairsSnoc(f, ids', id);
    assert x + Pairs(e) == (x + Pairs(init)) + [LocalGroup(id, f)];
    DictSnoc(x + Pairs(init), LocalGroup(id, f));
    DictKeysAreFolders(x);
    if n == 1 {
      assert x + Pairs(init) == x;
      PushIdNewKey(GroupIdsDictByFolderName(x), f, id);
    } else {
      DictOfPairs(x, init);
      PushIdLastKey(GroupIdsDictByFolderName(x), f, ids', id);
    }
  }

  /** Dropping the last key keeps keys distinct, and that key is not among the rest. */
  lemma UniqueKeysInit(d: Dict)
    requires d != [] && UniqueKeys(d)
    ensures UniqueKeys(d[..|d| - 1]) && d[|d| - 1].folder !in Keys(d[..|d| - 1])
  {
    var init := d[..|d| - 1];
    forall i, j | 0 <= i < j < |Keys(init)| ensures Keys(init)[i] != Keys(init)[j] {
      assert Keys(init)[i] == Keys(d)[i] && Keys(init)[j] == Keys(d)[j];
    }
    forall i | 0 <= i < |Keys(init)| ensures Keys(init)[i] != d[|d| - 1].folder {
      assert Keys(init)[i] == Keys(d)[i] && Keys(d)[|d| - 1] == d[|d| - 1].folder;
    }
  }

  /**
   * Reducing the flattened pairs of a dictionary with distinct keys and
   * no empty list gives that dictionary back.
   */
  lemma {:induction false} DictOfFlatten(d: Dict)
    requires UniqueKeys(d) && NoEmptyFolder(d)
    ensures GroupIdsDictByFolderName(Flatten(d)) == d
    decreases |d|
  {
    if d != [] {
      var init := d[..|d| - 1];
      var last := d[|d| - 1];
      assert d == init + [last];
      UniqueKeysInit(d);
      assert NoEmptyFolder(init) by {
        forall i | 0 <= i < |init| ensures init[i].ids != [] {
          assert init[i] == d[i];
        }
      }
      DictOfFlatten(init);
      DictKeysAreFolders(Flatten(init));
      FlattenSnoc(init, last);
      assert last.ids != [];
      DictOfPairs(Flatten(init), last);
    }
  }

  // ---------------------------------------------------------------
  // Ids of concatenations
  // ---------------------------------------------------------------

  /** No id of x occurs in y. */
  predicate DisjointIds(x: seq<LocalGroup>, y: seq<LocalGroup>) {
    forall i, j :: 0 <= i < |x| && 0 <= j < |y| ==> x[i].id != y[j].id
  }

  lemma UniqueIdsConcat(x: seq<LocalGroup>, y: seq<LocalGroup>)
    ensures UniqueIds(x + y) <==> UniqueIds(x) && UniqueIds(y) && DisjointIds(x, y)
  {
    var z := x + y;
    assert forall i :: 0 <= i < |x| ==> z[i] == x[i];
    assert forall j :: 0 <= j < |y| ==> z[|x| + j] == y[j];
    if UniqueIds(x) && UniqueIds(y) && DisjointIds(x, y) {
      forall i, j | 0 <= i < j < |z| ensures z[i].id != z[j].id {
        if j < |x| {
        } else if i < |x| {
          assert z[j] == y[j - |x|];
        } else {
          assert z[i] == y[i - |x|] && z[j] == y[j - |x|];
        }
      }
    }
    if UniqueIds(z) {
      forall i, j | 0 <= i < |x| && 0 <= j < |y| ensures x[i].id != y[j].id {
        assert z[i] == x[i] && z[|x| + j] == y[j];
      }
      forall i, j | 0 <= i < j < |y| ensures y[i].id != y[j].id {
        assert z[|x| + i] == y[i] && z[|x| + j] == y[j];
      }
    }
  }

  // ---------------------------------------------------------------
  // saveImport: a sequence of upserts
  // ---------------------------------------------------------------

  /** addLocalGroup for each membership in turn. */
  function UpsertAll(a: seq<LocalGroup>, gs: seq<LocalGroup>): seq<LocalGroup>
    decreases |gs|
  {
    if gs == [] then a else UpsertAll(Upsert(a, gs[0]), gs[1..])
  }

  /** The list after saveImport(d) on list a. */
  function Import(a: seq<LocalGroup>, d: Dict): seq<LocalGroup> {
    UpsertAll(a, Flatten(d))
  }

  lemma {:induction false} UpsertAllConcat(a: seq<LocalGroup>, x: seq<LocalGroup>, y: seq<LocalGroup>)
    ensures UpsertAll(a, x + y) == UpsertAll(UpsertAll(a, x), y)
    decreases |x|
  {
    if x == [] {
      assert x + y == y;
    } else {
      assert (x + y)[0] == x[0];
      assert (x + y)[1..] == x[1..] + y;
      UpsertAllConcat(Upsert(a, x[0]), x[1..], y);
    }
  }

  /** The ids a list of memberships mentions. */
  function IdSet(gs: seq<LocalGroup>): set<int> {
    if gs == [] then {} else {gs[0].id} + IdSet(gs[1..])
  }

  lemma {:induction false} RemoveTwice(a: seq<LocalGroup>, x: int, s: set<int>)
    ensures Remove(Remove(a, One(x)), Many(s)) == Remove(a, Many({x} + s))
  {
    if a != [] {
      var h, t := a[0], a[1..];
      var hx := if h.id == x then [] else [h];
      assert Remove(a, One(x)) == hx + Remove(t, One(x));
      RemoveDistributes(hx, Remove(t, One(x)), Many(s));
      assert Remove(hx, Many(s)) == if h.id == x || h.id in s then [] else [h];
      assert Remove(a, Many({x} + s)) == (if h.id in {x} + s then [] else [h]) + Remove(t, Many({x} + s));
      RemoveTwice(t, x, s);
    }
  }

  /**
   * Import is a non-destructive merge: the memberships whose id the
   * snapshot does not mention stay, in their order, in front of what the
   * upserts produce on their own.
   */
  lemma UpsertAsRemove(a: seq<LocalGroup>, g: LocalGroup)
    ensures Upsert(a, g) == Remove(a, One(g.id)) + [g]
  {
    var u := Upsert(a, g);
    assert u == u[..|u| - 1] + [u[|u| - 1]];
  }

  lemma UpsertAllStep(a: seq<LocalGroup>, gs: seq<LocalGroup>)
    requires gs != []
    ensures UpsertAll(a, gs) == UpsertAll(Upsert(a, gs[0]), gs[1..])
  {
  }

  lemma IdSetStep(gs: seq<LocalGroup>)
    requires gs != []
    ensures IdSet(gs) == {gs[0].id} + IdSet(gs[1..])
  {
  }

  /**
   * Import is a non-destructive merge: the memberships whose id the
   * snapshot does not mention stay, in their order, in front of what the
   * upserts produce on their own.
   */
  lemma {:induction false} UpsertAllKeepsOthers(a: seq<LocalGroup>, gs: seq<LocalGroup>)
    ensures UpsertAll(a, gs) == Remove(a, Many(IdSet(gs))) + UpsertAll([], gs)
    decreases |gs|
  {
    if gs == [] {
      RemoveNoop(a, Many({}));
    } else {
      UpsertAllKeepsOthers(Remove(a, One(gs[0].id)) + [gs[0]], gs[1..]);
      UpsertAllKeepsOthers([gs[0]], gs[1..]);
      KeepsOthersStep(a, gs);
    }
  }

  /** The inductive step of UpsertAllKeepsOthers, from its two instances on the rest. */
  lemma KeepsOthersStep(a: seq<LocalGroup>, gs: seq<LocalGroup>)
    requires gs != []
    requires var ra := Remove(a, One(gs[0].id)) + [gs[0]];
      UpsertAll(ra, gs[1..]) == Remove(ra, Many(IdSet(gs[1..]))) + UpsertAll([], gs[1..])
    requires UpsertAll([gs[0]], gs[1..]) == Remove([gs[0]], Many(IdSet(gs[1..]))) + UpsertAll([], gs[1..])
    ensures UpsertAll(a, gs) == Remove(a, Many(IdSet(gs))) + UpsertAll([], gs)
  {
    var g, rest := gs[0], gs[1..];
    var ra := Remove(a, One(g.id));
    var left := Remove(a, Many(IdSet(gs)));
    var kept := Remove([g], Many(IdSet(rest)));
    var tail := UpsertAll([], rest);
    UpsertFirst(a, gs);
    RemoveAfterUpsert(a, gs);
    UpsertAllFromEmpty(gs);
    AppendAssoc(left, kept, tail);
  }

  /** The first upsert of the import. */
  lemma UpsertFirst(a: seq<LocalGroup>, gs: seq<LocalGroup>)
    requires gs != []
    ensures UpsertAll(a, gs) == UpsertAll(Remove(a, One(gs[0].id)) + [gs[0]], gs[1..])
  {
    UpsertAllStep(a, gs);
    UpsertAsRemove(a, gs[0]);
  }

  /** The list after the first upsert, filtered by the later ids. */
  lemma RemoveAfterUpsert(a: seq<LocalGroup>, gs: seq<LocalGroup>)
    requires gs != []
    ensures Remove(Remove(a, One(gs[0].id)) + [gs[0]], Many(IdSet(gs[1..])))
      == Remove(a, Many(IdSet(gs))) + Remove([gs[0]], Many(IdSet(gs[1..])))
  {
    var r := IdSet(gs[1..]);
    RemoveDistributes(Remove(a, One(gs[0].id)), [gs[0]], Many(r));
    RemoveTwice(a, gs[0].id, r);
    IdSetStep(gs);
  }

  /** The upserts into an empty list, split after the first one. */
  lemma UpsertAllFromEmpty(gs: seq<LocalGroup>)
    requires gs != []
    requires UpsertAll([gs[0]], gs[1..]) == Remove([gs[0]], Many(IdSet(gs[1..]))) + UpsertAll([], gs[1..])
    ensures UpsertAll([], gs) == Remove([gs[0]], Many(IdSet(gs[1..]))) + UpsertAll([], gs[1..])
  {
    UpsertAsRemove([], gs[0]);
    assert Remove([], One(gs[0].id)) == [];
    UpsertAllStep([], gs);
  }

  /**
   * After the upserts each id's membership comes from its last occurrence
   * in the imported pairs; the other ids keep their memberships.
   */
  lemma {:induction false} UpsertAllKeyById(a: seq<LocalGroup>, gs: seq<LocalGroup>)
    ensures UniqueIds(a) ==> UniqueIds(UpsertAll(a, gs))
    ensures KeyById(UpsertAll(a, gs)) == KeyById(a) + KeyById(gs)
    decreases |gs|
  {
    if gs == [] {
      assert KeyById(gs) == map[];
      assert KeyById(a) + map[] == KeyById(a);
    } else {
      var g, rest := gs[0], gs[1..];
      var u := Upsert(a, g);
      UpsertAllStep(a, gs);
      if UniqueIds(a) {
        UpsertKeepsUniqueIds(a, g);
      }
      UpsertKeyById(a, g);
      UpsertAllKeyById(u, rest);
      KeyByIdHead(gs);
      MapUpdateThenUnion(KeyById(a), g.id, g, KeyById(rest));
    }
  }

  /** The head's key is overridden by any later entry with the same id. */
  lemma KeyByIdHead(gs: seq<LocalGroup>)
    requires gs != []
    ensures KeyById(gs) == map[gs[0].id := gs[0]] + KeyById(gs[1..])
  {
    assert gs == [gs[0]] + gs[1..];
    KeyByIdConcat([gs[0]], gs[1..]);
    assert [gs[0]][..0] == [];
  }

  lemma MapUpdateThenUnion<K, V>(m: map<K, V>, k: K, v: V, n: map<K, V>)
    ensures m[k := v] + n == m + (map[k := v] + n)
  {
  }

  /** Upserting ids not yet present only appends. */
  lemma {:induction false} UpsertAllFresh(b: seq<LocalGroup>, gs: seq<LocalGroup>)
    requires UniqueIds(b + gs)
    ensures UpsertAll(b, gs) == b + gs
    decreases |gs|
  {
    if gs != [] {
      var g, rest := gs[0], gs[1..];
      assert b + gs == (b + [g]) + rest;
      UniqueIdsConcat(b + [g], rest);
      UniqueIdsConcat(b, [g]);
      assert !HasId(b, g.id) by {
        forall e | e in b ensures e.id != g.id {
          var i :| 0 <= i < |b| && b[i] == e;
          assert [g][0] == g;
        }
      }
      assert Upsert(b, g) == b + [g];
      UpsertAllFresh(b + [g], rest);
    }
  }

  /**
   * Importing into an empty registry a snapshot with distinct keys, no
   * empty list and no id repeated anywhere, then exporting, gives the
   * snapshot back.
   */
  lemma ImportThenExport(d: Dict)
    requires UniqueKeys(d) && NoEmptyFolder(d)
    requires UniqueIds(Flatten(d))
    ensures GroupIdsDictByFolderName(Import([], d)) == d
  {
    assert [] + Flatten(d) == Flatten(d);
    UpsertAllFresh([], Flatten(d));
    DictOfFlatten(d);
  }

  /** The worked example: import { work: [1, 2], fun: [3] } into an empty registry. */
  lemma ImportExportExample()
    ensures GroupIdsDictByFolderName(Import([], [FolderIds("work", [1, 2]), FolderIds("fun", [3])]))
      == [FolderIds("work", [1, 2]), FolderIds("fun", [3])]
  {
    var d := [FolderIds("work", [1, 2]), FolderIds("fun", [3])];
    assert Keys(d) == ["work", "fun"];
    assert Flatten(d) == [LocalGroup(1, "work"), LocalGroup(2, "work"), LocalGroup(3, "fun")] by {
      assert Flatten(d[1..]) == Pairs(d[1]) + Flatten([]);
    }
    ImportThenExport(d);
  }

  // ---------------------------------------------------------------
  // Export of an export: the ids of the flattened export stay unique
  // ---------------------------------------------------------------

  lemma {:induction false} FlattenPushId(d: Dict, f: string, id: int)
    requires UniqueIds(Flatten(d))
    requires !HasId(Flatten(d), id)
    ensures UniqueIds(Flatten(PushId(d, f, id)))
    ensures forall k :: HasId(Flatten(PushId(d, f, id)), k) <==> HasId(Flatten(d), k) || k == id
  {
    var r := PushId(d, f, id);
    var e := LocalGroup(id, f);
    if d == [] {
      assert Flatten(r) == [e];
      forall k ensures HasId([e], k) <==> k == id {
        assert e in [e];
      }
    } else if d[0].folder == f {
      var p := Pairs(d[0]);
      var t := Flatten(d[1..]);
      assert Flatten(d) == p + t;
      assert Pairs(FolderIds(f, d[0].ids + [id])) == p + [e];
      assert Flatten(r) == (p + [e]) + t;
      InsertFresh(p, t, e);
    } else {
      var p := Pairs(d[0]);
      var t := Flatten(d[1..]);
      var t' := Flatten(PushId(d[1..], f, id));
      assert Flatten(d) == p + t;
      PushIdSkip(d, f, id);
      assert Flatten(r) == p + t';
      UniqueIdsConcat(p, t);
      NoIdInParts(p, t, id);
      FlattenPushId(d[1..], f, id);
      ExtendFresh(p, t, t', id);
    }
  }

  /** Inserting a membership with a new id between two parts keeps ids unique. */
  lemma InsertFresh(p: seq<LocalGroup>, t: seq<LocalGroup>, e: LocalGroup)
    requires UniqueIds(p + t) && !HasId(p + t, e.id)
    ensures UniqueIds((p + [e]) + t)
    ensures forall k :: HasId((p + [e]) + t, k) <==> HasId(p + t, k) || k == e.id
  {
    UniqueIdsConcat(p, t);
    NoIdInParts(p, t, e.id);
    AppendFresh(p, e);
    DisjointAppend(p, e, t);
    UniqueIdsConcat(p + [e], t);
    forall k ensures HasId((p + [e]) + t, k) <==> HasId(p + t, k) || k == e.id {
      HasIdConcat(p + [e], t, k);
      HasIdConcat(p, [e], k);
      HasIdConcat(p, t, k);
      assert HasId([e], k) <==> k == e.id by { assert e in [e]; }
    }
  }

  /** Replacing the second part by one with a single new id keeps ids unique. */
  lemma ExtendFresh(p: seq<LocalGroup>, t: seq<LocalGroup>, t': seq<LocalGroup>, id: int)
    requires UniqueIds(p) && DisjointIds(p, t) && !HasId(p, id)
    requires UniqueIds(t')
    requires forall k :: HasId(t', k) <==> HasId(t, k) || k == id
    ensures UniqueIds(p + t')
    ensures forall k :: HasId(p + t', k) <==> HasId(p + t, k) || k == id
  {
    forall i, j | 0 <= i < |p| && 0 <= j < |t'| ensures p[i].id != t'[j].id {
      assert t'[j] in t';
      assert HasId(t', t'[j].id);
      if t'[j].id != id {
        var w :| w in t && w.id == t'[j].id;
        var jj :| 0 <= jj < |t| && t[jj] == w;
      } else {
        assert p[i] in p;
      }
    }
    UniqueIdsConcat(p, t');
    forall k ensures HasId(p + t', k) <==> HasId(p + t, k) || k == id {
      HasIdConcat(p, t', k);
      HasIdConcat(p, t, k);
    }
  }

  lemma HasIdConcat(x: seq<LocalGroup>, y: seq<LocalGroup>, k: int)
    ensures HasId(x + y, k) <==> HasId(x, k) || HasId(y, k)
  {
    if HasId(x + y, k) {
      var w :| w in x + y && w.id == k;
      assert w in x || w in y;
    }
    if HasId(x, k) {
      var w :| w in x && w.id == k;
      assert w in x + y;
    }
    if HasId(y, k) {
      var w :| w in y && w.id == k;
      assert w in x + y;
    }
  }

  lemma AppendFresh(p: seq<LocalGroup>, e: LocalGroup)
    requires UniqueIds(p) && !HasId(p, e.id)
    ensures UniqueIds(p + [e])
  {
    var q := p + [e];
    forall i, j | 0 <= i < j < |q| ensures q[i].id != q[j].id {
      if j == |p| {
        assert q[i] == p[i] && p[i] in p;
      } else {
        assert q[i] == p[i] && q[j] == p[j];
      }
    }
  }

  lemma DisjointAppend(p: seq<LocalGroup>, e: LocalGroup, t: seq<LocalGroup>)
    requires DisjointIds(p, t) && !HasId(t, e.id)
    ensures DisjointIds(p + [e], t)
  {
    var q := p + [e];
    forall i, j | 0 <= i < |q| && 0 <= j < |t| ensures q[i].id != t[j].id {
      if i == |p| {
        assert q[i] == e && t[j] in t;
      } else {
        assert q[i] == p[i];
      }
    }
  }

  lemma NoIdInParts(p: seq<LocalGroup>, t: seq<LocalGroup>, id: int)
    requires !HasId(p + t, id)
    ensures !HasId(p, id) && !HasId(t, id)
  {
    forall x | x in p ensures x.id != id { assert x in p + t; }
    forall x | x in t ensures x.id != id { assert x in p + t; }
  }

  /** With unique ids in the list, the flattened export has unique ids too. */
  lemma {:induction false} FlattenDictUnique(a: seq<LocalGroup>)
    requires UniqueIds(a)
    ensures UniqueIds(Flatten(GroupIdsDictByFolderName(a)))
    ensures forall k :: HasId(Flatten(GroupIdsDictByFolderName(a)), k) <==> HasId(a, k)
  {
    if a != [] {
      var init := a[..|a| - 1];
      var last := a[|a| - 1];
      assert a == init + [last];
      UniqueIdsConcat(init, [last]);
      FlattenDictUnique(init);
      FlattenDictUniqueStep(init, last);
    }
  }

  /** The inductive step of FlattenDictUnique: one more membership, with a new id. */
  lemma FlattenDictUniqueStep(init: seq<LocalGroup>, last: LocalGroup)
    requires UniqueIds(init + [last])
    requires UniqueIds(Flatten(GroupIdsDictByFolderName(init)))
    requires forall k :: HasId(Flatten(GroupIdsDictByFolderName(init)), k) <==> HasId(init, k)
    ensures UniqueIds(Flatten(GroupIdsDictByFolderName(init + [last])))
    ensures forall k :: HasId(Flatten(GroupIdsDictByFolderName(init + [last])), k) <==> HasId(init + [last], k)
  {
    var d := GroupIdsDictByFolderName(init);
    UniqueIdsConcat(init, [last]);
    DisjointLast(init, last);
    DictSnoc(init, last);
    FlattenPushId(d, last.folder, last.id);
    forall k ensures HasId(init + [last], k) <==> HasId(init, k) || k == last.id {
      HasIdConcat(init, [last], k);
      assert HasId([last], k) <==> k == last.id by { assert last in [last]; }
    }
  }

  lemma DisjointLast(init: seq<LocalGroup>, last: LocalGroup)
    requires DisjointIds(init, [last])
    ensures !HasId(init, last.id)
  {
    forall x | x in init ensures x.id != last.id {
      var i :| 0 <= i < |init| && init[i] == x;
      assert [last][0] == last;
    }
  }

  /**
   * Exporting, then importing the export into an empty registry, then
   * exporting again reproduces the first export.
   */
  lemma ExportImportExport(a: seq<LocalGroup>)
    requires UniqueIds(a)
    ensures GroupIdsDictByFolderName(Import([], GroupIdsDictByFolderName(a))) == GroupIdsDictByFolderName(a)
  {
    DictKeysAreFolders(a);
    DictNoEmptyFolder(a);
    FlattenDictUnique(a);
    ImportThenExport(GroupIdsDictByFolderName(a));
  }

  // ---------------------------------------------------------------
  // updateCurrentLocalGroups: rebuild the list from storage
  // ---------------------------------------------------------------

  /** A stored folder's value: an array of ids, or something that is not an array. */
  datatype StoredIds = IdArray(ids: seq<int>) | NotArray

  datatype StoredFolder = StoredFolder(folder: string, value: StoredIds)

  /**
   * The storage value under "groups": absent (a falsy string), a parsed
   * object, or a value whose reading or parsing throws.
   */
  datatype StoredGroups = Absent | Parsed(entries: seq<StoredFolder>) | Unreadable

  /** The memberships that the nested forEach pushes for the parsed entries. */
  function LoadedGroups(entries: seq<StoredFolder>): seq<LocalGroup> {
    if entries == [] then []
    else
      var e := entries[0];
      (if e.value.IdArray? then Pairs(FolderIds(e.folder, e.value.ids)) else [])
        + LoadedGroups(entries[1..])
  }

  /** The folders whose value is an array, with their ids. */
  function ArrayFolders(entries: seq<StoredFolder>): Dict {
    if entries == [] then []
    else
      var e := entries[0];
      (if e.value.IdArray? then [FolderIds(e.folder, e.value.ids)] else [])
        + ArrayFolders(entries[1..])
  }

  /**
   * Folders whose value is not an array contribute nothing; each array
   * folder contributes its pairs, in key order.
   */
  lemma {:induction false} LoadedIsFlatten(entries: seq<StoredFolder>)
    ensures LoadedGroups(entries) == Flatten(ArrayFolders(entries))
  {
    if entries != [] {
      LoadedIsFlatten(entries[1..]);
      var e := entries[0];
      if e.value.IdArray? {
        var d := [FolderIds(e.folder, e.value.ids)] + ArrayFolders(entries[1..]);
        assert d[0] == FolderIds(e.folder, e.value.ids) && d[1..] == ArrayFolders(entries[1..]);
      } else {
        assert [] + ArrayFolders(entries[1..]) == ArrayFolders(entries[1..]);
        assert [] + LoadedGroups(entries[1..]) == LoadedGroups(entries[1..]);
      }
    }
  }

  /**
   * What saveCurrentLocalGroups stores, read back: every key of the
   * dictionary with an array of its ids, so that the load finds every key
   * again, with its ids in order.
   */
  function AsStored(d: Dict): (r: seq<StoredFolder>)
    ensures |r| == |d|
    ensures ArrayFolders(r) == d
  {
    if d == [] then []
    else
      var t := AsStored(d[1..]);
      var r := [StoredFolder(d[0].folder, IdArray(d[0].ids))] + t;
      assert r[0].value.IdArray? && r[1..] == t;
      r
  }

  /**
   * Saving then loading keeps every folder's ids and their order: the
   * rebuilt list has the same folder-to-ids dictionary.
   */
  lemma SaveThenLoad(a: seq<LocalGroup>)
    ensures GroupIdsDictByFolderName(LoadedGroups(AsStored(GroupIdsDictByFolderName(a)))) == GroupIdsDictByFolderName(a)
  {
    var d := GroupIdsDictByFolderName(a);
    LoadedIsFlatten(AsStored(d));
    DictKeysAreFolders(a);
    DictNoEmptyFolder(a);
    DictOfFlatten(d);
  }

  /**
   * Saving then loading groups the list by folder: memberships of
   * different folders do not keep their interleaving.
   */
  lemma SaveThenLoadRegroups()
    ensures var a := [LocalGroup(1, "A"), LocalGroup(2, "B"), LocalGroup(3, "A")];
      LoadedGroups(AsStored(GroupIdsDictByFolderName(a)))
        == [LocalGroup(1, "A"), LocalGroup(3, "A"), LocalGroup(2, "B")]
  {
    var d := [FolderIds("A", [1, 3]), FolderIds("B", [2])];
    RegroupExampleDict();
    var stored := AsStored(d);
    assert ArrayFolders(stored) == d;
    LoadedIsFlatten(stored);
    RegroupExampleFlatten();
  }

  /** The pairs of { A: [1, 3], B: [2] }. */
  lemma RegroupExampleFlatten()
    ensures Flatten([FolderIds("A", [1, 3]), FolderIds("B", [2])])
      == [LocalGroup(1, "A"), LocalGroup(3, "A"), LocalGroup(2, "B")]
  {
    var d := [FolderIds("A", [1, 3]), FolderIds("B", [2])];
    var pa, pb := Pairs(d[0]), Pairs(d[1]);
    assert pa == [LocalGroup(1, "A"), LocalGroup(3, "A")];
    assert pb == [LocalGroup(2, "B")];
    assert d[1..][1..] == [];
    assert Flatten(d[1..]) == pb + Flatten([]);
  }

  /** The export of [1 in A, 2 in B, 3 in A]. */
  lemma RegroupExampleDict()
    ensures GroupIdsDictByFolderName([LocalGroup(1, "A"), LocalGroup(2, "B"), LocalGroup(3, "A")])
      == [FolderIds("A", [1, 3]), FolderIds("B", [2])]
  {
    var g1, g2, g3 := LocalGroup(1, "A"), LocalGroup(2, "B"), LocalGroup(3, "A");
    var d1 := [FolderIds("A", [1])];
    var d2 := [FolderIds("A", [1]), FolderIds("B", [2])];
    calc {
      GroupIdsDictByFolderName([g1]);
      { assert [g1] == [] + [g1]; DictSnoc([], g1); }
      PushId([], "A", 1);
      d1;
    }
    calc {
      GroupIdsDictByFolderName([g1, g2]);
      { assert [g1, g2] == [g1] + [g2]; DictSnoc([g1], g2); }
      PushId(d1, "B", 2);
      { assert Keys(d1) == ["A"]; PushIdNewKey(d1, "B", 2); }
      d2;
    }
    calc {
      GroupIdsDictByFolderName([g1, g2, g3]);
      { assert [g1, g2, g3] == [g1, g2] + [g3]; DictSnoc([g1, g2], g3); }
      PushId(d2, "A", 3);
      [FolderIds("A", [1] + [3])] + d2[1..];
      { assert [1] + [3] == [1, 3]; }
      [FolderIds("A", [1, 3]), FolderIds("B", [2])];
    }
  }
}
