/**
 * The membership list `localGroupsArray` of the groups store, as values:
 * the upsert of addLocalGroup, the filter of removeLocalGroup, the
 * id-keyed view `localGroups` (lodash keyBy) and the folder list
 * `folders` (lodash uniq), together with the facts the registry relies on.
 */
module Memberships {
  import opened Wrappers
  import opened GroupTypes
  import opened Seqs

  /** Some membership has this id (`localGroupsArray.some(x => x.id === id)`). */
  predicate HasId(a: seq<LocalGroup>, id: int) {
    exists e :: e in a && e.id == id
  }

  /** Some membership is in this folder. */
  predicate HasFolder(a: seq<LocalGroup>, f: string) {
    exists e :: e in a && e.folder == f
  }

  /** At most one membership per id. */
  predicate UniqueIds(a: seq<LocalGroup>) {
    forall i, j :: 0 <= i < j < |a| ==> a[i].id != a[j].id
  }

  /** The argument of removeLocalGroup: a single id or a set of ids. */
  datatype IdSelector = One(id: int) | Many(ids: set<int>)

  predicate Selects(sel: IdSelector, id: int) {
    match sel
    case One(x) => id == x
    case Many(s) => id in s
  }

  // ---------------------------------------------------------------
  // removeLocalGroup: a filter
  // ---------------------------------------------------------------

  /**
   * The entries whose id is not selected, in their original order. When
   * nothing is selected the list comes back unchanged.
   */
  function Remove(a: seq<LocalGroup>, sel: IdSelector): (r: seq<LocalGroup>)
    ensures |r| <= |a|
  {
    if a == [] then []
    else (if Selects(sel, a[0].id) then [] else [a[0]]) + Remove(a[1..], sel)
  }

  /** Exactly the entries whose id is not selected remain. */
  lemma {:induction false} RemoveMembers(a: seq<LocalGroup>, sel: IdSelector)
    ensures forall e :: e in Remove(a, sel) <==> e in a && !Selects(sel, e.id)
  {
    if a != [] {
      assert forall e :: e in a <==> e == a[0] || e in a[1..];
      RemoveMembers(a[1..], sel);
    }
  }

  /** When no entry is selected the call is a no-op. */
  lemma {:induction false} RemoveNoop(a: seq<LocalGroup>, sel: IdSelector)
    requires forall e :: e in a ==> !Selects(sel, e.id)
    ensures Remove(a, sel) == a
  {
    if a != [] {
      assert a[0] in a;
      assert !Selects(sel, a[0].id);
      assert forall e :: e in a[1..] ==> e in a;
      RemoveNoop(a[1..], sel);
      assert Remove(a, sel) == [a[0]] + a[1..];
      assert [a[0]] + a[1..] == a;
    }
  }

  /**
   * Removal keeps relative order: filtering a concatenation filters each
   * part and concatenates the results.
   */
  lemma {:induction false} RemoveDistributes(a: seq<LocalGroup>, b: seq<LocalGroup>, sel: IdSelector)
    ensures Remove(a + b, sel) == Remove(a, sel) + Remove(b, sel)
  {
    if a == [] {
      assert a + b == b;
    } else {
      assert (a + b)[0] == a[0];
      assert (a + b)[1..] == a[1..] + b;
      RemoveDistributes(a[1..], b, sel);
    }
  }

  /** No entry of s has this id. */
  predicate IdAbsent(s: seq<LocalGroup>, id: int) {
    forall i :: 0 <= i < |s| ==> s[i].id != id
  }

  lemma UniqueIdsCons(x: LocalGroup, s: seq<LocalGroup>)
    ensures UniqueIds([x] + s) <==> UniqueIds(s) && IdAbsent(s, x.id)
  {
    var t := [x] + s;
    assert forall i :: 0 <= i < |s| ==> t[i + 1] == s[i];
    if UniqueIds(t) {
      forall i, j | 0 <= i < j < |s| ensures s[i].id != s[j].id {
        assert t[i + 1] == s[i] && t[j + 1] == s[j];
      }
      forall i | 0 <= i < |s| ensures s[i].id != x.id {
        assert t[0] == x && t[i + 1] == s[i];
      }
    }
    if UniqueIds(s) && IdAbsent(s, x.id) {
      forall i, j | 0 <= i < j < |t| ensures t[i].id != t[j].id {
        if i > 0 {
          assert t[i] == s[i - 1] && t[j] == s[j - 1];
        }
      }
    }
  }

  lemma IdAbsentSubset(s: seq<LocalGroup>, r: seq<LocalGroup>, id: int)
    requires IdAbsent(s, id)
    requires forall e :: e in r ==> e in s
    ensures IdAbsent(r, id)
  {
    forall i | 0 <= i < |r| ensures r[i].id != id {
      assert r[i] in s;
    }
  }

  /** Removal never introduces an id twice. */
  lemma {:induction false} RemoveKeepsUniqueIds(a: seq<LocalGroup>, sel: IdSelector)
    requires UniqueIds(a)
    ensures UniqueIds(Remove(a, sel))
  {
    if a != [] {
      var t := a[1..];
      assert a == [a[0]] + t;
      UniqueIdsCons(a[0], t);
      RemoveKeepsUniqueIds(t, sel);
      var rest := Remove(t, sel);
      if !Selects(sel, a[0].id) {
        RemoveMembers(t, sel);
        IdAbsentSubset(t, rest, a[0].id);
        UniqueIdsCons(a[0], rest);
      }
    }
  }

  // ---------------------------------------------------------------
  // addLocalGroup: remove, then append
  // ---------------------------------------------------------------

  /**
   * The list after addLocalGroup(g): the other entries, in their order,
   * followed by g, which is the only entry with its id.
   */
  function Upsert(a: seq<LocalGroup>, g: LocalGroup): (r: seq<LocalGroup>)
    ensures |r| > 0 && r[|r| - 1] == g
    ensures r[..|r| - 1] == Remove(a, One(g.id))
  {
    if HasId(a, g.id) then Remove(a, One(g.id)) + [g]
    else
      RemoveNoop(a, One(g.id));
      a + [g]
  }

  /** After the upsert, g is the only entry with its id. */
  lemma UpsertIdOnce(a: seq<LocalGroup>, g: LocalGroup)
    ensures forall i :: 0 <= i < |Upsert(a, g)| - 1 ==> Upsert(a, g)[i].id != g.id
  {
    var r := Upsert(a, g);
    RemoveMembers(a, One(g.id));
    assert forall i :: 0 <= i < |r| - 1 ==> r[i] == r[..|r| - 1][i];
  }

  /** An upsert never introduces an id twice. */
  lemma UpsertKeepsUniqueIds(a: seq<LocalGroup>, g: LocalGroup)
    requires UniqueIds(a)
    ensures UniqueIds(Upsert(a, g))
  {
    var r := Upsert(a, g);
    UpsertIdOnce(a, g);
    RemoveKeepsUniqueIds(a, One(g.id));
    assert UniqueIds(r[..|r| - 1]);
    forall i, j | 0 <= i < j < |r| ensures r[i].id != r[j].id {
      if j < |r| - 1 {
        assert r[i] == r[..|r| - 1][i] && r[j] == r[..|r| - 1][j];
      }
    }
  }

  // ---------------------------------------------------------------
  // localGroups: keyBy(localGroupsArray, x => x.id)
  // ---------------------------------------------------------------

  /** The memberships keyed by id; on a repeated id the later entry wins. */
  function KeyById(a: seq<LocalGroup>): (m: map<int, LocalGroup>)
    ensures forall id :: id in m <==> HasId(a, id)
    ensures forall id :: id in m ==> m[id].id == id && m[id] in a
  {
    if a == [] then map[]
    else
      var last := a[|a| - 1];
      assert a == a[..|a| - 1] + [last];
      assert forall e :: e in a <==> e == last || e in a[..|a| - 1];
      KeyById(a[..|a| - 1])[last.id := last]
  }

  /** An entry that no later entry shares its id with is the one keyBy keeps. */
  lemma {:induction false} KeyByIdLastWins(a: seq<LocalGroup>, i: nat)
    requires i < |a|
    requires forall j :: i < j < |a| ==> a[j].id != a[i].id
    ensures KeyById(a)[a[i].id] == a[i]
  {
    if i < |a| - 1 {
      var init := a[..|a| - 1];
      assert init[i] == a[i];
      forall j | i < j < |init| ensures init[j].id != init[i].id {
        assert init[j] == a[j];
      }
      KeyByIdLastWins(init, i);
    }
  }

  /** With unique ids, keyBy maps each id to its one membership. */
  lemma UniqueLookup(a: seq<LocalGroup>, e: LocalGroup)
    requires UniqueIds(a) && e in a
    ensures e.id in KeyById(a) && KeyById(a)[e.id] == e
  {
    var i :| 0 <= i < |a| && a[i] == e;
    KeyByIdLastWins(a, i);
  }

  /** keyBy over a concatenation: the right part's entries win. */
  lemma {:induction false} KeyByIdConcat(x: seq<LocalGroup>, y: seq<LocalGroup>)
    ensures KeyById(x + y) == KeyById(x) + KeyById(y)
  {
    if y == [] {
      assert x + y == x;
    } else {
      var init := y[..|y| - 1];
      var last := y[|y| - 1];
      assert (x + y)[..|x + y| - 1] == x + init;
      assert (x + y)[|x + y| - 1] == last;
      assert KeyById(x + y) == KeyById(x + init)[last.id := last];
      assert KeyById(y) == KeyById(init)[last.id := last];
      KeyByIdConcat(x, init);
      MapUpdateUnion(KeyById(x), KeyById(init), last.id, last);
    }
  }

  lemma MapUpdateUnion<K, V>(m: map<K, V>, n: map<K, V>, k: K, v: V)
    ensures (m + n)[k := v] == m + n[k := v]
  {
  }

  /** Removal deletes exactly the selected keys of keyBy; repeated ids included. */
  lemma {:induction false} RemoveKeyById(a: seq<LocalGroup>, sel: IdSelector)
    ensures KeyById(Remove(a, sel)) == map k | k in KeyById(a) && !Selects(sel, k) :: KeyById(a)[k]
  {
    if a != [] {
      var init, last := a[..|a| - 1], a[|a| - 1];
      assert a == init + [last];
      RemoveDistributes(init, [last], sel);
      KeyByIdConcat(Remove(init, sel), Remove([last], sel));
      RemoveKeyById(init, sel);
      RemoveSingleton(last, sel);
      KeyBySingleton(last);
      assert KeyById([]) == map[];
      RestrictUpdate(KeyById(init), sel, last);
    }
  }

  lemma RemoveSingleton(g: LocalGroup, sel: IdSelector)
    ensures Remove([g], sel) == if Selects(sel, g.id) then [] else [g]
  {
    assert [g][1..] == [];
  }

  /** Restricting an updated map to the unselected keys. */
  lemma RestrictUpdate(m: map<int, LocalGroup>, sel: IdSelector, g: LocalGroup)
    ensures (map k | k in m[g.id := g] && !Selects(sel, k) :: m[g.id := g][k]) ==
      (map k | k in m && !Selects(sel, k) :: m[k]) + (if Selects(sel, g.id) then map[] else map[g.id := g])
  {
    var l := map k | k in m[g.id := g] && !Selects(sel, k) :: m[g.id := g][k];
    var r := (map k | k in m && !Selects(sel, k) :: m[k]) + (if Selects(sel, g.id) then map[] else map[g.id := g]);
    MapExt(l, r);
  }

  /** Every key left after a removal was present, is not selected and keeps its membership. */
  lemma RemoveKeyByIdAt(a: seq<LocalGroup>, sel: IdSelector, k: int)
    requires k in KeyById(Remove(a, sel))
    ensures k in KeyById(a) && !Selects(sel, k)
    ensures KeyById(Remove(a, sel))[k] == KeyById(a)[k]
  {
    RemoveKeyById(a, sel);
  }

  lemma RemoveKeyByIdKept(a: seq<LocalGroup>, sel: IdSelector, k: int)
    requires k in KeyById(a) && !Selects(sel, k)
    ensures k in KeyById(Remove(a, sel))
  {
    var e := KeyById(a)[k];
    assert e in a && e.id == k;
    RemoveMembers(a, sel);
    assert e in Remove(a, sel);
  }

  lemma MapExt<K, V>(m: map<K, V>, n: map<K, V>)
    requires forall k :: k in m ==> k in n && m[k] == n[k]
    requires forall k :: k in n ==> k in m
    ensures m == n
  {
  }

  /** An upsert overwrites one key of keyBy. */
  lemma UpsertKeyById(a: seq<LocalGroup>, g: LocalGroup)
    ensures KeyById(Upsert(a, g)) == KeyById(a)[g.id := g]
  {
    var r := Upsert(a, g);
    assert r == r[..|r| - 1] + [g];
    KeyByIdConcat(r[..|r| - 1], [g]);
    KeyBySingleton(g);
    RemoveKeyById(a, One(g.id));
    var m := KeyById(a);
    var m' := map k | k in m && !Selects(One(g.id), k) :: m[k];
    MapExt(m' + map[g.id := g], m[g.id := g]);
  }

  lemma KeyBySingleton(g: LocalGroup)
    ensures KeyById([g]) == map[g.id := g]
  {
    assert [g][..0] == [];
  }

  // ---------------------------------------------------------------
  // Sequences of edits: addLocalGroup, removeLocalGroup, removeLocalGroups
  // ---------------------------------------------------------------

  /** One membership edit of the store. */
  datatype Edit = Add(g: LocalGroup) | Delete(sel: IdSelector) | ClearAll

  function ApplyEdit(a: seq<LocalGroup>, e: Edit): seq<LocalGroup> {
    match e
    case Add(g) => Upsert(a, g)
    case Delete(sel) => Remove(a, sel)
    case ClearAll => []
  }

  function ApplyEdits(a: seq<LocalGroup>, es: seq<Edit>): seq<LocalGroup>
    decreases |es|
  {
    if es == [] then a else ApplyEdits(ApplyEdit(a, es[0]), es[1..])
  }

  /**
   * The reference meaning of an edit on an id-to-membership dictionary:
   * an add overwrites the id's entry, a delete drops the selected ids,
   * a clear empties it.
   */
  function EditDict(m: map<int, LocalGroup>, e: Edit): map<int, LocalGroup> {
    match e
    case Add(g) => m[g.id := g]
    case Delete(sel) => map k | k in m && !Selects(sel, k) :: m[k]
    case ClearAll => map[]
  }

  function EditsDict(m: map<int, LocalGroup>, es: seq<Edit>): map<int, LocalGroup>
    decreases |es|
  {
    if es == [] then m else EditsDict(EditDict(m, es[0]), es[1..])
  }

  /**
   * On any list, repeated ids included, an edit acts on keyBy as the
   * dictionary edit; from unique ids it keeps them unique.
   */
  lemma EditRefinesDict(a: seq<LocalGroup>, e: Edit)
    ensures UniqueIds(a) ==> UniqueIds(ApplyEdit(a, e))
    ensures KeyById(ApplyEdit(a, e)) == EditDict(KeyById(a), e)
  {
    match e
    case Add(g) =>
      if UniqueIds(a) {
        UpsertKeepsUniqueIds(a, g);
      }
      UpsertKeyById(a, g);
    case Delete(sel) =>
      if UniqueIds(a) {
        RemoveKeepsUniqueIds(a, sel);
      }
      RemoveKeyById(a, sel);
    case ClearAll =>
  }

  /**
   * On any list, the list after a sequence of edits means exactly what the
   * dictionary model says: each present id's membership is the one from
   * its most recent add. From unique ids the edits keep them unique.
   */
  lemma {:induction false} EditsRefineDict(a: seq<LocalGroup>, es: seq<Edit>)
    ensures UniqueIds(a) ==> UniqueIds(ApplyEdits(a, es))
    ensures KeyById(ApplyEdits(a, es)) == EditsDict(KeyById(a), es)
    decreases |es|
  {
    if es != [] {
      EditRefinesDict(a, es[0]);
      EditsRefineDict(ApplyEdit(a, es[0]), es[1..]);
    }
  }

  /** Does an edit touch this id? */
  predicate Touches(e: Edit, id: int) {
    match e
    case Add(g) => g.id == id
    case Delete(sel) => Selects(sel, id)
    case ClearAll => true
  }

  lemma {:induction false} EditsDictUntouched(m: map<int, LocalGroup>, es: seq<Edit>, id: int)
    requires id in m
    requires forall k :: 0 <= k < |es| ==> !Touches(es[k], id)
    ensures id in EditsDict(m, es) && EditsDict(m, es)[id] == m[id]
    decreases |es|
  {
    if es != [] {
      assert !Touches(es[0], id);
      assert forall k :: 0 <= k < |es[1..]| ==> es[1..][k] == es[k + 1];
      EditsDictUntouched(EditDict(m, es[0]), es[1..], id);
    }
  }

  lemma {:induction false} ApplyEditsConcat(a: seq<LocalGroup>, x: seq<Edit>, y: seq<Edit>)
    ensures ApplyEdits(a, x + y) == ApplyEdits(ApplyEdits(a, x), y)
    decreases |x|
  {
    if x == [] {
      assert x + y == y;
    } else {
      assert (x + y)[0] == x[0];
      assert (x + y)[1..] == x[1..] + y;
      ApplyEditsConcat(ApplyEdit(a, x[0]), x[1..], y);
    }
  }

  /**
   * The most recent add wins: after `before`, an add of g and then edits
   * that do not touch g's id, g is the membership of its id.
   */
  lemma LastAddWins(a: seq<LocalGroup>, before: seq<Edit>, g: LocalGroup, after: seq<Edit>)
    requires forall k :: 0 <= k < |after| ==> !Touches(after[k], g.id)
    ensures KeyById(ApplyEdits(a, before + [Add(g)] + after)) == EditsDict(KeyById(ApplyEdits(a, before + [Add(g)])), after)
    ensures g.id in KeyById(ApplyEdits(a, before + [Add(g)] + after))
    ensures KeyById(ApplyEdits(a, before + [Add(g)] + after))[g.id] == g
  {
    var mid := ApplyEdits(a, before + [Add(g)]);
    ApplyEditsConcat(a, before + [Add(g)], after);
    ApplyEditsConcat(a, before, [Add(g)]);
    EditsRefineDict(a, before);
    var b := ApplyEdits(a, before);
    assert ApplyEdits(b, [Add(g)]) == Upsert(b, g);
    UpsertKeyById(b, g);
    EditsRefineDict(mid, after);
    EditsDictUntouched(KeyById(mid), after, g.id);
  }

  /** getLocalGroupById: the membership of an id, if any. */
  function LocalGroupById(a: seq<LocalGroup>, id: int): (r: Option<LocalGroup>)
    ensures r.Some? <==> HasId(a, id)
    ensures r.Some? ==> r.value.id == id && r.value in a
    ensures UniqueIds(a) ==> forall e :: e in a && e.id == id ==> r == Some(e)
  {
    UniqueLookupAll(a, id);
    if id in KeyById(a) then Some(KeyById(a)[id]) else None
  }

  lemma UniqueLookupAll(a: seq<LocalGroup>, id: int)
    ensures UniqueIds(a) ==> forall e :: e in a && e.id == id ==> KeyById(a)[id] == e
  {
    if UniqueIds(a) {
      forall e | e in a && e.id == id ensures KeyById(a)[id] == e {
        UniqueLookup(a, e);
      }
    }
  }

  // ---------------------------------------------------------------
  // folders: uniq(localGroupsArray.map(x => x.folder))
  // ---------------------------------------------------------------

  /** The distinct folders, each kept at its first appearance. */
  function Folders(a: seq<LocalGroup>): (r: seq<string>)
    ensures Distinct(r)
    ensures forall f :: f in r <==> HasFolder(a, f)
  {
    if a == [] then []
    else
      var r := Folders(a[..|a| - 1]);
      var f := a[|a| - 1].folder;
      assert a == a[..|a| - 1] + [a[|a| - 1]];
      assert forall e :: e in a <==> e == a[|a| - 1] || e in a[..|a| - 1];
      if f in r then r else r + [f]
  }

  /** The index of the first membership in folder f. */
  function FirstIndex(a: seq<LocalGroup>, f: string): (k: nat)
    requires HasFolder(a, f)
    ensures k < |a| && a[k].folder == f
    ensures forall j :: 0 <= j < k ==> a[j].folder != f
  {
    if a[0].folder == f then 0
    else
      assert forall e :: e in a <==> e == a[0] || e in a[1..];
      1 + FirstIndex(a[1..], f)
  }

  /** The first appearance is unique, so it survives appending. */
  lemma FirstIndexPrefix(a: seq<LocalGroup>, n: nat, f: string)
    requires n <= |a| && HasFolder(a[..n], f)
    ensures HasFolder(a, f) && FirstIndex(a, f) == FirstIndex(a[..n], f)
  {
    var k := FirstIndex(a[..n], f);
    assert a[..n][k] == a[k] && a[k] in a;
    assert forall j :: 0 <= j < k ==> a[j] == a[..n][j];
    var k' := FirstIndex(a, f);
    assert k' <= k;
  }

  /** folders lists the folders in the order of their first appearance. */
  lemma {:induction false} FoldersInFirstAppearanceOrder(a: seq<LocalGroup>)
    ensures forall i, j :: 0 <= i < j < |Folders(a)| ==>
      HasFolder(a, Folders(a)[i]) && HasFolder(a, Folders(a)[j]) &&
      FirstIndex(a, Folders(a)[i]) < FirstIndex(a, Folders(a)[j])
  {
    if a != [] {
      var n := |a| - 1;
      var init := a[..n];
      var r' := Folders(init);
      var r := Folders(a);
      var f := a[n].folder;
      FoldersInFirstAppearanceOrder(init);
      forall x | x in r' ensures HasFolder(a, x) && FirstIndex(a, x) == FirstIndex(init, x) {
        FirstIndexPrefix(a, n, x);
      }
      if f in r' {
        assert r == r';
        forall i, j | 0 <= i < j < |r|
          ensures HasFolder(a, r[i]) && HasFolder(a, r[j]) && FirstIndex(a, r[i]) < FirstIndex(a, r[j])
        {
          assert r[i] in r' && r[j] in r';
          assert FirstIndex(init, r'[i]) < FirstIndex(init, r'[j]);
        }
      } else {
        assert r == r' + [f];
        assert FirstIndex(a, f) == n by {
          forall j | 0 <= j < n ensures a[j].folder != f {
            assert init[j] == a[j] && init[j] in init;
          }
        }
        forall i, j | 0 <= i < j < |r|
          ensures HasFolder(a, r[i]) && HasFolder(a, r[j]) && FirstIndex(a, r[i]) < FirstIndex(a, r[j])
        {
          assert r[i] in r && r[j] in r;
          if j < |r'| {
            assert FirstIndex(init, r'[i]) < FirstIndex(init, r'[j]);
            assert r[i] == r'[i] && r[j] == r'[j];
          } else {
            assert r[i] == r'[i] && r[i] in r';
            assert FirstIndex(init, r[i]) < |init|;
          }
        }
      }
    } else {
      assert Folders(a) == [];
    }
  }
}
