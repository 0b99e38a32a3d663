/**
 * `Deduplicator.FindDuplicateGroups`: the records of a vault grouped by the same
 * composite key `Deduplicate` uses, keeping only the keys shared by more than one
 * record, in first-key order. The vault is only read.
 */
module DuplicateGroups {
  import opened Wrappers
  import opened VaultModel
  import opened CompositeKey

  /** A key and the records that share it, in vault order. */
  datatype DuplicateGroup = DuplicateGroup(key: string, items: seq<Item>)

  /** `dict`: key to the records read so far, with the keys in insertion order. */
  datatype GroupTable = GroupTable(lists: map<string, seq<Item>>, order: seq<string>)

  /** One iteration of the loop over `vault.Items`, grouping by `key`. */
  function GroupStep(key: Item -> string, t: GroupTable, oi: Option<Item>): GroupTable {
    match oi
    case None => t
    case Some(it) =>
      var k := key(it);
      var t' := if k !in t.lists then GroupTable(t.lists[k := []], t.order + [k]) else t;
      t'.(lists := t'.lists[k := t'.lists[k] + [it]])
  }

  function GroupTableUpTo(key: Item -> string, items: seq<Option<Item>>, m: nat): GroupTable
    requires m <= |items|
  {
    if m == 0 then GroupTable(map[], []) else GroupStep(key, GroupTableUpTo(key, items, m - 1), items[m - 1])
  }

  /** `dict.Where(kv => kv.Value.Count > 1).Select(kv => new DuplicateGroup { ... })`. */
  function SelectGroups(lists: map<string, seq<Item>>, order: seq<string>): seq<DuplicateGroup>
    decreases |order|
  {
    if |order| == 0 then []
    else
      var k := order[0];
      (if k in lists && |lists[k]| > 1 then [DuplicateGroup(k, lists[k])] else []) + SelectGroups(lists, order[1..])
  }

  /** Reference definition: for each key in `keys`, the records sharing it when there are two or more. */
  function GroupsOf(key: Item -> string, items: seq<Option<Item>>, keys: seq<string>): seq<DuplicateGroup>
    decreases |keys|
  {
    if |keys| == 0 then []
    else
      var g := ItemsWithKey(key, items, keys[0], |items|);
      (if |g| > 1 then [DuplicateGroup(keys[0], g)] else []) + GroupsOf(key, items, keys[1..])
  }

  /** One record joins the end of its key's list, a new key joins the end of the order, and other lists stay. */
  lemma GroupStepFacts(key: Item -> string, t: GroupTable, it: Item)
    ensures var t', k := GroupStep(key, t, Some(it)), key(it);
            && t'.lists.Keys == t.lists.Keys + {k}
            && t'.order == (if k in t.lists then t.order else t.order + [k])
            && t'.lists[k] == (if k in t.lists then t.lists[k] else []) + [it]
            && forall k2 :: k2 in t.lists && k2 != k ==> t'.lists[k2] == t.lists[k2]
  {
  }

  /** The loop's key order is the first-seen key order. */
  lemma {:induction false} GroupTableOrder(key: Item -> string, items: seq<Option<Item>>, m: nat)
    requires m <= |items|
    ensures GroupTableUpTo(key, items, m).order == KeyOrder(key, items, m)
    ensures GroupTableUpTo(key, items, m).lists.Keys == KeySet(key, items, m)
  {
    if m > 0 {
      GroupTableOrder(key, items, m - 1);
      if items[m - 1].Some? {
        KeyOrderMembers(key, items, m - 1);
        GroupStepFacts(key, GroupTableUpTo(key, items, m - 1), items[m - 1].value);
      }
    }
  }

  /** The loop collects, for every key, all records with that key in vault order. */
  lemma {:induction false} GroupTableLists(key: Item -> string, items: seq<Option<Item>>, m: nat)
    requires m <= |items|
    ensures var t := GroupTableUpTo(key, items, m);
            forall k :: k in t.lists ==> t.lists[k] == ItemsWithKey(key, items, k, m)
  {
    if m > 0 {
      GroupTableLists(key, items, m - 1);
      if items[m - 1].Some? {
        var it := items[m - 1].value;
        var t := GroupTableUpTo(key, items, m);
        GroupTableOrder(key, items, m - 1);
        ItemsWithKeyNoKey(key, items, m - 1);
        GroupStepFacts(key, GroupTableUpTo(key, items, m - 1), it);
        forall k | k in t.lists ensures t.lists[k] == ItemsWithKey(key, items, k, m) {
          assert ItemsWithKey(key, items, k, m)
                 == ItemsWithKey(key, items, k, m - 1) + (if key(it) == k then [it] else []);
        }
      }
    }
  }

  /** The loop collects, for every key in first-seen order, all records with that key. */
  lemma GroupTableSpec(key: Item -> string, items: seq<Option<Item>>, m: nat)
    requires m <= |items|
    ensures var t := GroupTableUpTo(key, items, m);
            && t.order == KeyOrder(key, items, m)
            && t.lists.Keys == KeySet(key, items, m)
            && forall k :: k in t.lists ==> t.lists[k] == ItemsWithKey(key, items, k, m)
  {
    GroupTableOrder(key, items, m);
    GroupTableLists(key, items, m);
  }

  /** A key that no record has collects no records. */
  lemma {:induction false} ItemsWithKeyNoKey(key: Item -> string, items: seq<Option<Item>>, m: nat)
    requires m <= |items|
    ensures forall k :: k !in KeySet(key, items, m) ==> ItemsWithKey(key, items, k, m) == []
  {
    forall k | k !in KeySet(key, items, m) ensures ItemsWithKey(key, items, k, m) == [] {
      ItemsWithKeyNonEmpty(key, items, k, m);
    }
  }

  lemma {:induction false} SelectGroupsIsReference(key: Item -> string, items: seq<Option<Item>>, lists: map<string, seq<Item>>, order: seq<string>)
    requires forall k :: k in order ==> k in lists && lists[k] == ItemsWithKey(key, items, k, |items|)
    ensures SelectGroups(lists, order) == GroupsOf(key, items, order)
    decreases |order|
  {
    if |order| > 0 {
      SelectGroupsIsReference(key, items, lists, order[1..]);
    }
  }

  /** The duplicate groups of a record list. */
  function DuplicateGroupsOf(key: Item -> string, items: seq<Option<Item>>): seq<DuplicateGroup> {
    GroupsOf(key, items, KeyOrder(key, items, |items|))
  }

  /** `FindDuplicateGroups(vault)`; a null vault has no groups. */
  method FindDuplicateGroups(vault: Vault?) returns (groups: seq<DuplicateGroup>)
    ensures vault == null ==> groups == []
    ensures vault != null ==> groups == DuplicateGroupsOf(ItemKey, vault.items)
  {
    if vault == null {
      return [];
    }
    var items := vault.items;
    var dict: map<string, seq<Item>> := map[];
    var order: seq<string> := [];
    var i := 0;
    while i < |items|
      invariant 0 <= i <= |items|
      invariant GroupTable(dict, order) == GroupTableUpTo(ItemKey, items, i)
    {
      assert GroupTableUpTo(ItemKey, items, i + 1) == GroupStep(ItemKey, GroupTable(dict, order), items[i]);
      if items[i].Some? {
        var item := items[i].value;
        var key := ItemKey(item);
        if key !in dict {
          dict := dict[key := []];
          order := order + [key];
        }
        dict := dict[key := dict[key] + [item]];
      }
      i := i + 1;
    }
    GroupTableSpec(ItemKey, items, |items|);
    KeyOrderDistinct(ItemKey, items, |items|);
    SelectGroupsIsReference(ItemKey, items, dict, order);
    groups := SelectGroups(dict, order);
  }

  // ---------------------------------------------------------------------------
  // Properties of the groups
  // ---------------------------------------------------------------------------

  /** A group holds two or more records, and exactly the records with its key, in vault order. */
  predicate WellFormed(key: Item -> string, items: seq<Option<Item>>, g: DuplicateGroup) {
    |g.items| >= 2 && g.items == ItemsWithKey(key, items, g.key, |items|)
  }

  /** Every group built from `keys` is well formed. */
  lemma {:induction false} GroupsOfShape(key: Item -> string, items: seq<Option<Item>>, keys: seq<string>)
    ensures forall g :: g in GroupsOf(key, items, keys) ==> WellFormed(key, items, g)
    decreases |keys|
  {
    if |keys| > 0 {
      GroupsOfShape(key, items, keys[1..]);
    }
  }

  /** A key of `keys` shared by two or more records has a group. */
  lemma {:induction false} GroupsOfComplete(key: Item -> string, items: seq<Option<Item>>, keys: seq<string>, k: string)
    requires k in keys && |ItemsWithKey(key, items, k, |items|)| >= 2
    ensures exists i :: 0 <= i < |GroupsOf(key, items, keys)| && GroupsOf(key, items, keys)[i].key == k
    decreases |keys|
  {
    var gs := GroupsOf(key, items, keys);
    if keys[0] == k {
      assert gs[0].key == k;
    } else {
      GroupsOfComplete(key, items, keys[1..], k);
      var rest := GroupsOf(key, items, keys[1..]);
      var i :| 0 <= i < |rest| && rest[i].key == k;
      var head := gs[..|gs| - |rest|];
      assert gs == head + rest;
      assert gs[|head| + i] == rest[i];
    }
  }

  /** The keys of `keys` that two or more records share. */
  function SharedKeys(key: Item -> string, items: seq<Option<Item>>, keys: seq<string>): (r: seq<string>)
    ensures forall k :: k in r ==> k in keys
    decreases |keys|
  {
    if |keys| == 0 then []
    else (if |ItemsWithKey(key, items, keys[0], |items|)| > 1 then [keys[0]] else []) + SharedKeys(key, items, keys[1..])
  }

  /** The group keys, in order, are the shared keys of `keys`. */
  lemma {:induction false} GroupKeysAreShared(key: Item -> string, items: seq<Option<Item>>, keys: seq<string>)
    ensures var gs, sk := GroupsOf(key, items, keys), SharedKeys(key, items, keys);
            |gs| == |sk| && forall i :: 0 <= i < |gs| ==> gs[i].key == sk[i]
    decreases |keys|
  {
    if |keys| > 0 {
      GroupKeysAreShared(key, items, keys[1..]);
    }
  }

  /** No key occurs twice. */
  predicate Distinct(s: seq<string>) {
    forall a, b :: 0 <= a < b < |s| ==> s[a] != s[b]
  }

  lemma DistinctTail(s: seq<string>)
    requires |s| > 0 && Distinct(s)
    ensures Distinct(s[1..]) && s[0] !in s[1..]
  {
    var tail := s[1..];
    forall a, b | 0 <= a < b < |tail| ensures tail[a] != tail[b] {
      assert tail[a] == s[a + 1] && tail[b] == s[b + 1];
    }
    forall a | 0 <= a < |tail| ensures tail[a] != s[0] {
      assert tail[a] == s[a + 1];
    }
  }

  lemma DistinctCons(k: string, s: seq<string>)
    requires Distinct(s) && k !in s
    ensures Distinct([k] + s)
  {
    var r := [k] + s;
    forall a, b | 0 <= a < b < |r| ensures r[a] != r[b] {
      assert r[b] == s[b - 1];
      if a > 0 {
        assert r[a] == s[a - 1];
      }
    }
  }

  /** Dropping keys from a list without repetitions leaves a list without repetitions. */
  lemma {:induction false} SharedKeysDistinct(key: Item -> string, items: seq<Option<Item>>, keys: seq<string>)
    requires Distinct(keys)
    ensures Distinct(SharedKeys(key, items, keys))
    decreases |keys|
  {
    if |keys| > 0 {
      DistinctTail(keys);
      SharedKeysDistinct(key, items, keys[1..]);
      if |ItemsWithKey(key, items, keys[0], |items|)| > 1 {
        DistinctCons(keys[0], SharedKeys(key, items, keys[1..]));
      }
    }
  }

  /**
   * The duplicate groups of a vault: each has at least two records sharing its key,
   * in vault order; the group keys are the keys shared by two or more records, in
   * first-seen order and each once; and no record is in two groups.
   */
  lemma DuplicateGroupsFacts(key: Item -> string, items: seq<Option<Item>>)
    ensures var gs, ko := DuplicateGroupsOf(key, items), KeyOrder(key, items, |items|);
            && (forall i :: 0 <= i < |gs| ==>
                  |gs[i].items| >= 2
                  && gs[i].items == ItemsWithKey(key, items, gs[i].key, |items|)
                  && forall x :: x in gs[i].items ==> key(x) == gs[i].key)
            && |gs| == |SharedKeys(key, items, ko)|
            && (forall i :: 0 <= i < |gs| ==> gs[i].key == SharedKeys(key, items, ko)[i])
            && (forall i, j :: 0 <= i < j < |gs| ==> gs[i].key != gs[j].key)
            && (forall i, j, x :: 0 <= i < |gs| && 0 <= j < |gs| && x in gs[i].items && x in gs[j].items ==> i == j)
            && (forall k :: k in KeySet(key, items, |items|) && |ItemsWithKey(key, items, k, |items|)| >= 2 ==>
                  exists i :: 0 <= i < |gs| && gs[i].key == k)
  {
    var gs, ko := DuplicateGroupsOf(key, items), KeyOrder(key, items, |items|);
    KeyOrderDistinct(key, items, |items|);
    GroupsOfShape(key, items, ko);
    GroupKeysAreShared(key, items, ko);
    SharedKeysDistinct(key, items, ko);
    var sk := SharedKeys(key, items, ko);
    assert Distinct(sk);
    forall i | 0 <= i < |gs| ensures WellFormed(key, items, gs[i]) {
      assert gs[i] in gs;
    }
    forall i, j, x | 0 <= i < |gs| && 0 <= j < |gs| && x in gs[i].items && x in gs[j].items
      ensures i == j
    {
      assert gs[i].items == ItemsWithKey(key, items, gs[i].key, |items|);
      assert gs[j].items == ItemsWithKey(key, items, gs[j].key, |items|);
      assert key(x) == gs[i].key && key(x) == gs[j].key;
      assert sk[i] == sk[j];
    }
    forall k | k in KeySet(key, items, |items|) && |ItemsWithKey(key, items, k, |items|)| >= 2
      ensures exists i :: 0 <= i < |gs| && gs[i].key == k
    {
      assert k in ko;
      GroupsOfComplete(key, items, ko, k);
    }
  }

  /** Two records with no name, type 0 and no login form one duplicate group under the key `|0`. */
  lemma NamelessRecordsGrouped(x: Item, y: Item)
    requires x.name.GetOr("") == "" && x.itemType == 0 && x.login.None?
    requires y.name.GetOr("") == "" && y.itemType == 0 && y.login.None?
    ensures DuplicateGroupsOf(ItemKey, [Some(x), Some(y)]) == [DuplicateGroup("|0", [x, y])]
  {
    NamelessKey(x);
    NamelessKey(y);
    var items := [Some(x), Some(y)];
    assert KeyOrder(ItemKey, items, 1) == ["|0"];
    assert KeyOrder(ItemKey, items, 2) == ["|0"];
    assert ItemsWithKey(ItemKey, items, "|0", 1) == [x];
    assert ItemsWithKey(ItemKey, items, "|0", 2) == [x, y];
    assert GroupsOf(ItemKey, items, ["|0"]) == [DuplicateGroup("|0", [x, y])] + GroupsOf(ItemKey, items, []);
  }
}
