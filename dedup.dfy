/**
 * `Deduplicator.Deduplicate`: folders are reconciled (FolderReconciler), then the
 * records are grouped by composite key; a repeated key is resolved either by
 * keeping the latest record or by merging into the latest one, and the survivors
 * are ordered newest first.
 *
 * `uniqueItems` is a `Dictionary<string, Item?>` without removals: overwriting a
 * key keeps its position, so its values come out in first-key order. It is
 * modelled as a `map` plus the list of keys in insertion order.
 */
module Deduplicator {
  import opened Wrappers
  import opened Text
  import opened VaultModel
  import opened CompositeKey
  import opened RecordMerger
  import opened FolderReconciler

  /** `RevisionDate ?? DateTime.MinValue`. */
  function Rev(it: Item): Date {
    DateValue(it.revisionDate)
  }

  /** `CreationDate ?? DateTime.MinValue`. */
  function Created(it: Item): Date {
    DateValue(it.creationDate)
  }

  /** The folder-id rewrite: a non-blank `FolderId` found in the id table is replaced by its entry. */
  function Remap(idMap: map<string, string>, it: Item): (r: Item)
    ensures r == it.(folderId := r.folderId)
    ensures !IsBlank(it.folderId) && it.folderId.value in idMap ==> r.folderId == Some(idMap[it.folderId.value])
    ensures IsBlank(it.folderId) || it.folderId.value !in idMap ==> r == it
  {
    if !IsBlank(it.folderId) && it.folderId.value in idMap then it.(folderId := Some(idMap[it.folderId.value])) else it
  }

  /**
   * A repeated key: `existing` is the stored record, `it` the one just read. The
   * incoming record wins only when strictly newer; in merge mode the winner is
   * the base and the other record is merged into it. Only a winning incoming
   * record has its folder id rewritten.
   */
  function Resolve(mergeMode: bool, idMap: map<string, string>, existing: Item, it: Item): (r: Item)
    ensures Rev(it) > Rev(existing) ==> r.id == it.id && r.revisionDate == it.revisionDate
    ensures Rev(it) <= Rev(existing) ==> r.id == existing.id && r.revisionDate == existing.revisionDate
    ensures mergeMode ==> r.favorite == (existing.favorite || it.favorite)
    ensures !mergeMode ==> r == existing || r == Remap(idMap, it)
  {
    if mergeMode then
      if Rev(it) > Rev(existing) then MergeInto(Remap(idMap, it), existing) else MergeInto(existing, it)
    else if Rev(it) > Rev(existing) then Remap(idMap, it)
    else existing
  }

  /** `uniqueItems` with its keys in insertion order. */
  datatype ItemTable = ItemTable(entries: map<string, Item>, order: seq<string>)

  /** One iteration of the record loop. */
  function ItemStep(mergeMode: bool, idMap: map<string, string>, key: Item -> string, t: ItemTable, oi: Option<Item>): ItemTable {
    match oi
    case None => t
    case Some(it) =>
      var k := key(it);
      if k !in t.entries then ItemTable(t.entries[k := Remap(idMap, it)], t.order + [k])
      else t.(entries := t.entries[k := Resolve(mergeMode, idMap, t.entries[k], it)])
  }

  /** The table after the first `m` records. */
  function ItemTableUpTo(mergeMode: bool, idMap: map<string, string>, key: Item -> string, items: seq<Option<Item>>, m: nat): ItemTable
    requires m <= |items|
  {
    if m == 0 then ItemTable(map[], []) else ItemStep(mergeMode, idMap, key, ItemTableUpTo(mergeMode, idMap, key, items, m - 1), items[m - 1])
  }

  // ---------------------------------------------------------------------------
  // The survivor of one key
  // ---------------------------------------------------------------------------

  /**
   * Reference survivor: the records sharing a key, resolved from first to last. In
   * either mode it carries the id and revision date of the first record with the
   * greatest revision date.
   */
  function Survivor(mergeMode: bool, idMap: map<string, string>, group: seq<Item>): (r: Item)
    requires |group| > 0
    ensures r.id == group[FirstLatest(group)].id && r.revisionDate == group[FirstLatest(group)].revisionDate
    decreases |group|
  {
    if |group| == 1 then Remap(idMap, group[0])
    else
      assert group[..|group| - 1][FirstLatest(group[..|group| - 1])] == group[FirstLatest(group[..|group| - 1])];
      Resolve(mergeMode, idMap, Survivor(mergeMode, idMap, group[..|group| - 1]), group[|group| - 1])
  }

  /** The first record with the greatest revision date (absent counting as the minimum). */
  function FirstLatest(group: seq<Item>): (r: nat)
    requires |group| > 0
    ensures r < |group|
    ensures forall j :: 0 <= j < |group| ==> Rev(group[j]) <= Rev(group[r])
    ensures forall j :: 0 <= j < r ==> Rev(group[j]) < Rev(group[r])
    decreases |group|
  {
    if |group| == 1 then 0
    else
      var n := |group| - 1;
      var i := FirstLatest(group[..n]);
      if Rev(group[n]) > Rev(group[i]) then n else i
  }

  /**
   * Latest-wins mode: the survivor of a key is the first record with the greatest
   * revision date, unchanged except for its folder id rewritten through the table.
   */
  lemma {:induction false} LatestWinsSurvivor(idMap: map<string, string>, group: seq<Item>)
    requires |group| > 0
    ensures Survivor(false, idMap, group) == Remap(idMap, group[FirstLatest(group)])
    decreases |group|
  {
    if |group| > 1 {
      LatestWinsSurvivor(idMap, group[..|group| - 1]);
    }
  }

  /** Some record of the list is a favourite, folded from the left like `Survivor`. */
  function AnyFavorite(group: seq<Item>): bool
    decreases |group|
  {
    if |group| == 0 then false else AnyFavorite(group[..|group| - 1]) || group[|group| - 1].favorite
  }

  lemma {:induction false} AnyFavoriteExists(group: seq<Item>)
    ensures AnyFavorite(group) <==> exists x :: x in group && x.favorite
    decreases |group|
  {
    if |group| > 0 {
      var n := |group| - 1;
      var pre, x := group[..n], group[n];
      AnyFavoriteExists(pre);
      assert group == pre + [x];
      if exists y :: y in group && y.favorite {
        var y :| y in group && y.favorite;
        if y != x {
          assert y in pre;
        }
      }
    }
  }

  lemma {:induction false} MergeSurvivorAnyFavorite(idMap: map<string, string>, group: seq<Item>)
    requires |group| > 0
    ensures Survivor(true, idMap, group).favorite == AnyFavorite(group)
    decreases |group|
  {
    if |group| > 1 {
      var n := |group| - 1;
      MergeSurvivorAnyFavorite(idMap, group[..n]);
    } else {
      assert group[..0] == [];
    }
  }

  /** Merge mode: the survivor is a favourite exactly when some record sharing its key is. */
  lemma MergeSurvivorFavorite(idMap: map<string, string>, group: seq<Item>)
    requires |group| > 0
    ensures Survivor(true, idMap, group).favorite <==> exists x :: x in group && x.favorite
  {
    MergeSurvivorAnyFavorite(idMap, group);
    AnyFavoriteExists(group);
  }

  /** Resolving never changes the key in latest-wins mode: a folder id is not part of it. */
  lemma {:induction false} LatestWinsKeepsKey(idMap: map<string, string>, group: seq<Item>, k: string)
    requires |group| > 0 && forall x :: x in group ==> ItemKey(x) == k
    ensures ItemKey(Survivor(false, idMap, group)) == k
  {
    LatestWinsSurvivor(idMap, group);
    var it := group[FirstLatest(group)];
    assert it in group;
    assert KeyParts(Remap(idMap, it)) == KeyParts(it);
  }

  // ---------------------------------------------------------------------------
  // The record loop against the reference
  // ---------------------------------------------------------------------------

  /** After the first `m` records the table holds the distinct keys, in first-seen order. */
  lemma {:induction false} ItemTableKeys(mergeMode: bool, idMap: map<string, string>, key: Item -> string, items: seq<Option<Item>>, m: nat)
    requires m <= |items|
    ensures var t := ItemTableUpTo(mergeMode, idMap, key, items, m);
            t.order == KeyOrder(key, items, m) && t.entries.Keys == KeySet(key, items, m)
  {
    if m > 0 {
      ItemTableKeys(mergeMode, idMap, key, items, m - 1);
      if items[m - 1].Some? {
        KeyOrderMembers(key, items, m - 1);
        ItemStepKeys(mergeMode, idMap, key, ItemTableUpTo(mergeMode, idMap, key, items, m - 1), items[m - 1].value);
      }
    }
  }

  /** One record adds its key to the table, at the end of the key order when it is new. */
  lemma ItemStepKeys(mergeMode: bool, idMap: map<string, string>, key: Item -> string, t: ItemTable, it: Item)
    ensures var t', k := ItemStep(mergeMode, idMap, key, t, Some(it)), key(it);
            && t'.entries.Keys == t.entries.Keys + {k}
            && t'.order == if k in t.entries then t.order else t.order + [k]
  {
  }

  /** A record with another key, or a null entry, leaves the entry of `k` as it is. */
  lemma ItemStepOther(mergeMode: bool, idMap: map<string, string>, key: Item -> string, t: ItemTable, oi: Option<Item>, k: string)
    requires oi.None? || key(oi.value) != k
    ensures var t' := ItemStep(mergeMode, idMap, key, t, oi);
            && (k in t'.entries <==> k in t.entries)
            && (k in t.entries ==> t'.entries[k] == t.entries[k])
  {
  }

  /** After the first `m` records the entry of `k` is the survivor of the records with key `k`. */
  lemma {:induction false} ItemTableEntryAt(mergeMode: bool, idMap: map<string, string>, key: Item -> string,
                                            items: seq<Option<Item>>, m: nat, k: string)
    requires m <= |items| && k in ItemTableUpTo(mergeMode, idMap, key, items, m).entries
    ensures |ItemsWithKey(key, items, k, m)| > 0
    ensures ItemTableUpTo(mergeMode, idMap, key, items, m).entries[k] == Survivor(mergeMode, idMap, ItemsWithKey(key, items, k, m))
  {
    if m == 0 {
      assert false;
    } else {
      var prev := ItemTableUpTo(mergeMode, idMap, key, items, m - 1);
      var g := ItemsWithKey(key, items, k, m - 1);
      if items[m - 1].Some? && key(items[m - 1].value) == k {
        var it := items[m - 1].value;
        assert ItemsWithKey(key, items, k, m) == g + [it];
        if k in prev.entries {
          ItemTableEntryAt(mergeMode, idMap, key, items, m - 1, k);
          EntryExisting(mergeMode, idMap, key, prev, it, g);
        } else {
          ItemTableKeys(mergeMode, idMap, key, items, m - 1);
          ItemsWithKeyNonEmpty(key, items, k, m - 1);
          assert g + [it] == [it];
        }
      } else {
        ItemStepOther(mergeMode, idMap, key, prev, items[m - 1], k);
        ItemTableEntryAt(mergeMode, idMap, key, items, m - 1, k);
        assert ItemsWithKey(key, items, k, m) == g;
      }
    }
  }

  /** After the first `m` records the table maps each key to the survivor of the records sharing it. */
  lemma ItemTableEntries(mergeMode: bool, idMap: map<string, string>, key: Item -> string, items: seq<Option<Item>>, m: nat)
    requires m <= |items|
    ensures var t := ItemTableUpTo(mergeMode, idMap, key, items, m);
            forall k :: k in t.entries ==>
              |ItemsWithKey(key, items, k, m)| > 0 && t.entries[k] == Survivor(mergeMode, idMap, ItemsWithKey(key, items, k, m))
  {
    forall k | k in ItemTableUpTo(mergeMode, idMap, key, items, m).entries
      ensures |ItemsWithKey(key, items, k, m)| > 0
      ensures ItemTableUpTo(mergeMode, idMap, key, items, m).entries[k] == Survivor(mergeMode, idMap, ItemsWithKey(key, items, k, m))
    {
      ItemTableEntryAt(mergeMode, idMap, key, items, m, k);
    }
  }

  lemma EntryExisting(mergeMode: bool, idMap: map<string, string>, key: Item -> string, prev: ItemTable, it: Item, g: seq<Item>)
    requires |g| > 0 && key(it) in prev.entries && prev.entries[key(it)] == Survivor(mergeMode, idMap, g)
    ensures ItemStep(mergeMode, idMap, key, prev, Some(it)).entries[key(it)] == Survivor(mergeMode, idMap, g + [it])
  {
    assert (g + [it])[..|g|] == g;
  }

  /** `uniqueItems.Values`: the stored records in key order. */
  function ValuesOf(entries: map<string, Item>, order: seq<string>): (r: seq<Item>)
    ensures (forall k :: k in order ==> k in entries) ==> |r| == |order|
    ensures (forall k :: k in order ==> k in entries) ==> forall j :: 0 <= j < |order| ==> r[j] == entries[order[j]]
    decreases |order|
  {
    if |order| == 0 then []
    else (if order[0] in entries then [entries[order[0]]] else []) + ValuesOf(entries, order[1..])
  }

  /**
   * The `else` branch of the record loop: `existing` is stored under the key of
   * `it`. The record kept is the stored one again when it is not older (storing it
   * again changes nothing).
   */
  method ResolveDuplicate(mergeMode: bool, idMapping: map<string, string>, existing: Item, it: Item)
    returns (kept: Item)
    ensures kept == Resolve(mergeMode, idMapping, existing, it)
  {
    var existingRev := DateValue(existing.revisionDate);
    var incomingRev := DateValue(it.revisionDate);
    kept := existing;
    if mergeMode {
      var latest, older := existing, it;
      if incomingRev > existingRev {
        latest, older := it, existing;
        var fid := latest.folderId;
        if !IsBlank(fid) && fid.value in idMapping {
          latest := latest.(folderId := Some(idMapping[fid.value]));
        }
      }
      kept := MergeInto(latest, older);
    } else if incomingRev > existingRev {
      kept := it;
      var fid := it.folderId;
      if !IsBlank(fid) && fid.value in idMapping {
        kept := it.(folderId := Some(idMapping[fid.value]));
      }
    }
  }

  /**
   * The record pass of `Deduplicate` (the loop over `vault.Items`): returns the
   * survivor table and its keys in first-seen order.
   */
  method GroupItems(items: seq<Option<Item>>, mergeMode: bool, idMapping: map<string, string>)
    returns (uniqueItems: map<string, Item>, keyOrder: seq<string>)
    ensures ItemTable(uniqueItems, keyOrder) == ItemTableUpTo(mergeMode, idMapping, ItemKey, items, |items|)
    ensures keyOrder == KeyOrder(ItemKey, items, |items|)
    ensures uniqueItems.Keys == KeySet(ItemKey, items, |items|)
    ensures forall k :: k in uniqueItems ==>
              |ItemsWithKey(ItemKey, items, k, |items|)| > 0
              && uniqueItems[k] == Survivor(mergeMode, idMapping, ItemsWithKey(ItemKey, items, k, |items|))
  {
    uniqueItems := map[];
    keyOrder := [];
    var i := 0;
    while i < |items|
      invariant 0 <= i <= |items|
      invariant ItemTable(uniqueItems, keyOrder) == ItemTableUpTo(mergeMode, idMapping, ItemKey, items, i)
    {
      assert ItemTableUpTo(mergeMode, idMapping, ItemKey, items, i + 1)
             == ItemStep(mergeMode, idMapping, ItemKey, ItemTable(uniqueItems, keyOrder), items[i]);
      if items[i].Some? {
        var it := items[i].value;
        var key := ItemKey(it);
        if key !in uniqueItems {
          var fid := it.folderId;
          if !IsBlank(fid) && fid.value in idMapping {
            it := it.(folderId := Some(idMapping[fid.value]));
          }
          assert it == Remap(idMapping, items[i].value);
          uniqueItems := uniqueItems[key := it];
          keyOrder := keyOrder + [key];
        } else {
          var kept := ResolveDuplicate(mergeMode, idMapping, uniqueItems[key], it);
          uniqueItems := uniqueItems[key := kept];
        }
      }
      i := i + 1;
    }
    ItemTableKeys(mergeMode, idMapping, ItemKey, items, |items|);
    ItemTableEntries(mergeMode, idMapping, ItemKey, items, |items|);
  }

  // ---------------------------------------------------------------------------
  // Ordering: OrderByDescending(revision).ThenByDescending(creation), stable
  // ---------------------------------------------------------------------------

  /** `a` may come before `b`: its (revision, creation) pair is at least `b`'s. */
  predicate RanksAtLeast(a: Item, b: Item) {
    Rev(a) > Rev(b) || (Rev(a) == Rev(b) && Created(a) >= Created(b))
  }

  function RankOf(it: Item): (Date, Date) {
    (Rev(it), Created(it))
  }

  /** Places `x` before the first element it ranks at least as high as. */
  function InsertByRecency(x: Item, s: seq<Item>): seq<Item>
    decreases |s|
  {
    if |s| == 0 || RanksAtLeast(x, s[0]) then [x] + s else [s[0]] + InsertByRecency(x, s[1..])
  }

  /** The LINQ ordering as a stable insertion sort. */
  function SortByRecency(s: seq<Item>): seq<Item>
    decreases |s|
  {
    if |s| == 0 then [] else InsertByRecency(s[0], SortByRecency(s[1..]))
  }

  predicate NewestFirst(s: seq<Item>) {
    forall i, j :: 0 <= i < j < |s| ==> RanksAtLeast(s[i], s[j])
  }

  /** The elements of `s` of rank `rk`, in order. */
  function WithRank(s: seq<Item>, rk: (Date, Date)): seq<Item>
    decreases |s|
  {
    if |s| == 0 then [] else (if RankOf(s[0]) == rk then [s[0]] else []) + WithRank(s[1..], rk)
  }

  /** The tail of a newest-first list is newest first, and its head ranks at least every element. */
  lemma NewestFirstTail(s: seq<Item>)
    requires |s| > 0 && NewestFirst(s)
    ensures NewestFirst(s[1..])
    ensures forall z :: z in s ==> RanksAtLeast(s[0], z)
  {
    var t := s[1..];
    forall i, j | 0 <= i < j < |t| ensures RanksAtLeast(t[i], t[j]) {
      assert t[i] == s[i + 1] && t[j] == s[j + 1];
    }
  }

  /** A record ranking at least every element of a newest-first list can go in front of it. */
  lemma NewestFirstCons(y: Item, t: seq<Item>)
    requires NewestFirst(t) && forall z :: z in t ==> RanksAtLeast(y, z)
    ensures NewestFirst([y] + t)
  {
    var r := [y] + t;
    forall i, j | 0 <= i < j < |r| ensures RanksAtLeast(r[i], r[j]) {
      assert r[j] == t[j - 1];
      if i > 0 {
        assert r[i] == t[i - 1];
      } else {
        assert t[j - 1] in t;
      }
    }
  }

  /** Inserting adds the record once and keeps a newest-first list newest first. */
  lemma {:induction false} InsertByRecencyFacts(x: Item, s: seq<Item>)
    requires NewestFirst(s)
    ensures multiset(InsertByRecency(x, s)) == multiset(s) + multiset{x}
    ensures NewestFirst(InsertByRecency(x, s))
    decreases |s|
  {
    if |s| == 0 {
      NewestFirstCons(x, s);
    } else {
      NewestFirstTail(s);
      assert s == [s[0]] + s[1..];
      if RanksAtLeast(x, s[0]) {
        NewestFirstCons(x, s);
      } else {
        var rest := InsertByRecency(x, s[1..]);
        InsertByRecencyFacts(x, s[1..]);
        forall z | z in rest ensures RanksAtLeast(s[0], z) {
          assert z in multiset(rest);
          if z != x {
            assert z in multiset(s[1..]);
            assert z in s;
          }
        }
        NewestFirstCons(s[0], rest);
      }
    }
  }

  /** The ordering is non-increasing in (revision, creation) and a permutation of its input. */
  lemma {:induction false} SortByRecencyFacts(s: seq<Item>)
    ensures NewestFirst(SortByRecency(s))
    ensures multiset(SortByRecency(s)) == multiset(s)
    decreases |s|
  {
    if |s| > 0 {
      SortByRecencyFacts(s[1..]);
      InsertByRecencyFacts(s[0], SortByRecency(s[1..]));
      assert s == [s[0]] + s[1..];
    }
  }

  lemma {:induction false} WithRankInsert(x: Item, s: seq<Item>, rk: (Date, Date))
    ensures WithRank(InsertByRecency(x, s), rk) == (if RankOf(x) == rk then [x] else []) + WithRank(s, rk)
    decreases |s|
  {
    if |s| > 0 && !RanksAtLeast(x, s[0]) {
      WithRankInsert(x, s[1..], rk);
      var r := [s[0]] + InsertByRecency(x, s[1..]);
      assert r[1..] == InsertByRecency(x, s[1..]);
    } else {
      var r := [x] + s;
      assert r[1..] == s;
    }
  }

  /** The ordering is stable: records of equal rank keep their relative order. */
  lemma {:induction false} SortByRecencyStable(s: seq<Item>, rk: (Date, Date))
    ensures WithRank(SortByRecency(s), rk) == WithRank(s, rk)
    decreases |s|
  {
    if |s| > 0 {
      SortByRecencyStable(s[1..], rk);
      WithRankInsert(s[0], SortByRecency(s[1..]), rk);
    }
  }

  // ---------------------------------------------------------------------------
  // The whole run
  // ---------------------------------------------------------------------------

  /** The counts reported by a run; the removed counts are derived, not stored. */
  datatype DeduplicationSummary = DeduplicationSummary(
    originalFolders: int, deduplicatedFolders: int, originalItems: int, deduplicatedItems: int)
  {
    function RemovedFolders(): int {
      originalFolders - deduplicatedFolders
    }

    function RemovedItems(): int {
      originalItems - deduplicatedItems
    }
  }

  /** The survivors in first-seen key order. */
  function Survivors(mergeMode: bool, idMap: map<string, string>, key: Item -> string, items: seq<Option<Item>>): seq<Item> {
    var t := ItemTableUpTo(mergeMode, idMap, key, items, |items|);
    ValuesOf(t.entries, t.order)
  }

  /** The records `Deduplicate` leaves in the vault. */
  function DeduplicatedItems(mergeMode: bool, folders: seq<Folder>, items: seq<Option<Item>>): seq<Item> {
    SortByRecency(Survivors(mergeMode, FolderTableUpTo(folders, |folders|).idMap, ItemKey, items))
  }

  /** The summary `Deduplicate` returns. */
  function Summary(mergeMode: bool, folders: seq<Folder>, items: seq<Option<Item>>): DeduplicationSummary {
    DeduplicationSummary(|folders|, |Kept(folders, |folders|)|, |items|, |DeduplicatedItems(mergeMode, folders, items)|)
  }

  /**
   * Survivor `j` belongs to the `j`-th distinct key and is the survivor of the
   * records sharing that key.
   */
  lemma SurvivorsSpec(mergeMode: bool, idMap: map<string, string>, key: Item -> string, items: seq<Option<Item>>)
    ensures var sv, ko := Survivors(mergeMode, idMap, key, items), KeyOrder(key, items, |items|);
            && |sv| == |ko|
            && forall j :: 0 <= j < |ko| ==>
                 |ItemsWithKey(key, items, ko[j], |items|)| > 0
                 && sv[j] == Survivor(mergeMode, idMap, ItemsWithKey(key, items, ko[j], |items|))
  {
    ItemTableKeys(mergeMode, idMap, key, items, |items|);
    ItemTableEntries(mergeMode, idMap, key, items, |items|);
    KeyOrderDistinct(key, items, |items|);
  }

  /**
   * The vault keeps one record per distinct composite key, so the removed count is
   * the number of records (null entries included) minus the number of distinct keys,
   * and neither removed count is negative.
   */
  lemma SummaryCounts(mergeMode: bool, folders: seq<Folder>, items: seq<Option<Item>>)
    ensures var s := Summary(mergeMode, folders, items);
            && s.deduplicatedItems == |KeySet(ItemKey, items, |items|)|
            && s.RemovedItems() == |items| - |KeySet(ItemKey, items, |items|)|
            && 0 <= s.RemovedItems() && 0 <= s.RemovedFolders()
  {
    var idMap := FolderTableUpTo(folders, |folders|).idMap;
    SurvivorsSpec(mergeMode, idMap, ItemKey, items);
    SortByRecencyFacts(Survivors(mergeMode, idMap, ItemKey, items));
    KeyOrderCounts(ItemKey, items, |items|);
    var sv := Survivors(mergeMode, idMap, ItemKey, items);
    assert |multiset(SortByRecency(sv))| == |multiset(sv)|;
  }

  /**
   * The vault's records come newest first, are a permutation of the survivors, and
   * survivors of equal (revision, creation) keep their first-seen key order.
   */
  lemma DeduplicatedOrder(mergeMode: bool, folders: seq<Folder>, items: seq<Option<Item>>, rk: (Date, Date))
    ensures var idMap := FolderTableUpTo(folders, |folders|).idMap;
            var out, sv := DeduplicatedItems(mergeMode, folders, items), Survivors(mergeMode, idMap, ItemKey, items);
            && NewestFirst(out)
            && multiset(out) == multiset(sv)
            && WithRank(out, rk) == WithRank(sv, rk)
  {
    var idMap := FolderTableUpTo(folders, |folders|).idMap;
    SortByRecencyFacts(Survivors(mergeMode, idMap, ItemKey, items));
    SortByRecencyStable(Survivors(mergeMode, idMap, ItemKey, items), rk);
  }

  /** In latest-wins mode no two remaining records share a key, so a second run removes nothing. */
  lemma LatestWinsKeysDistinct(folders: seq<Folder>, items: seq<Option<Item>>)
    ensures var out := DeduplicatedItems(false, folders, items);
            forall i, j :: 0 <= i < j < |out| ==> ItemKey(out[i]) != ItemKey(out[j])
  {
    var idMap := FolderTableUpTo(folders, |folders|).idMap;
    var sv := Survivors(false, idMap, ItemKey, items);
    LatestWinsSurvivorKeys(idMap, items);
    SortByRecencyFacts(sv);
    PermutationKeepsDistinct(sv, SortByRecency(sv), ItemKey);
  }

  /** In latest-wins mode the survivors have pairwise different keys. */
  lemma LatestWinsSurvivorKeys(idMap: map<string, string>, items: seq<Option<Item>>)
    ensures var sv := Survivors(false, idMap, ItemKey, items);
            forall i, j :: 0 <= i < j < |sv| ==> ItemKey(sv[i]) != ItemKey(sv[j])
  {
    var sv := Survivors(false, idMap, ItemKey, items);
    var ko := KeyOrder(ItemKey, items, |items|);
    SurvivorsSpec(false, idMap, ItemKey, items);
    KeyOrderNoRepeats(ItemKey, items, |items|);
    forall j | 0 <= j < |sv| ensures ItemKey(sv[j]) == ko[j] {
      LatestWinsKeepsKey(idMap, ItemsWithKey(ItemKey, items, ko[j], |items|), ko[j]);
    }
  }

  /** A list of records with pairwise different keys has as many keys as records. */
  lemma {:induction false} DistinctKeysCount(key: Item -> string, s: seq<Item>, m: nat)
    requires m <= |s|
    requires forall i, j :: 0 <= i < j < |s| ==> key(s[i]) != key(s[j])
    ensures |KeySet(key, Present(s), m)| == m
  {
    if m > 0 {
      DistinctKeysCount(key, s, m - 1);
      KeySetMembers(key, Present(s), m - 1, key(s[m - 1]));
    }
  }

  /**
   * A second latest-wins run on the output of the first removes nothing: the kept
   * folders already have distinct names and the remaining records distinct keys.
   */
  lemma LatestWinsSecondRun(folders: seq<Folder>, items: seq<Option<Item>>)
    ensures var kept, out := Kept(folders, |folders|), DeduplicatedItems(false, folders, items);
            var again := Summary(false, kept, Present(out));
            && again.deduplicatedFolders == |kept| && again.RemovedFolders() == 0
            && again.deduplicatedItems == |out| && again.RemovedItems() == 0
  {
    var kept, out := Kept(folders, |folders|), DeduplicatedItems(false, folders, items);
    KeptNamed(folders, |folders|);
    KeptDistinct(folders, |folders|);
    KeptAllDistinct(kept, |kept|);
    assert kept[..|kept|] == kept;
    LatestWinsKeysDistinct(folders, items);
    SummaryCounts(false, kept, Present(out));
    DistinctKeysCount(ItemKey, out, |out|);
  }

  /** A permutation of a list whose keys are pairwise different has pairwise different keys. */
  lemma PermutationKeepsDistinct<T>(sv: seq<T>, out: seq<T>, key: T -> string)
    requires multiset(out) == multiset(sv)
    requires forall i, j :: 0 <= i < j < |sv| ==> key(sv[i]) != key(sv[j])
    ensures forall i, j :: 0 <= i < j < |out| ==> key(out[i]) != key(out[j])
  {
    forall i, j | 0 <= i < j < |out| ensures key(out[i]) != key(out[j]) {
      assert out[i] in multiset(sv) && out[j] in multiset(sv);
      var a :| 0 <= a < |sv| && sv[a] == out[i];
      var b :| 0 <= b < |sv| && sv[b] == out[j];
      if a == b {
        // the same element twice in `out` would need it twice in `sv`
        forall c | 0 <= c < |sv| && c != a ensures sv[c] != sv[a] {
          if c < a {
            assert key(sv[c]) != key(sv[a]);
          } else {
            assert key(sv[a]) != key(sv[c]);
          }
        }
        MultiplicityOne(sv, a);
        TwoPositions(out, i, j);
      } else if a < b {
        assert key(sv[a]) != key(sv[b]);
      } else {
        assert key(sv[b]) != key(sv[a]);
      }
    }
  }

  lemma {:induction false} MultiplicityOne<T>(sv: seq<T>, a: nat)
    requires a < |sv|
    requires forall j :: 0 <= j < |sv| && j != a ==> sv[j] != sv[a]
    ensures multiset(sv)[sv[a]] == 1
  {
    var x := sv[a];
    assert sv == sv[..a] + [x] + sv[a + 1..];
    assert x !in sv[..a] by {
      forall k | 0 <= k < a ensures sv[..a][k] != x {
        assert sv[..a][k] == sv[k];
      }
    }
    var tail := sv[a + 1..];
    assert x !in tail by {
      forall k | 0 <= k < |tail| ensures tail[k] != x {
        assert tail[k] == sv[a + 1 + k];
      }
    }
    assert multiset(sv) == multiset(sv[..a]) + multiset{x} + multiset(sv[a + 1..]);
  }

  lemma TwoPositions<T>(s: seq<T>, i: nat, j: nat)
    requires i < j < |s| && s[i] == s[j]
    ensures multiset(s)[s[i]] >= 2
  {
    var x := s[i];
    assert s == s[..j] + [x] + s[j + 1..];
    assert s[..j] == s[..i] + [x] + s[i + 1..j];
    assert multiset(s) == multiset(s[..i]) + multiset{x} + multiset(s[i + 1..j]) + multiset{x} + multiset(s[j + 1..]);
  }

  /**
   * `Deduplicate(vault, mergeMode)`: replaces the vault's folders and records by the
   * deduplicated ones and returns the counts. The vault must not be null.
   */
  method Deduplicate(vault: Vault, mergeMode: bool) returns (summary: DeduplicationSummary)
    modifies vault
    ensures vault.folders == Kept(old(vault.folders), |old(vault.folders)|)
    ensures vault.items == Present(DeduplicatedItems(mergeMode, old(vault.folders), old(vault.items)))
    ensures summary == Summary(mergeMode, old(vault.folders), old(vault.items))
  {
    var folders, items := vault.folders, vault.items;
    summary := DeduplicationSummary(|folders|, 0, |items|, 0);
    var uniqueFolders, idMapping := ReconcileFolders(folders);
    vault.folders := uniqueFolders;
    summary := summary.(deduplicatedFolders := |vault.folders|);
    var uniqueItems, keyOrder := GroupItems(items, mergeMode, idMapping);
    vault.items := Present(SortByRecency(ValuesOf(uniqueItems, keyOrder)));
    summary := summary.(deduplicatedItems := |vault.items|);
  }

  /** Every record of a list, as the present entries of a nullable list. */
  function Present(s: seq<Item>): (r: seq<Option<Item>>)
    ensures |r| == |s| && forall j :: 0 <= j < |s| ==> r[j] == Some(s[j])
  {
    seq(|s|, j requires 0 <= j < |s| => Some(s[j]))
  }

  // ---------------------------------------------------------------------------
  // Folder ids of the survivors
  // ---------------------------------------------------------------------------

  /**
   * In latest-wins mode a survivor's folder id is the input record's own id, unless
   * that id is in the id table, in which case it is the table's entry.
   */
  lemma LatestWinsFolderId(idMap: map<string, string>, group: seq<Item>)
    requires |group| > 0
    ensures var s, src := Survivor(false, idMap, group), group[FirstLatest(group)];
            && (!IsBlank(src.folderId) && src.folderId.value in idMap ==> s.folderId == Some(idMap[src.folderId.value]))
            && (IsBlank(src.folderId) || src.folderId.value !in idMap ==> s.folderId == src.folderId)
  {
    LatestWinsSurvivor(idMap, group);
  }

  /**
   * In merge mode the older record is merged without rewriting its folder id: when
   * the latest record has no folder, the older record's folder id is taken over
   * as it is, whatever the id table says about it.
   */
  lemma MergeModeKeepsOlderFolderId(idMap: map<string, string>, latest: Item, older: Item)
    requires Rev(older) <= Rev(latest) && IsBlank(latest.folderId) && !IsBlank(older.folderId)
    ensures Survivor(true, idMap, [latest, older]).folderId == older.folderId
  {
    assert [latest, older][..1] == [latest];
    assert Remap(idMap, latest) == latest;
  }

  /** The id table of two folders whose names differ only in case maps both ids to the first. */
  lemma CaseDuplicateFolderTable()
    ensures FolderTableUpTo([Folder(Some("1"), Some("Work")), Folder(Some("2"), Some("work"))], 2).idMap
            == map["1" := "1", "2" := "1"]
  {
    var f0, f1 := Folder(Some("1"), Some("Work")), Folder(Some("2"), Some("work"));
    var folders := [f0, f1];
    assert !IsWhiteSpaceOnly("Work") by { NotBlankWitness("Work", 0); }
    assert !IsWhiteSpaceOnly("work") by { NotBlankWitness("work", 0); }
    assert !IsWhiteSpaceOnly("1") by { NotBlankWitness("1", 0); }
    assert !IsWhiteSpaceOnly("2") by { NotBlankWitness("2", 0); }
    assert NameKey(f0) == NameKey(f1) by {
      assert Fold("Work") == "WORK";
      assert Fold("work") == "WORK";
    }
    var t1 := FolderTable([f0], map["1" := "1"]);
    assert FolderTableUpTo(folders, 1) == t1 by {
      assert FolderTableUpTo(folders, 0) == FolderTable([], map[]);
      assert Lookup([], NameKey(f0)) == None;
    }
    assert Lookup(t1.kept, NameKey(f1)) == Some(f0) by {
      assert t1.kept[..0] == [];
    }
    assert FolderStep(t1, f1).idMap == map["1" := "1", "2" := "1"];
  }

  /**
   * A concrete vault: folder "2" duplicates folder "1" and is removed. Two records
   * share a key; the newer one has no folder and the older one is in folder "2".
   * In merge mode the survivor's folder id depends on the order the records are
   * read: the removed folder's id "2" when the newer record comes first, the
   * table's entry "1" when it comes second. In latest-wins mode, on the same
   * records in either order, the survivor is the newer record, with no folder.
   */
  lemma MergeModeKeepsUnmappedFolderId()
    ensures var folders := [Folder(Some("1"), Some("Work")), Folder(Some("2"), Some("work"))];
            var idMap := FolderTableUpTo(folders, 2).idMap;
            var latest := EmptyItem.(name := Some("n"), revisionDate := Some(5));
            var older := EmptyItem.(name := Some("n"), folderId := Some("2"), revisionDate := Some(1));
            && idMap == map["1" := "1", "2" := "1"]
            && Survivor(true, idMap, [latest, older]).folderId == Some("2")
            && Survivor(true, idMap, [older, latest]).folderId == Some("1")
            && Survivor(false, idMap, [latest, older]).folderId == None
            && Survivor(false, idMap, [older, latest]).folderId == None
  {
    CaseDuplicateFolderTable();
    var idMap := map["1" := "1", "2" := "1"];
    var latest := EmptyItem.(name := Some("n"), revisionDate := Some(5));
    var older := EmptyItem.(name := Some("n"), folderId := Some("2"), revisionDate := Some(1));
    assert !IsWhiteSpaceOnly("2") by { NotBlankWitness("2", 0); }
    assert !IsWhiteSpaceOnly("1") by { NotBlankWitness("1", 0); }
    MergeModeKeepsOlderFolderId(idMap, latest, older);
    assert Remap(idMap, latest) == latest;
    assert Remap(idMap, older).folderId == Some("1");
    assert [older, latest][..1] == [older];
    assert Survivor(true, idMap, [older, latest]) == MergeInto(latest, Remap(idMap, older));
    assert [latest, older][..1] == [latest];
    assert Survivor(false, idMap, [latest, older]) == latest;
    assert Survivor(false, idMap, [older, latest]) == latest;
  }

  /** A login with the given URI list and username, and no password or TOTP. */
  function LoginOf(uris: Option<seq<UriObj>>, username: Option<string>): Login {
    Login(uris, username, None, None)
  }

  /** A record named `n` whose login has the single URI `u` and no username. */
  function UriOnly(n: string, u: string): Item {
    EmptyItem.(name := Some(n), login := Some(LoginOf(Some([UriObj(None, Some(u))]), None)))
  }

  /** A record named `n` whose login has the username `u` and no URI list. */
  function UsernameOnly(n: string, u: string): Item {
    EmptyItem.(name := Some(n), login := Some(LoginOf(None, Some(u))))
  }

  /** A record named `n` whose login has the username `u` and the single URI `u`. */
  function UsernameAndUri(n: string, u: string): Item {
    EmptyItem.(name := Some(n), login := Some(LoginOf(Some([UriObj(None, Some(u))]), Some(u))))
  }

  /** The keys of the three records, and of the first two merged. */
  lemma ExampleKeys(n: string, u: string)
    requires !IsWhiteSpaceOnly(u)
    ensures ItemKey(UriOnly(n, u)) == Join("|", [n, "0", u])
    ensures ItemKey(UsernameOnly(n, u)) == Join("|", [n, "0", u])
    ensures ItemKey(UsernameAndUri(n, u)) == Join("|", [n, "0", u, u])
    ensures ItemKey(MergeInto(UriOnly(n, u), UsernameOnly(n, u))) == Join("|", [n, "0", u, u])
    ensures Join("|", [n, "0", u]) != Join("|", [n, "0", u, u])
  {
    var us := [UriObj(None, Some(u))];
    var a, b := UriOnly(n, u), UsernameOnly(n, u);
    assert IntToString(0) == "0";
    assert UriParts(us) == [u] by { assert UriParts(us[1..]) == []; }
    assert KeyParts(a) == [n, "0", u];
    assert KeyParts(b) == [n, "0", u];
    assert KeyParts(UsernameAndUri(n, u)) == [n, "0", u, u];
    MergeIntoLogin(a, b);
    assert NewEntries(us, [], UriKey) == [];
    assert us + [] == us;
    assert KeyParts(MergeInto(a, b)) == [n, "0", u, u];
    assert [n, "0", u][1..] == ["0", u] && ["0", u][1..] == [u];
    assert [n, "0", u, u][1..] == ["0", u, u] && ["0", u, u][1..] == [u, u] && [u, u][1..] == [u];
    assert Join("|", ["0", u]) == "0" + "|" + u;
    assert Join("|", ["0", u, u]) == "0" + "|" + Join("|", [u, u]);
    assert Join("|", [u, u]) == u + "|" + u;
    assert |Join("|", [n, "0", u])| == |n| + 3 + |u|;
    assert |Join("|", [n, "0", u, u])| == |n| + 4 + 2 * |u|;
  }

  /** Two records with the same key, the first at least as recent: merge mode merges the second into the first. */
  lemma TwoRecordSteps(key: Item -> string, idMap: map<string, string>, items: seq<Option<Item>>, a: Item, b: Item)
    requires |items| >= 2 && items[0] == Some(a) && items[1] == Some(b)
    requires key(a) == key(b) && Rev(b) <= Rev(a) && Remap(idMap, a) == a
    ensures ItemTableUpTo(true, idMap, key, items, 2) == ItemTable(map[key(a) := MergeInto(a, b)], [key(a)])
  {
    var t1 := ItemTable(map[key(a) := a], [key(a)]);
    assert ItemTableUpTo(true, idMap, key, items, 1) == t1 by {
      assert ItemTableUpTo(true, idMap, key, items, 1) == ItemStep(true, idMap, key, ItemTable(map[], []), Some(a));
    }
    assert ItemTableUpTo(true, idMap, key, items, 2) == ItemStep(true, idMap, key, t1, Some(b));
    assert Resolve(true, idMap, a, b) == MergeInto(a, b);
  }

  /** Three records where the first two share a key: merge mode merges the second into the first. */
  lemma ThreeRecordTable(key: Item -> string, idMap: map<string, string>, a: Item, b: Item, c: Item)
    requires key(a) == key(b) && key(c) != key(a)
    requires Rev(b) <= Rev(a) && Remap(idMap, a) == a && Remap(idMap, c) == c
    ensures Survivors(true, idMap, key, [Some(a), Some(b), Some(c)]) == [MergeInto(a, b), c]
  {
    var items := [Some(a), Some(b), Some(c)];
    TwoRecordSteps(key, idMap, items, a, b);
    var t2 := ItemTable(map[key(a) := MergeInto(a, b)], [key(a)]);
    assert ItemTableUpTo(true, idMap, key, items, 3) == ItemStep(true, idMap, key, t2, Some(c));
    var entries, order := map[key(a) := MergeInto(a, b), key(c) := c], [key(a), key(c)];
    var vs := ValuesOf(entries, order);
    assert |vs| == 2 && vs[0] == MergeInto(a, b) && vs[1] == c;
  }

  /** Records that all have the key `k` give the single key `k`. */
  lemma {:induction false} SameKeySet(key: Item -> string, s: seq<Item>, m: nat, k: string)
    requires 0 < m <= |s| && forall j :: 0 <= j < |s| ==> key(s[j]) == k
    ensures KeySet(key, Present(s), m) == {k}
  {
    if m > 1 {
      SameKeySet(key, s, m - 1, k);
    }
  }

  /** In merge mode the first two records are merged and the third is kept. */
  lemma ExampleSurvivors(n: string, u: string)
    requires !IsWhiteSpaceOnly(u)
    ensures FolderTableUpTo([], 0).idMap == map[]
    ensures var a, b, c := UriOnly(n, u), UsernameOnly(n, u), UsernameAndUri(n, u);
            Survivors(true, map[], ItemKey, [Some(a), Some(b), Some(c)]) == [MergeInto(a, b), c]
  {
    ExampleKeys(n, u);
    ThreeRecordTable(ItemKey, map[], UriOnly(n, u), UsernameOnly(n, u), UsernameAndUri(n, u));
  }

  /** The first merge-mode run keeps two of the three records. */
  lemma ExampleFirstRun(n: string, u: string)
    requires !IsWhiteSpaceOnly(u)
    ensures Summary(true, [], [Some(UriOnly(n, u)), Some(UsernameOnly(n, u)), Some(UsernameAndUri(n, u))]).deduplicatedItems == 2
  {
    var items := [Some(UriOnly(n, u)), Some(UsernameOnly(n, u)), Some(UsernameAndUri(n, u))];
    ExampleKeys(n, u);
    var ka, kc := Join("|", [n, "0", u]), Join("|", [n, "0", u, u]);
    SummaryCounts(true, [], items);
    assert KeySet(ItemKey, items, 1) == {ka};
    assert KeySet(ItemKey, items, 2) == {ka};
    assert KeySet(ItemKey, items, 3) == {ka, kc};
  }

  /** Ordering records that all have the key `k` leaves the single key `k`. */
  lemma SortedSameKey(key: Item -> string, sv: seq<Item>, k: string)
    requires |sv| > 0 && forall j :: 0 <= j < |sv| ==> key(sv[j]) == k
    ensures var out := SortByRecency(sv); KeySet(key, Present(out), |out|) == {k}
  {
    var out := SortByRecency(sv);
    SortByRecencyFacts(sv);
    forall j | 0 <= j < |out| ensures key(out[j]) == k {
      assert out[j] in multiset(sv);
    }
    assert |out| == |sv| by { assert |multiset(out)| == |multiset(sv)|; }
    SameKeySet(key, out, |out|, k);
  }

  /** A second merge-mode run on the output of the first keeps one record. */
  lemma ExampleSecondRun(n: string, u: string)
    requires !IsWhiteSpaceOnly(u)
    ensures var items := [Some(UriOnly(n, u)), Some(UsernameOnly(n, u)), Some(UsernameAndUri(n, u))];
            Summary(true, [], Present(DeduplicatedItems(true, [], items))).deduplicatedItems == 1
  {
    var a, b, c := UriOnly(n, u), UsernameOnly(n, u), UsernameAndUri(n, u);
    var items := [Some(a), Some(b), Some(c)];
    ExampleKeys(n, u);
    ExampleSurvivors(n, u);
    var sv := [MergeInto(a, b), c];
    var out := DeduplicatedItems(true, [], items);
    assert out == SortByRecency(sv);
    SortedSameKey(ItemKey, sv, Join("|", [n, "0", u, u]));
    SummaryCounts(true, [], Present(out));
  }

  /**
   * Merge mode is not idempotent. `UriOnly` and `UsernameOnly` share the key
   * `n|0|u` and are merged; the merged record has both the username and the URI,
   * so its key `n|0|u|u` is that of `UsernameAndUri`, and a second run merges
   * the two survivors of the first.
   */
  lemma MergeModeSecondRunRemovesMore(n: string, u: string)
    requires !IsWhiteSpaceOnly(u)
    ensures var items := [Some(UriOnly(n, u)), Some(UsernameOnly(n, u)), Some(UsernameAndUri(n, u))];
            && Summary(true, [], items).deduplicatedItems == 2
            && Summary(true, [], Present(DeduplicatedItems(true, [], items))).deduplicatedItems == 1
  {
    ExampleFirstRun(n, u);
    ExampleSecondRun(n, u);
  }

  /**
   * Records with no name, type 0 and no login share the key `|0`, so of two such
   * records one is removed, in either mode.
   */
  lemma NamelessRecordsCollapse(mergeMode: bool, folders: seq<Folder>, x: Item, y: Item)
    requires x.name.GetOr("") == "" && x.itemType == 0 && x.login.None?
    requires y.name.GetOr("") == "" && y.itemType == 0 && y.login.None?
    ensures Summary(mergeMode, folders, [Some(x), Some(y)]).deduplicatedItems == 1
  {
    NamelessKey(x);
    NamelessKey(y);
    var items := [Some(x), Some(y)];
    SummaryCounts(mergeMode, folders, items);
    assert KeySet(ItemKey, items, 1) == {"|0"};
    assert KeySet(ItemKey, items, 2) == {"|0"};
  }
}
