/**
 * Folder reconciliation, the first pass of `Deduplicate`: folders are kept per
 * case-insensitive name (the first one seen wins, blank names are dropped) while
 * an old-id to canonical-id table is built for rewriting the records' `FolderId`.
 *
 * `uniqueFolders` is a `Dictionary<string, Folder>` with the `OrdinalIgnoreCase`
 * comparer and no removals, so its values come out in insertion order; it is
 * modelled as that list of values with a lookup by folded name. `idMapping` is an
 * ordinal `Dictionary<string, string>`, modelled as a `map`.
 */
module FolderReconciler {
  import opened Wrappers
  import opened Text
  import opened VaultModel

  /** A folder takes part only when its name is not blank. */
  predicate Named(f: Folder) {
    !IsBlank(f.name)
  }

  /** The key under which `uniqueFolders` compares names. */
  function NameKey(f: Folder): string {
    Fold(f.name.GetOr(""))
  }

  /** `uniqueFolders[name]`: the kept folder whose name matches `k` ignoring case, if any. */
  function Lookup(kept: seq<Folder>, k: string): (r: Option<Folder>)
    ensures r.Some? ==> r.value in kept && NameKey(r.value) == k
    ensures r.None? <==> forall j :: 0 <= j < |kept| ==> NameKey(kept[j]) != k
    decreases |kept|
  {
    if |kept| == 0 then None
    else
      var n := |kept| - 1;
      match Lookup(kept[..n], k)
      case Some(f) => Some(f)
      case None => if NameKey(kept[n]) == k then Some(kept[n]) else None
  }

  /** The dictionaries of the folder pass. */
  datatype FolderTable = FolderTable(kept: seq<Folder>, idMap: map<string, string>)

  /** One iteration of the folder loop. */
  function FolderStep(t: FolderTable, f: Folder): FolderTable {
    if !Named(f) then t
    else
      match Lookup(t.kept, NameKey(f))
      case None =>
        FolderTable(t.kept + [f], if IsBlank(f.id) then t.idMap else t.idMap[f.id.value := f.id.value])
      case Some(existing) =>
        if !IsBlank(f.id) && !IsBlank(existing.id) then t.(idMap := t.idMap[f.id.value := existing.id.value])
        else t
  }

  /** The dictionaries after the first `m` folders. */
  function FolderTableUpTo(fs: seq<Folder>, m: nat): FolderTable
    requires m <= |fs|
  {
    if m == 0 then FolderTable([], map[]) else FolderStep(FolderTableUpTo(fs, m - 1), fs[m - 1])
  }

  // ---------------------------------------------------------------------------
  // Reference definitions
  // ---------------------------------------------------------------------------

  /** The first of the first `m` folders that is named `k` ignoring case. */
  function FirstIndex(fs: seq<Folder>, k: string, m: nat): (r: Option<nat>)
    requires m <= |fs|
    ensures r.Some? ==> r.value < m && Named(fs[r.value]) && NameKey(fs[r.value]) == k
    ensures r.Some? ==> forall i :: 0 <= i < r.value ==> !(Named(fs[i]) && NameKey(fs[i]) == k)
    ensures r.None? ==> forall i :: 0 <= i < m ==> !(Named(fs[i]) && NameKey(fs[i]) == k)
  {
    if m == 0 then None
    else
      var r := FirstIndex(fs, k, m - 1);
      if r.Some? then r
      else if Named(fs[m - 1]) && NameKey(fs[m - 1]) == k then Some(m - 1)
      else None
  }

  /** Folder `i` is the first one seen with its name. */
  predicate IsFirst(fs: seq<Folder>, i: nat)
    requires i < |fs|
  {
    Named(fs[i]) && FirstIndex(fs, NameKey(fs[i]), i).None?
  }

  /** The first-seen folder of every non-blank name among the first `m`, in input order. */
  function Kept(fs: seq<Folder>, m: nat): (r: seq<Folder>)
    requires m <= |fs|
    ensures |r| <= m
  {
    if m == 0 then [] else Kept(fs, m - 1) + (if IsFirst(fs, m - 1) then [fs[m - 1]] else [])
  }

  /**
   * The id a folder's id is mapped to: for a first-seen folder its own id, for a
   * later one the first-seen folder's id; none when either id is blank or the name is.
   */
  function MapTarget(fs: seq<Folder>, i: nat): Option<string>
    requires i < |fs|
  {
    if !Named(fs[i]) || IsBlank(fs[i].id) then None
    else
      match FirstIndex(fs, NameKey(fs[i]), i)
      case None => Some(fs[i].id.value)
      case Some(j) => if IsBlank(fs[j].id) then None else Some(fs[j].id.value)
  }

  /** Folder `i` creates the entry `x -> MapTarget(fs, i)`. */
  predicate Maps(fs: seq<Folder>, i: nat, x: string)
    requires i < |fs|
  {
    fs[i].id == Some(x) && MapTarget(fs, i).Some?
  }

  // ---------------------------------------------------------------------------
  // The loop against the reference
  // ---------------------------------------------------------------------------

  /** Looking up in a list with one more folder at the end looks at that folder last. */
  lemma LookupSnoc(kept: seq<Folder>, f: Folder, k: string)
    ensures Lookup(kept + [f], k) == if Lookup(kept, k).Some? then Lookup(kept, k) else if NameKey(f) == k then Some(f) else None
  {
    var s := kept + [f];
    assert s[..|s| - 1] == kept;
    assert s[|s| - 1] == f;
  }

  /** Looking a name up among the kept folders finds the first input folder with that name. */
  lemma {:induction false} LookupKept(fs: seq<Folder>, m: nat, k: string)
    requires m <= |fs|
    ensures Lookup(Kept(fs, m), k).None? <==> FirstIndex(fs, k, m).None?
    ensures FirstIndex(fs, k, m).Some? ==> Lookup(Kept(fs, m), k) == Some(fs[FirstIndex(fs, k, m).value])
  {
    if m > 0 {
      LookupKept(fs, m - 1, k);
      var prev := Kept(fs, m - 1);
      if IsFirst(fs, m - 1) {
        assert Kept(fs, m) == prev + [fs[m - 1]];
        LookupSnoc(prev, fs[m - 1], k);
      } else {
        assert Kept(fs, m) == prev;
      }
    }
  }

  /** The loop keeps exactly the first-seen folder of every non-blank name. */
  lemma {:induction false} TableKept(fs: seq<Folder>, m: nat)
    requires m <= |fs|
    ensures FolderTableUpTo(fs, m).kept == Kept(fs, m)
  {
    if m > 0 {
      TableKept(fs, m - 1);
      LookupKept(fs, m - 1, NameKey(fs[m - 1]));
      var t, f := FolderTableUpTo(fs, m - 1), fs[m - 1];
      assert FolderTableUpTo(fs, m) == FolderStep(t, f);
      assert Kept(fs, m) == Kept(fs, m - 1) + (if IsFirst(fs, m - 1) then [f] else []);
    }
  }

  /** One iteration adds the entry `MapTarget` describes, and nothing else. */
  lemma TableIdMapStep(fs: seq<Folder>, m: nat)
    requires 0 < m <= |fs|
    ensures var prev := FolderTableUpTo(fs, m - 1).idMap;
            FolderTableUpTo(fs, m).idMap
              == if MapTarget(fs, m - 1).Some? then prev[fs[m - 1].id.value := MapTarget(fs, m - 1).value] else prev
  {
    var t, f := FolderTableUpTo(fs, m - 1), fs[m - 1];
    assert FolderTableUpTo(fs, m) == FolderStep(t, f);
    if Named(f) {
      var k := NameKey(f);
      TableKept(fs, m - 1);
      LookupKept(fs, m - 1, k);
      match FirstIndex(fs, k, m - 1)
      case None =>
        assert Lookup(t.kept, k) == None;
      case Some(j) =>
        assert Lookup(t.kept, k) == Some(fs[j]);
    }
  }

  /** The id table holds an entry for `x` exactly when some folder with id `x` maps it. */
  lemma {:induction false} TableIdMapKeys(fs: seq<Folder>, m: nat)
    requires m <= |fs|
    ensures forall x :: x in FolderTableUpTo(fs, m).idMap <==> exists i :: 0 <= i < m && Maps(fs, i, x)
  {
    if m > 0 {
      TableIdMapKeys(fs, m - 1);
      TableIdMapStep(fs, m);
      var prev := FolderTableUpTo(fs, m - 1).idMap;
      var idMap := FolderTableUpTo(fs, m).idMap;
      forall x | x in idMap
        ensures exists i :: 0 <= i < m && Maps(fs, i, x)
      {
        if !Maps(fs, m - 1, x) {
          assert x in prev;
          var i :| 0 <= i < m - 1 && Maps(fs, i, x);
        }
      }
      forall x | exists i :: 0 <= i < m && Maps(fs, i, x)
        ensures x in idMap
      {
        if !Maps(fs, m - 1, x) {
          var i :| 0 <= i < m && Maps(fs, i, x);
          assert i < m - 1;
        }
      }
    }
  }

  /** No folder after `i` among the first `m` maps `x`. */
  predicate LastMapper(fs: seq<Folder>, i: nat, x: string, m: nat)
    requires i < m <= |fs|
  {
    Maps(fs, i, x) && forall j :: i < j < m ==> !Maps(fs, j, x)
  }

  /** `TableIdMapStep` read at one key. */
  lemma TableIdMapStepAt(fs: seq<Folder>, m: nat, x: string)
    requires 0 < m <= |fs|
    ensures var prev, idMap := FolderTableUpTo(fs, m - 1).idMap, FolderTableUpTo(fs, m).idMap;
            && (x in idMap <==> Maps(fs, m - 1, x) || x in prev)
            && (Maps(fs, m - 1, x) ==> idMap[x] == MapTarget(fs, m - 1).value)
            && (!Maps(fs, m - 1, x) && x in prev ==> idMap[x] == prev[x])
  {
    TableIdMapStep(fs, m);
  }

  /** `TableIdMapValues` for one key. */
  lemma {:induction false} TableIdMapValueAt(fs: seq<Folder>, m: nat, x: string)
    requires m <= |fs| && x in FolderTableUpTo(fs, m).idMap
    ensures exists i :: 0 <= i < m && LastMapper(fs, i, x, m) && FolderTableUpTo(fs, m).idMap[x] == MapTarget(fs, i).value
  {
    if m == 0 {
      assert false;
    } else {
      TableIdMapStepAt(fs, m, x);
      if Maps(fs, m - 1, x) {
        assert LastMapper(fs, m - 1, x, m);
      } else {
        TableIdMapValueAt(fs, m - 1, x);
        var i :| 0 <= i < m - 1 && LastMapper(fs, i, x, m - 1)
                 && FolderTableUpTo(fs, m - 1).idMap[x] == MapTarget(fs, i).value;
        assert LastMapper(fs, i, x, m);
      }
    }
  }

  /**
   * A table entry for `x` holds the target of the last folder that maps `x`: a later
   * duplicate with the same id replaces an earlier entry.
   */
  lemma TableIdMapValues(fs: seq<Folder>, m: nat)
    requires m <= |fs|
    ensures forall x :: x in FolderTableUpTo(fs, m).idMap ==>
              exists i :: 0 <= i < m && LastMapper(fs, i, x, m) && FolderTableUpTo(fs, m).idMap[x] == MapTarget(fs, i).value
  {
    forall x | x in FolderTableUpTo(fs, m).idMap
      ensures exists i :: 0 <= i < m && LastMapper(fs, i, x, m) && FolderTableUpTo(fs, m).idMap[x] == MapTarget(fs, i).value
    {
      TableIdMapValueAt(fs, m, x);
    }
  }

  // ---------------------------------------------------------------------------
  // Properties of the kept folders
  // ---------------------------------------------------------------------------

  /** Every kept folder has a non-blank name. */
  lemma {:induction false} KeptNamed(fs: seq<Folder>, m: nat)
    requires m <= |fs|
    ensures forall j :: 0 <= j < |Kept(fs, m)| ==> Named(Kept(fs, m)[j])
  {
    if m > 0 {
      KeptNamed(fs, m - 1);
      var prev := Kept(fs, m - 1);
      var kept := Kept(fs, m);
      assert forall j :: 0 <= j < |prev| ==> kept[j] == prev[j];
    }
  }

  /** No two kept names are equal ignoring case. */
  lemma {:induction false} KeptDistinct(fs: seq<Folder>, m: nat)
    requires m <= |fs|
    ensures forall a, b :: 0 <= a < b < |Kept(fs, m)| ==> NameKey(Kept(fs, m)[a]) != NameKey(Kept(fs, m)[b])
  {
    if m > 0 {
      KeptDistinct(fs, m - 1);
      var prev := Kept(fs, m - 1);
      if IsFirst(fs, m - 1) {
        var kept := prev + [fs[m - 1]];
        assert Kept(fs, m) == kept;
        LookupKept(fs, m - 1, NameKey(fs[m - 1]));
        assert forall j :: 0 <= j < |prev| ==> NameKey(prev[j]) != NameKey(fs[m - 1]);
        forall a, b | 0 <= a < b < |kept| ensures NameKey(kept[a]) != NameKey(kept[b]) {
          assert kept[a] == prev[a];
          if b < |prev| {
            assert kept[b] == prev[b];
          }
        }
      } else {
        assert Kept(fs, m) == prev;
      }
    }
  }

  /** Every named folder among the first `m` has its name among the kept ones. */
  lemma KeptCovers(fs: seq<Folder>, m: nat, i: nat)
    requires i < m <= |fs| && Named(fs[i])
    ensures exists j :: 0 <= j < |Kept(fs, m)| && NameKey(Kept(fs, m)[j]) == NameKey(fs[i])
  {
    var k := NameKey(fs[i]);
    LookupKept(fs, m, k);
    var kept := Kept(fs, m);
    var f := Lookup(kept, k).value;
    var j :| 0 <= j < |kept| && kept[j] == f;
  }

  /**
   * Every kept folder has a non-blank name, no two kept names are equal ignoring case,
   * and every named input folder's name is among them.
   */
  lemma KeptFacts(fs: seq<Folder>, m: nat)
    requires m <= |fs|
    ensures var kept := Kept(fs, m);
            && (forall j :: 0 <= j < |kept| ==> Named(kept[j]))
            && (forall a, b :: 0 <= a < b < |kept| ==> NameKey(kept[a]) != NameKey(kept[b]))
            && (forall i :: 0 <= i < m && Named(fs[i]) ==> exists j :: 0 <= j < |kept| && NameKey(kept[j]) == NameKey(fs[i]))
  {
    KeptNamed(fs, m);
    KeptDistinct(fs, m);
    forall i | 0 <= i < m && Named(fs[i])
      ensures exists j :: 0 <= j < |Kept(fs, m)| && NameKey(Kept(fs, m)[j]) == NameKey(fs[i])
    {
      KeptCovers(fs, m, i);
    }
  }

  /** Folders that are all named, with names pairwise different ignoring case, are all kept. */
  lemma {:induction false} KeptAllDistinct(fs: seq<Folder>, m: nat)
    requires m <= |fs|
    requires forall j :: 0 <= j < |fs| ==> Named(fs[j])
    requires forall a, b :: 0 <= a < b < |fs| ==> NameKey(fs[a]) != NameKey(fs[b])
    ensures Kept(fs, m) == fs[..m]
  {
    if m > 0 {
      KeptAllDistinct(fs, m - 1);
      var r := FirstIndex(fs, NameKey(fs[m - 1]), m - 1);
      if r.Some? {
        assert false;
      }
      assert fs[..m] == fs[..m - 1] + [fs[m - 1]];
    }
  }

  /** A first-seen folder among the first `m` is kept. */
  lemma {:induction false} FirstIsKept(fs: seq<Folder>, i: nat, m: nat)
    requires i < m <= |fs| && IsFirst(fs, i)
    ensures fs[i] in Kept(fs, m)
  {
    if i < m - 1 {
      FirstIsKept(fs, i, m - 1);
    }
  }

  /** Every value of the id table is the id of a kept folder. */
  lemma TableTargetsKept(fs: seq<Folder>, m: nat)
    requires m <= |fs|
    ensures var t := FolderTableUpTo(fs, m);
            forall x :: x in t.idMap ==> exists f :: f in Kept(fs, m) && f.id == Some(t.idMap[x])
  {
    TableIdMapValues(fs, m);
    var t := FolderTableUpTo(fs, m);
    forall x | x in t.idMap ensures exists f :: f in Kept(fs, m) && f.id == Some(t.idMap[x]) {
      var i :| 0 <= i < m && LastMapper(fs, i, x, m) && t.idMap[x] == MapTarget(fs, i).value;
      match FirstIndex(fs, NameKey(fs[i]), i)
      case None =>
        FirstIsKept(fs, i, m);
      case Some(c) =>
        assert IsFirst(fs, c);
        FirstIsKept(fs, c, m);
    }
  }

  /**
   * The folder pass of `Deduplicate` (Deduplicator.cs, the loop over `vault.Folders`):
   * returns the kept folders in first-seen order and the id table.
   */
  method ReconcileFolders(fs: seq<Folder>) returns (uniqueFolders: seq<Folder>, idMapping: map<string, string>)
    ensures uniqueFolders == Kept(fs, |fs|)
    ensures FolderTable(uniqueFolders, idMapping) == FolderTableUpTo(fs, |fs|)
  {
    uniqueFolders := [];
    idMapping := map[];
    var i := 0;
    while i < |fs|
      invariant 0 <= i <= |fs|
      invariant FolderTable(uniqueFolders, idMapping) == FolderTableUpTo(fs, i)
    {
      var folder := fs[i];
      var name := folder.name.GetOr("");
      if !IsWhiteSpaceOnly(name) {
        var existing := Lookup(uniqueFolders, Fold(name));
        if existing.None? {
          uniqueFolders := uniqueFolders + [folder];
          if !IsBlank(folder.id) {
            idMapping := idMapping[folder.id.value := folder.id.value];
          }
        } else if !IsBlank(folder.id) && !IsBlank(existing.value.id) {
          idMapping := idMapping[folder.id.value := existing.value.id.value];
        }
      }
      i := i + 1;
    }
    TableKept(fs, |fs|);
  }
}
