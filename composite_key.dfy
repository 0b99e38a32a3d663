/**
 * The composite key under which `Deduplicate` and `FindDuplicateGroups` consider
 * two records duplicates: `name ?? ""`, the decimal item type, the username when
 * it is not blank, and every non-blank URI, joined with `|`.
 *
 * The key is compared ordinally (case-sensitively): it is a plain `string` key of
 * a `Dictionary<string, ...>` created without a comparer.
 */
module CompositeKey {
  import opened Wrappers
  import opened Text
  import opened VaultModel

  /** The non-blank URI strings of a URI list, in order. */
  function UriParts(us: seq<UriObj>): (r: seq<string>)
    ensures |r| <= |us|
    ensures forall p :: p in r ==> !IsWhiteSpaceOnly(p)
    decreases |us|
  {
    if |us| == 0 then []
    else (if IsBlank(us[0].uri) then [] else [us[0].uri.value]) + UriParts(us[1..])
  }

  /** The login's contribution to the key: a non-blank username, then the non-blank URIs. */
  function LoginParts(login: Option<Login>): seq<string> {
    match login
    case None => []
    case Some(l) => (if IsBlank(l.username) then [] else [l.username.value]) + UriParts(l.uris.GetOr([]))
  }

  /**
   * The `parts` list of the key: the name (empty when absent), the decimal type,
   * then only non-blank strings; a record without a login has just the first two.
   */
  function KeyParts(it: Item): (r: seq<string>)
    ensures |r| >= 2 && r[0] == it.name.GetOr("") && r[1] == IntToString(it.itemType)
    ensures forall j :: 2 <= j < |r| ==> !IsWhiteSpaceOnly(r[j])
    ensures it.login.None? ==> |r| == 2
  {
    var r := [it.name.GetOr(""), IntToString(it.itemType)] + LoginParts(it.login);
    assert forall j :: 2 <= j < |r| ==> r[j] in LoginParts(it.login);
    r
  }

  /** A join starts with its first part. */
  lemma {:induction false} JoinStartsWith(sep: string, parts: seq<string>)
    requires |parts| >= 1
    ensures |Join(sep, parts)| >= |parts[0]|
    ensures Join(sep, parts)[..|parts[0]|] == parts[0]
  {
    if |parts| > 1 {
      assert Join(sep, parts) == parts[0] + sep + Join(sep, parts[1..]);
    }
  }

  /** A join of two or more parts starts with the first, the separator and the second. */
  lemma JoinPrefix(sep: string, ps: seq<string>)
    requires |ps| >= 2
    ensures |Join(sep, ps)| >= |ps[0]| + |sep| + |ps[1]|
    ensures Join(sep, ps)[..|ps[0]| + |sep| + |ps[1]|] == ps[0] + sep + ps[1]
  {
    var rest := Join(sep, ps[1..]);
    assert Join(sep, ps) == ps[0] + sep + rest;
    JoinStartsWith(sep, ps[1..]);
    assert rest[..|ps[1]|] == ps[1];
    assert (ps[0] + sep + rest)[..|ps[0]| + |sep| + |ps[1]|] == ps[0] + sep + rest[..|ps[1]|];
  }

  /**
   * `string.Join("|", parts)`. Its prefix ends with the last digit of the type, so
   * the key is never blank: the empty-key skip in `Deduplicate` and
   * `FindDuplicateGroups` never fires.
   */
  function ItemKey(it: Item): (r: string)
    ensures !IsWhiteSpaceOnly(r)
  {
    var ps := KeyParts(it);
    var r := Join("|", ps);
    JoinPrefix("|", ps);
    IntToStringNotBlank(it.itemType);
    var i := |ps[0]| + |ps[1]|;
    assert r[..|ps[0]| + 1 + |ps[1]|][i] == (ps[0] + "|" + ps[1])[i];
    NotBlankWitness(r, i);
    r
  }

  /** The key begins with the name, a `|` and the decimal type, whatever the login holds. */
  lemma KeyPrefix(it: Item)
    ensures var name, t := it.name.GetOr(""), IntToString(it.itemType);
            && |ItemKey(it)| >= |name| + 1 + |t|
            && ItemKey(it)[..|name| + 1 + |t|] == name + "|" + t
  {
    JoinPrefix("|", KeyParts(it));
  }

  /** A record with every property at its default. */
  const EmptyItem: Item := Item(None, None, None, 0, 0, None, None, false, None, None, None, None,
                                None, None, None, None, None, None, None)

  /**
   * The key does not tell a username from a URI: a login with username `u` and no
   * URI and a login with no username and the single URI `u` share a key.
   */
  lemma KeyIsNotInjective()
    ensures var a := EmptyItem.(name := Some("n"), login := Some(Login(None, Some("u"), None, None)));
            var b := EmptyItem.(name := Some("n"), login := Some(Login(Some([UriObj(None, Some("u"))]), None, None, None)));
            a != b && ItemKey(a) == ItemKey(b)
  {
    var a := EmptyItem.(name := Some("n"), login := Some(Login(None, Some("u"), None, None)));
    var b := EmptyItem.(name := Some("n"), login := Some(Login(Some([UriObj(None, Some("u"))]), None, None, None)));
    assert !IsWhiteSpaceOnly("u") by { NotBlankWitness("u", 0); }
    assert LoginParts(a.login) == ["u"];
    assert UriParts([UriObj(None, Some("u"))]) == ["u"];
    assert LoginParts(b.login) == ["u"];
  }

  /**
   * A record with no name (or an empty one), type 0 and no login has the key `|0`:
   * such records are not left out of the grouping but all share one key.
   */
  lemma NamelessKey(it: Item)
    requires it.name.GetOr("") == "" && it.itemType == 0 && it.login.None?
    ensures ItemKey(it) == "|0"
  {
    assert IntToString(0) == "0";
    assert KeyParts(it) == ["", "0"];
    assert ["", "0"][1..] == ["0"];
  }

  // ---------------------------------------------------------------------------
  // Keys of a record list
  // ---------------------------------------------------------------------------
  // These take the key function as a parameter; `Deduplicate` and
  // `FindDuplicateGroups` pass `ItemKey`.

  /** The keys of the non-null records among the first `m`. */
  function KeySet(key: Item -> string, items: seq<Option<Item>>, m: nat): set<string>
    requires m <= |items|
  {
    if m == 0 then {}
    else KeySet(key, items, m - 1) + (if items[m - 1].Some? then {key(items[m - 1].value)} else {})
  }

  /** The number of non-null records among the first `m`. */
  function PresentCount(items: seq<Option<Item>>, m: nat): (r: nat)
    requires m <= |items|
    ensures r <= m
  {
    if m == 0 then 0 else PresentCount(items, m - 1) + (if items[m - 1].Some? then 1 else 0)
  }

  /** The distinct keys of the non-null records among the first `m`, in order of first occurrence. */
  function KeyOrder(key: Item -> string, items: seq<Option<Item>>, m: nat): seq<string>
    requires m <= |items|
  {
    if m == 0 then []
    else
      var prev := KeyOrder(key, items, m - 1);
      match items[m - 1]
      case None => prev
      case Some(it) => if key(it) in prev then prev else prev + [key(it)]
  }

  /** Appending a string that is not yet present keeps a list free of repetitions. */
  lemma AppendFresh(prev: seq<string>, k: string)
    requires forall i, j :: 0 <= i < j < |prev| ==> prev[i] != prev[j]
    requires k !in prev
    ensures var ko := prev + [k]; forall i, j :: 0 <= i < j < |ko| ==> ko[i] != ko[j]
  {
    var ko := prev + [k];
    forall i, j | 0 <= i < j < |ko| ensures ko[i] != ko[j] {
      assert ko[i] == prev[i];
      if j < |prev| {
        assert ko[j] == prev[j];
      }
    }
  }

  /** A key is in `KeyOrder` exactly when some non-null record has it. */
  lemma {:induction false} KeyOrderMembers(key: Item -> string, items: seq<Option<Item>>, m: nat)
    requires m <= |items|
    ensures forall k :: k in KeyOrder(key, items, m) <==> k in KeySet(key, items, m)
  {
    if m > 0 {
      KeyOrderMembers(key, items, m - 1);
    }
  }

  /** No key occurs twice in `KeyOrder`. */
  lemma {:induction false} KeyOrderNoRepeats(key: Item -> string, items: seq<Option<Item>>, m: nat)
    requires m <= |items|
    ensures forall i, j :: 0 <= i < j < |KeyOrder(key, items, m)| ==> KeyOrder(key, items, m)[i] != KeyOrder(key, items, m)[j]
  {
    if m > 0 {
      KeyOrderNoRepeats(key, items, m - 1);
      var prev := KeyOrder(key, items, m - 1);
      assert forall i, j :: 0 <= i < j < |prev| ==> prev[i] != prev[j];
      match items[m - 1]
      case None =>
      case Some(it) =>
        if key(it) !in prev {
          AppendFresh(prev, key(it));
        }
    }
  }

  /** `KeyOrder` lists every key of the records exactly once. */
  lemma KeyOrderDistinct(key: Item -> string, items: seq<Option<Item>>, m: nat)
    requires m <= |items|
    ensures var ko := KeyOrder(key, items, m);
            && (forall i, j :: 0 <= i < j < |ko| ==> ko[i] != ko[j])
            && (set k | k in ko) == KeySet(key, items, m)
  {
    KeyOrderNoRepeats(key, items, m);
    KeyOrderMembers(key, items, m);
  }

  /** `KeyOrder` grows by at most one key per non-null record. */
  lemma {:induction false} KeyOrderBound(key: Item -> string, items: seq<Option<Item>>, m: nat)
    requires m <= |items|
    ensures |KeyOrder(key, items, m)| <= PresentCount(items, m)
  {
    if m > 0 {
      KeyOrderBound(key, items, m - 1);
    }
  }

  /**
   * The number of distinct keys is the length of `KeyOrder`, and at most the number
   * of non-null records.
   */
  lemma KeyOrderCounts(key: Item -> string, items: seq<Option<Item>>, m: nat)
    requires m <= |items|
    ensures |KeyOrder(key, items, m)| == |KeySet(key, items, m)| <= PresentCount(items, m)
  {
    KeyOrderDistinct(key, items, m);
    DistinctCard(KeyOrder(key, items, m));
    KeyOrderBound(key, items, m);
  }

  /** A sequence without repetitions has as many elements as its set. */
  lemma {:induction false} DistinctCard(s: seq<string>)
    requires forall i, j :: 0 <= i < j < |s| ==> s[i] != s[j]
    ensures |set k | k in s| == |s|
    decreases |s|
  {
    if |s| > 0 {
      var n := |s| - 1;
      DistinctCard(s[..n]);
      assert (set k | k in s) == (set k | k in s[..n]) + {s[n]};
      assert s[n] !in s[..n];
    }
  }

  /** The non-null records among the first `m` whose key is `k`, in list order. */
  function ItemsWithKey(key: Item -> string, items: seq<Option<Item>>, k: string, m: nat): (r: seq<Item>)
    requires m <= |items|
    ensures forall x :: x in r ==> key(x) == k
  {
    if m == 0 then []
    else
      ItemsWithKey(key, items, k, m - 1)
        + (if items[m - 1].Some? && key(items[m - 1].value) == k then [items[m - 1].value] else [])
  }

  /** A key has records exactly when it is one of the keys. */
  lemma {:induction false} ItemsWithKeyNonEmpty(key: Item -> string, items: seq<Option<Item>>, k: string, m: nat)
    requires m <= |items|
    ensures |ItemsWithKey(key, items, k, m)| > 0 <==> k in KeySet(key, items, m)
  {
    if m > 0 {
      ItemsWithKeyNonEmpty(key, items, k, m - 1);
    }
  }

  /** A key is among the keys exactly when some non-null record has it. */
  lemma {:induction false} KeySetMembers(key: Item -> string, items: seq<Option<Item>>, m: nat, k: string)
    requires m <= |items|
    ensures k in KeySet(key, items, m) <==> exists i :: 0 <= i < m && items[i].Some? && key(items[i].value) == k
  {
    if m > 0 {
      KeySetMembers(key, items, m - 1, k);
    }
  }
}
