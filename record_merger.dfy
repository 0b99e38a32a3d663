/**
 * The record merger (`MergeItems`, `CloneItem`, `MergeLogin`, `CloneLogin`,
 * `MergeFields` in Deduplicator.cs). The C# code copies the base record and
 * appends to fresh local lists; nothing it receives is changed, so every
 * operation here is a function.
 *
 * Each list merge is the same loop: walk the incoming entries in order and
 * append an entry unless one with the same key is already in the list being
 * built. `AppendNewBy` is that loop; `NewEntries` is an independent description
 * of what it appends, and `AppendNewByIsUnion` connects the two.
 */
module RecordMerger {
  import opened Wrappers
  import opened Text
  import opened VaultModel

  // ---------------------------------------------------------------------------
  // Order-preserving union under a key
  // ---------------------------------------------------------------------------

  /** The keys of the entries of `s`. */
  function KeysOf<T(==), K(==)>(s: seq<T>, key: T -> K): set<K> {
    set x | x in s :: key(x)
  }

  lemma KeysOfAppend<T, K>(a: seq<T>, b: seq<T>, key: T -> K)
    ensures KeysOf(a + b, key) == KeysOf(a, key) + KeysOf(b, key)
  {
    assert forall x :: x in a + b <==> x in a || x in b;
  }

  /**
   * The merge loop: `foreach (var x in incoming) if (!list.Any(y => same(y, x))) list.Add(x);`
   * where `same` compares keys.
   */
  function AppendNewBy<T(==), K(==)>(acc: seq<T>, incoming: seq<T>, key: T -> K): seq<T>
    decreases |incoming|
  {
    if |incoming| == 0 then acc
    else
      var x := incoming[0];
      AppendNewBy(if key(x) in KeysOf(acc, key) then acc else acc + [x], incoming[1..], key)
  }

  /**
   * Reference definition of what the loop appends: incoming entry `i` is kept
   * exactly when its key occurs neither in `acc` nor among the incoming entries before it.
   */
  function NewEntries<T(==), K(==)>(acc: seq<T>, incoming: seq<T>, key: T -> K): seq<T>
    decreases |incoming|
  {
    if |incoming| == 0 then []
    else
      var n := |incoming| - 1;
      NewEntries(acc, incoming[..n], key)
        + (if key(incoming[n]) in KeysOf(acc + incoming[..n], key) then [] else [incoming[n]])
  }

  /** Moving the first incoming entry into the accumulated list keeps the keys seen so far. */
  lemma KeysShift<T, K>(acc: seq<T>, x: T, r: seq<T>, key: T -> K)
    ensures KeysOf(acc + ([x] + r), key)
            == KeysOf((if key(x) in KeysOf(acc, key) then acc else acc + [x]) + r, key)
  {
    KeysOfAppend(acc, [x] + r, key);
    KeysOfAppend(acc + [x], r, key);
    KeysOfAppend(acc, r, key);
    KeysOfAppend(acc, [x], key);
    KeysOfAppend([x], r, key);
  }

  lemma {:induction false} NewEntriesCons<T, K>(acc: seq<T>, x: T, rest: seq<T>, key: T -> K)
    ensures var seen := key(x) in KeysOf(acc, key);
            NewEntries(acc, [x] + rest, key)
              == (if seen then [] else [x]) + NewEntries(if seen then acc else acc + [x], rest, key)
    decreases |rest|
  {
    var seen := key(x) in KeysOf(acc, key);
    var acc' := if seen then acc else acc + [x];
    var s := [x] + rest;
    if |rest| == 0 {
      assert s[..0] == [];
      assert acc + s[..0] == acc;
    } else {
      var m := |rest| - 1;
      var r', y := rest[..m], rest[m];
      assert s[..|s| - 1] == [x] + r';
      assert s[|s| - 1] == y;
      NewEntriesCons(acc, x, r', key);
      KeysShift(acc, x, r', key);
      assert rest[..m] == r';
    }
  }

  /** The merge loop appends exactly the reference `NewEntries` after the accumulated list. */
  lemma {:induction false} AppendNewByIsUnion<T, K>(acc: seq<T>, incoming: seq<T>, key: T -> K)
    ensures AppendNewBy(acc, incoming, key) == acc + NewEntries(acc, incoming, key)
    decreases |incoming|
  {
    if |incoming| == 0 {
    } else {
      var x := incoming[0];
      var seen := key(x) in KeysOf(acc, key);
      var acc' := if seen then acc else acc + [x];
      AppendNewByIsUnion(acc', incoming[1..], key);
      assert [x] + incoming[1..] == incoming;
      NewEntriesCons(acc, x, incoming[1..], key);
    }
  }

  /** The reference appends only incoming entries, none whose key is already in `acc`. */
  lemma {:induction false} NewEntriesAreNew<T, K>(acc: seq<T>, incoming: seq<T>, key: T -> K)
    ensures forall e :: e in NewEntries(acc, incoming, key) ==> e in incoming && key(e) !in KeysOf(acc, key)
    decreases |incoming|
  {
    if |incoming| > 0 {
      var n := |incoming| - 1;
      NewEntriesAreNew(acc, incoming[..n], key);
      KeysOfAppend(acc, incoming[..n], key);
    }
  }

  /** After the merge every key of `acc` and of `incoming` is present. */
  lemma {:induction false} NewEntriesCoverKeys<T, K>(acc: seq<T>, incoming: seq<T>, key: T -> K)
    ensures KeysOf(acc + NewEntries(acc, incoming, key), key) == KeysOf(acc, key) + KeysOf(incoming, key)
    decreases |incoming|
  {
    if |incoming| > 0 {
      var n := |incoming| - 1;
      var pre, last := incoming[..n], incoming[n];
      NewEntriesCoverKeys(acc, pre, key);
      var ne0 := NewEntries(acc, pre, key);
      var ne := NewEntries(acc, incoming, key);
      assert incoming == pre + [last];
      KeysOfAppend(acc, pre, key);
      KeysOfAppend(pre, [last], key);
      if key(last) !in KeysOf(acc + pre, key) {
        assert ne == ne0 + [last];
        KeysOfAppend(acc + ne0, [last], key);
        assert acc + ne == (acc + ne0) + [last];
      } else {
        assert ne == ne0;
      }
    }
  }

  /** No two appended entries share a key. */
  lemma {:induction false} NewEntriesDistinct<T, K>(acc: seq<T>, incoming: seq<T>, key: T -> K)
    ensures var ne := NewEntries(acc, incoming, key);
            forall i, j :: 0 <= i < j < |ne| ==> key(ne[i]) != key(ne[j])
    decreases |incoming|
  {
    if |incoming| > 0 {
      var n := |incoming| - 1;
      var pre, last := incoming[..n], incoming[n];
      NewEntriesDistinct(acc, pre, key);
      NewEntriesCoverKeys(acc, pre, key);
      KeysOfAppend(acc, pre, key);
      KeysOfAppend(acc, NewEntries(acc, pre, key), key);
      var ne0 := NewEntries(acc, pre, key);
      var ne := NewEntries(acc, incoming, key);
      if key(last) !in KeysOf(acc + pre, key) {
        assert ne == ne0 + [last];
        forall i, j | 0 <= i < j < |ne| ensures key(ne[i]) != key(ne[j]) {
          if j == |ne| - 1 {
            assert ne[i] == ne0[i] && ne0[i] in ne0;
          } else {
            assert ne[i] == ne0[i] && ne[j] == ne0[j];
          }
        }
      }
    }
  }

  /** A merged list: the base entries in order, then the new incoming ones, with every key of both present. */
  lemma MergedListFacts<T, K>(base: seq<T>, incoming: seq<T>, key: T -> K)
    ensures AppendNewBy(base, incoming, key) == base + NewEntries(base, incoming, key)
    ensures var r := AppendNewBy(base, incoming, key);
            && r[..|base|] == base
            && r[|base|..] == NewEntries(base, incoming, key)
            && KeysOf(r, key) == KeysOf(base, key) + KeysOf(incoming, key)
  {
    AppendNewByIsUnion(base, incoming, key);
    NewEntriesCoverKeys(base, incoming, key);
    var r := AppendNewBy(base, incoming, key);
    assert r[..|base|] == base;
  }

  // ---------------------------------------------------------------------------
  // Identity of list entries
  // ---------------------------------------------------------------------------

  /** URIs are the same when their `Uri` strings are equal ignoring case. */
  function UriKey(u: UriObj): Option<string> {
    FoldOpt(u.uri)
  }

  /** Custom fields are the same when their names are equal ignoring case and their types are equal. */
  function FieldKey(f: Field): (Option<string>, int) {
    (FoldOpt(f.name), f.fieldType)
  }

  /** Password-history entries are the same when password and date are both equal. */
  function HistoryKey(p: PasswordHistoryEntry): PasswordHistoryEntry {
    p
  }

  /** `Where(s => !string.IsNullOrWhiteSpace(s))`. */
  function NonBlankStrings(s: seq<string>): (r: seq<string>)
    decreases |s|
  {
    if |s| == 0 then []
    else (if IsWhiteSpaceOnly(s[0]) then [] else [s[0]]) + NonBlankStrings(s[1..])
  }

  /** The filter keeps exactly the non-blank strings. */
  lemma {:induction false} NonBlankStringsFacts(s: seq<string>)
    ensures forall x :: x in NonBlankStrings(s) <==> x in s && !IsWhiteSpaceOnly(x)
    ensures |NonBlankStrings(s)| <= |s|
    decreases |s|
  {
    if |s| > 0 {
      NonBlankStringsFacts(s[1..]);
      assert s == [s[0]] + s[1..];
    }
  }

  /** "Non-blank wins, else fall back": the base value unless it is blank and the other is not. */
  function PreferNonBlank(base: Option<string>, other: Option<string>): (r: Option<string>)
    ensures !IsBlank(base) ==> r == base
    ensures IsBlank(base) && !IsBlank(other) ==> r == other
    ensures IsBlank(other) ==> r == base
    ensures IsBlank(r) <==> IsBlank(base) && IsBlank(other)
  {
    if IsBlank(base) && !IsBlank(other) then other else base
  }

  /** A date missing on the base is taken from the other record. */
  function PreferPresent(base: Option<Date>, other: Option<Date>): (r: Option<Date>)
    ensures base.Some? ==> r == base
    ensures base.None? ==> r == other
  {
    if base.None? && other.Some? then other else base
  }

  // ---------------------------------------------------------------------------
  // Cloning
  // ---------------------------------------------------------------------------

  /** `CloneLogin`: copies the scalars; a missing URI list becomes an empty one. */
  function CloneLogin(src: Login): Login {
    Login(Some(src.uris.GetOr([])), src.username, src.password, src.totp)
  }

  /**
   * `CloneItem`: a copy of every value, except that a missing login URI list or field
   * list becomes an empty list and blank collection ids are dropped.
   */
  function CloneItem(src: Item): (r: Item)
    ensures r == src.(login := r.login, fields := r.fields, collectionIds := r.collectionIds)
    ensures r.login.Some? <==> src.login.Some?
    ensures src.login.Some? ==> r.login == Some(CloneLogin(src.login.value))
    ensures r.fields == Some(src.fields.GetOr([]))
    ensures r.collectionIds.Some? <==> src.collectionIds.Some?
    ensures src.collectionIds.Some? ==> r.collectionIds == Some(NonBlankStrings(src.collectionIds.value))
    ensures src.collectionIds.Some? ==>
              forall x :: x in r.collectionIds.value <==> x in src.collectionIds.value && !IsWhiteSpaceOnly(x)
  {
    NonBlankStringsFacts(src.collectionIds.GetOr([]));
    src.(
      login := if src.login.None? then None else Some(CloneLogin(src.login.value)),
      fields := Some(src.fields.GetOr([])),
      collectionIds := if src.collectionIds.None? then None else Some(NonBlankStrings(src.collectionIds.value)))
  }

  /** A login copy keeps the scalars and the URIs in order, always has a URI list, and is a fixed point of copying. */
  lemma CloneLoginFacts(src: Login)
    ensures var c := CloneLogin(src);
            && c.username == src.username && c.password == src.password && c.totp == src.totp
            && c.uris == Some(src.uris.GetOr([]))
            && CloneLogin(c) == c
  {
  }

  // ---------------------------------------------------------------------------
  // Merging
  // ---------------------------------------------------------------------------

  /** `MergeLogin(a, b)`: `a` is preferred; URIs are unioned by case-insensitive URI. */
  function MergeLogin(a: Option<Login>, b: Option<Login>): (r: Option<Login>)
    ensures r.None? <==> a.None? && b.None?
    ensures a.None? && b.Some? ==> r == Some(CloneLogin(b.value))
    ensures a.Some? && b.None? ==> r == Some(CloneLogin(a.value))
    ensures a.Some? && b.Some? ==>
              var x, y, m := a.value, b.value, r.value;
              && m.username == PreferNonBlank(x.username, y.username)
              && m.password == PreferNonBlank(x.password, y.password)
              && m.totp == PreferNonBlank(x.totp, y.totp)
              && m.uris.Some?
              && m.uris.value == x.uris.GetOr([]) + NewEntries(x.uris.GetOr([]), y.uris.GetOr([]), UriKey)
  {
    if a.None? && b.None? then None
    else if a.None? then Some(CloneLogin(b.value))
    else if b.None? then Some(CloneLogin(a.value))
    else
      var merged := CloneLogin(a.value);
      var other := b.value;
      AppendNewByIsUnion(merged.uris.value, other.uris.GetOr([]), UriKey);
      Some(merged.(
        username := PreferNonBlank(merged.username, other.username),
        password := PreferNonBlank(merged.password, other.password),
        totp := PreferNonBlank(merged.totp, other.totp),
        uris := Some(AppendNewBy(merged.uris.value, other.uris.GetOr([]), UriKey))))
  }

  /** `MergeFields(a, b)`: a copy of `a`, then each field of `b` whose (name, type) is not yet present. */
  function MergeFields(a: Option<seq<Field>>, b: Option<seq<Field>>): (r: seq<Field>)
    ensures r == a.GetOr([]) + NewEntries(a.GetOr([]), b.GetOr([]), FieldKey)
  {
    AppendNewByIsUnion(a.GetOr([]), b.GetOr([]), FieldKey);
    AppendNewBy(a.GetOr([]), b.GetOr([]), FieldKey)
  }

  /** Collection ids: the base's, then new non-blank incoming ids (case-insensitive); empty collapses to null. */
  function MergeCollectionIds(base: Option<seq<string>>, incoming: Option<seq<string>>): (r: Option<seq<string>>)
    ensures var all := base.GetOr([]) + NewEntries(base.GetOr([]), NonBlankStrings(incoming.GetOr([])), Fold);
            r == if |all| == 0 then None else Some(all)
  {
    var coll := AppendNewBy(base.GetOr([]), NonBlankStrings(incoming.GetOr([])), Fold);
    AppendNewByIsUnion(base.GetOr([]), NonBlankStrings(incoming.GetOr([])), Fold);
    if |coll| == 0 then None else Some(coll)
  }

  /** Password history: the base's, then the incoming entries not already present; empty collapses to null. */
  function MergePasswordHistory(base: Option<seq<PasswordHistoryEntry>>, incoming: Option<seq<PasswordHistoryEntry>>)
    : (r: Option<seq<PasswordHistoryEntry>>)
    ensures var all := base.GetOr([]) + NewEntries(base.GetOr([]), incoming.GetOr([]), HistoryKey);
            r == if |all| == 0 then None else Some(all)
  {
    var ph := AppendNewBy(base.GetOr([]), incoming.GetOr([]), HistoryKey);
    AppendNewByIsUnion(base.GetOr([]), incoming.GetOr([]), HistoryKey);
    if |ph| == 0 then None else Some(ph)
  }

  /** `MergeItems(baseItem, incoming)` for two present records: the field-by-field rules. */
  function MergeInto(base: Item, incoming: Item): (r: Item)
    // carried from the base
    ensures r.id == base.id && r.organizationId == base.organizationId
    ensures r.itemType == base.itemType && r.reprompt == base.reprompt
    ensures r.revisionDate == base.revisionDate
    ensures r.card == base.card && r.identity == base.identity && r.secureNote == base.secureNote
    // non-blank base wins, else incoming
    ensures r.name == PreferNonBlank(base.name, incoming.name)
    ensures r.notes == PreferNonBlank(base.notes, incoming.notes)
    ensures r.folderId == PreferNonBlank(base.folderId, incoming.folderId)
    ensures r.favorite == (base.favorite || incoming.favorite)
    // dates filled only when the base lacks them
    ensures r.creationDate == PreferPresent(base.creationDate, incoming.creationDate)
    ensures r.deletedDate == PreferPresent(base.deletedDate, incoming.deletedDate)
    ensures r.archivedDate == PreferPresent(base.archivedDate, incoming.archivedDate)
    // lists: the base's entries first, then the incoming ones not yet matched
    ensures r.login.None? <==> base.login.None? && incoming.login.None?
    ensures r.fields == Some(base.fields.GetOr([]) + NewEntries(base.fields.GetOr([]), incoming.fields.GetOr([]), FieldKey))
    ensures var ids := NonBlankStrings(base.collectionIds.GetOr([]));
            var all := ids + NewEntries(ids, NonBlankStrings(incoming.collectionIds.GetOr([])), Fold);
            r.collectionIds == if |all| == 0 then None else Some(all)
    ensures var ph := base.passwordHistory.GetOr([]);
            var all := ph + NewEntries(ph, incoming.passwordHistory.GetOr([]), HistoryKey);
            r.passwordHistory == if |all| == 0 then None else Some(all)
  {
    var result := CloneItem(base);
    assert NonBlankStrings(base.collectionIds.GetOr([])) == result.collectionIds.GetOr([]);
    result.(
      name := PreferNonBlank(result.name, incoming.name),
      notes := PreferNonBlank(result.notes, incoming.notes),
      favorite := result.favorite || incoming.favorite,
      login := MergeLogin(result.login, incoming.login),
      fields := Some(MergeFields(result.fields, incoming.fields)),
      collectionIds := MergeCollectionIds(result.collectionIds, incoming.collectionIds),
      passwordHistory := MergePasswordHistory(result.passwordHistory, incoming.passwordHistory),
      folderId := PreferNonBlank(result.folderId, incoming.folderId),
      creationDate := PreferPresent(result.creationDate, incoming.creationDate),
      deletedDate := PreferPresent(result.deletedDate, incoming.deletedDate),
      archivedDate := PreferPresent(result.archivedDate, incoming.archivedDate))
  }

  /** The login of a merged record: the base login (copied) merged with the incoming one. */
  lemma MergeIntoLogin(base: Item, incoming: Item)
    ensures var r := MergeInto(base, incoming).login;
            && (base.login.None? && incoming.login.Some? ==> r == Some(CloneLogin(incoming.login.value)))
            && (base.login.Some? && incoming.login.None? ==> r == Some(CloneLogin(base.login.value)))
            && (base.login.Some? && incoming.login.Some? ==>
                  var x, y := base.login.value, incoming.login.value;
                  && r.value.username == PreferNonBlank(x.username, y.username)
                  && r.value.password == PreferNonBlank(x.password, y.password)
                  && r.value.totp == PreferNonBlank(x.totp, y.totp)
                  && r.value.uris == Some(x.uris.GetOr([]) + NewEntries(x.uris.GetOr([]), y.uris.GetOr([]), UriKey)))
  {
  }

  datatype MergeError = ArgumentNull

  /**
   * `MergeItems(baseItem, incoming)`: a null base throws, a null incoming record
   * yields a copy of the base, otherwise the merge of the two.
   */
  function MergeItems(baseItem: Option<Item>, incoming: Option<Item>): (r: Result<Item, MergeError>)
    ensures r.Failure? <==> baseItem.None?
    ensures baseItem.Some? && incoming.None? ==> r == Success(CloneItem(baseItem.value))
    ensures baseItem.Some? && incoming.Some? ==> r == Success(MergeInto(baseItem.value, incoming.value))
  {
    match baseItem
    case None => Failure(ArgumentNull)
    case Some(b) =>
      match incoming
      case None => Success(CloneItem(b))
      case Some(i) => Success(MergeInto(b, i))
  }

  /** A copy is a fixed point of copying. */
  lemma {:induction false} CloneItemIdempotent(src: Item)
    ensures CloneItem(CloneItem(src)) == CloneItem(src)
  {
    if src.collectionIds.Some? {
      NonBlankIdempotent(src.collectionIds.value);
    }
  }

  lemma {:induction false} NonBlankIdempotent(s: seq<string>)
    ensures NonBlankStrings(NonBlankStrings(s)) == NonBlankStrings(s)
    decreases |s|
  {
    if |s| > 0 {
      NonBlankIdempotent(s[1..]);
      var t := NonBlankStrings(s);
      if !IsWhiteSpaceOnly(s[0]) {
        assert t == [s[0]] + NonBlankStrings(s[1..]);
        assert t[0] == s[0] && t[1..] == NonBlankStrings(s[1..]);
        assert NonBlankStrings(t) == [t[0]] + NonBlankStrings(t[1..]);
      } else {
        assert t == NonBlankStrings(s[1..]);
      }
    }
  }
}
