/**
 * `Program.EnsureNonNullProperties`: before the vault is saved, every covered
 * string property that is blank becomes null, in place. Covered are the folder id
 * and name; the record id, organization id, folder id, name and notes; each custom
 * field's name and value; the login's username, password and TOTP; and each URI's
 * match and value. No list or login is created, and nothing else changes.
 */
module Normalizer {
  import opened Wrappers
  import opened Text
  import opened VaultModel

  /** `string.IsNullOrWhiteSpace(s) ? null : s`. */
  function NullIfBlank(s: Option<string>): (r: Option<string>)
    ensures IsBlank(s) ==> r == None
    ensures !IsBlank(s) ==> r == s
    ensures !IsBlank(r) || r == None
  {
    if IsBlank(s) then None else s
  }

  /** The rule for one covered string: a blank value becomes null, any other is kept. */
  predicate BlankBecomesNull(before: Option<string>, after: Option<string>) {
    (IsBlank(before) ==> after == None) && (!IsBlank(before) ==> after == before)
  }

  /** A string that is null or not blank. */
  predicate Clean(s: Option<string>) {
    s.None? || !IsWhiteSpaceOnly(s.value)
  }

  function NormalizeFolder(f: Folder): Folder {
    Folder(NullIfBlank(f.id), NullIfBlank(f.name))
  }

  function NormalizeField(f: Field): Field {
    f.(name := NullIfBlank(f.name), value := NullIfBlank(f.value))
  }

  function NormalizeUri(u: UriObj): UriObj {
    UriObj(NullIfBlank(u.uriMatch), NullIfBlank(u.uri))
  }

  function NormalizeFields(fs: seq<Field>): seq<Field> {
    seq(|fs|, i requires 0 <= i < |fs| => NormalizeField(fs[i]))
  }

  function NormalizeUris(us: seq<UriObj>): seq<UriObj> {
    seq(|us|, i requires 0 <= i < |us| => NormalizeUri(us[i]))
  }

  function NormalizeLogin(l: Login): Login {
    Login(
      match l.uris case None => None case Some(us) => Some(NormalizeUris(us)),
      NullIfBlank(l.username), NullIfBlank(l.password), NullIfBlank(l.totp))
  }

  /**
   * The body of the loop over `vault.Items` for one non-null record: the result is
   * clean, its own covered strings are each nulled if blank and kept otherwise,
   * and a record that is already clean is left as it is.
   */
  function NormalizeItem(it: Item): (r: Item)
    ensures ItemClean(r)
    ensures BlankBecomesNull(it.id, r.id) && BlankBecomesNull(it.organizationId, r.organizationId)
    ensures BlankBecomesNull(it.folderId, r.folderId) && BlankBecomesNull(it.name, r.name)
    ensures BlankBecomesNull(it.notes, r.notes)
    ensures ItemClean(it) ==> r == it
  {
    NormalizeFieldsFacts(it.fields.GetOr([]));
    NormalizeLoginFacts(it.login.GetOr(Login(None, None, None, None)));
    it.(id := NullIfBlank(it.id),
        organizationId := NullIfBlank(it.organizationId),
        folderId := NullIfBlank(it.folderId),
        name := NullIfBlank(it.name),
        notes := NullIfBlank(it.notes),
        fields := match it.fields case None => None case Some(fs) => Some(NormalizeFields(fs)),
        login := match it.login case None => None case Some(l) => Some(NormalizeLogin(l)))
  }

  /** A null entry of `vault.Items` is skipped. */
  function NormalizeEntry(e: Option<Item>): Option<Item> {
    match e
    case None => None
    case Some(it) => Some(NormalizeItem(it))
  }

  predicate FolderClean(f: Folder) {
    Clean(f.id) && Clean(f.name)
  }

  predicate LoginClean(l: Login) {
    && Clean(l.username) && Clean(l.password) && Clean(l.totp)
    && (l.uris.Some? ==> forall u :: u in l.uris.value ==> Clean(u.uriMatch) && Clean(u.uri))
  }

  /** No covered string of the record is blank but present. */
  predicate ItemClean(it: Item) {
    && Clean(it.id) && Clean(it.organizationId) && Clean(it.folderId) && Clean(it.name) && Clean(it.notes)
    && (it.fields.Some? ==> forall f :: f in it.fields.value ==> Clean(f.name) && Clean(f.value))
    && (it.login.Some? ==> LoginClean(it.login.value))
  }

  /** Normalizing twice is normalizing once. */
  lemma NullIfBlankIdempotent(s: Option<string>)
    ensures NullIfBlank(NullIfBlank(s)) == NullIfBlank(s)
  {
  }

  /**
   * A normalized folder has its id and its name each nulled if blank and kept
   * otherwise; it is clean, and a clean folder is left as it is.
   */
  lemma NormalizeFolderFacts(f: Folder)
    ensures BlankBecomesNull(f.id, NormalizeFolder(f).id) && BlankBecomesNull(f.name, NormalizeFolder(f).name)
    ensures FolderClean(NormalizeFolder(f))
    ensures FolderClean(f) ==> NormalizeFolder(f) == f
  {
  }

  /**
   * Each normalized field has its name and value each nulled if blank and kept
   * otherwise, and keeps its type and linked id. Normalized fields are clean, and
   * clean fields are left as they are.
   */
  lemma NormalizeFieldsFacts(fs: seq<Field>)
    ensures |NormalizeFields(fs)| == |fs|
    ensures forall i :: 0 <= i < |fs| ==>
              var f, n := fs[i], NormalizeFields(fs)[i];
              && BlankBecomesNull(f.name, n.name) && BlankBecomesNull(f.value, n.value)
              && n.fieldType == f.fieldType && n.linkedId == f.linkedId
    ensures forall f :: f in NormalizeFields(fs) ==> Clean(f.name) && Clean(f.value)
    ensures (forall f :: f in fs ==> Clean(f.name) && Clean(f.value)) ==> NormalizeFields(fs) == fs
  {
    var nf := NormalizeFields(fs);
    forall f | f in nf ensures Clean(f.name) && Clean(f.value) {
      var i :| 0 <= i < |nf| && nf[i] == f;
      assert f == NormalizeField(fs[i]);
    }
    if forall f :: f in fs ==> Clean(f.name) && Clean(f.value) {
      forall i | 0 <= i < |fs| ensures nf[i] == fs[i] {
        assert fs[i] in fs;
      }
    }
  }

  /**
   * A normalized login has its username, password and TOTP, and each URI's match
   * and value, nulled if blank and kept otherwise. It keeps its URI list's presence
   * and length, it is clean, and a clean login is left as it is.
   */
  lemma NormalizeLoginFacts(l: Login)
    ensures var n := NormalizeLogin(l);
            BlankBecomesNull(l.username, n.username) && BlankBecomesNull(l.password, n.password)
            && BlankBecomesNull(l.totp, n.totp)
    ensures LoginClean(NormalizeLogin(l))
    ensures NormalizeLogin(l).uris.Some? <==> l.uris.Some?
    ensures l.uris.Some? ==> |NormalizeLogin(l).uris.value| == |l.uris.value|
    ensures l.uris.Some? ==>
              forall i :: 0 <= i < |l.uris.value| ==>
                var u, v := l.uris.value[i], NormalizeLogin(l).uris.value[i];
                BlankBecomesNull(u.uriMatch, v.uriMatch) && BlankBecomesNull(u.uri, v.uri)
    ensures LoginClean(l) ==> NormalizeLogin(l) == l
  {
    if l.uris.Some? {
      var us := l.uris.value;
      var nu := NormalizeUris(us);
      forall u | u in nu ensures Clean(u.uriMatch) && Clean(u.uri) {
        var i :| 0 <= i < |nu| && nu[i] == u;
        assert u == NormalizeUri(us[i]);
      }
      if LoginClean(l) {
        forall i | 0 <= i < |us| ensures nu[i] == us[i] {
          assert us[i] in us;
        }
        assert nu == us;
      }
    }
  }

  /**
   * A normalized record has its id, organization id, folder id, name and notes
   * each nulled if blank and kept otherwise, and so has every covered string of
   * its fields and its login. It keeps its field list and login exactly when it
   * had them, with the same number of fields, each keeping its type and linked
   * id; every property that is not covered (collections, history, dates, type,
   * favorite, card, identity, secure note) is unchanged.
   */
  lemma NormalizeItemFacts(it: Item)
    ensures var n := NormalizeItem(it);
            && BlankBecomesNull(it.id, n.id) && BlankBecomesNull(it.organizationId, n.organizationId)
            && BlankBecomesNull(it.folderId, n.folderId) && BlankBecomesNull(it.name, n.name)
            && BlankBecomesNull(it.notes, n.notes)
    ensures var n := NormalizeItem(it);
            it.fields.Some? ==>
              forall i :: 0 <= i < |it.fields.value| ==>
                BlankBecomesNull(it.fields.value[i].name, n.fields.value[i].name)
                && BlankBecomesNull(it.fields.value[i].value, n.fields.value[i].value)
    ensures var n := NormalizeItem(it);
            it.login.Some? ==>
              var l, m := it.login.value, n.login.value;
              && BlankBecomesNull(l.username, m.username) && BlankBecomesNull(l.password, m.password)
              && BlankBecomesNull(l.totp, m.totp)
              && (l.uris.Some? ==>
                    forall i :: 0 <= i < |l.uris.value| ==>
                      BlankBecomesNull(l.uris.value[i].uriMatch, m.uris.value[i].uriMatch)
                      && BlankBecomesNull(l.uris.value[i].uri, m.uris.value[i].uri))
    ensures var n := NormalizeItem(it);
            && (n.fields.Some? <==> it.fields.Some?)
            && (n.login.Some? <==> it.login.Some?)
            && (it.fields.Some? ==>
                  |n.fields.value| == |it.fields.value|
                  && forall i :: 0 <= i < |it.fields.value| ==>
                       n.fields.value[i].fieldType == it.fields.value[i].fieldType
                       && n.fields.value[i].linkedId == it.fields.value[i].linkedId)
            && n.collectionIds == it.collectionIds
            && n.passwordHistory == it.passwordHistory
            && n.itemType == it.itemType && n.reprompt == it.reprompt && n.favorite == it.favorite
            && n.revisionDate == it.revisionDate && n.creationDate == it.creationDate
            && n.deletedDate == it.deletedDate && n.archivedDate == it.archivedDate
            && n.secureNote == it.secureNote && n.card == it.card && n.identity == it.identity
  {
    if it.login.Some? {
      NormalizeLoginFacts(it.login.value);
    }
  }

  /** Normalizing a second time changes nothing. */
  lemma NormalizeItemIdempotent(it: Item)
    ensures NormalizeItem(NormalizeItem(it)) == NormalizeItem(it)
  {
  }

  /**
   * `EnsureNonNullProperties(vault)`: every folder and every non-null record is
   * normalized in place; a null vault is left alone.
   */
  method EnsureNonNullProperties(vault: Vault?)
    modifies vault
    ensures vault != null ==>
              && |vault.folders| == |old(vault.folders)|
              && (forall i :: 0 <= i < |vault.folders| ==> vault.folders[i] == NormalizeFolder(old(vault.folders)[i]))
              && |vault.items| == |old(vault.items)|
              && (forall i :: 0 <= i < |vault.items| ==> vault.items[i] == NormalizeEntry(old(vault.items)[i]))
  {
    if vault == null {
      return;
    }
    var i := 0;
    while i < |vault.folders|
      invariant 0 <= i <= |vault.folders| == |old(vault.folders)|
      invariant forall j :: 0 <= j < i ==> vault.folders[j] == NormalizeFolder(old(vault.folders)[j])
      invariant forall j :: i <= j < |vault.folders| ==> vault.folders[j] == old(vault.folders)[j]
      invariant vault.items == old(vault.items)
    {
      var f := vault.folders[i];
      vault.folders := vault.folders[i := Folder(NullIfBlank(f.id), NullIfBlank(f.name))];
      i := i + 1;
    }
    i := 0;
    while i < |vault.items|
      invariant 0 <= i <= |vault.items| == |old(vault.items)|
      invariant forall j :: 0 <= j < i ==> vault.items[j] == NormalizeEntry(old(vault.items)[j])
      invariant forall j :: i <= j < |vault.items| ==> vault.items[j] == old(vault.items)[j]
      invariant |vault.folders| == |old(vault.folders)|
      invariant forall j :: 0 <= j < |vault.folders| ==> vault.folders[j] == NormalizeFolder(old(vault.folders)[j])
    {
      if vault.items[i].Some? {
        vault.items := vault.items[i := Some(NormalizeItem(vault.items[i].value))];
      }
      i := i + 1;
    }
  }
}
