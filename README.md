# Bitwarden duplicate merge tool, core model

A Dafny model of the decision logic of the Bitwarden duplicate merge tool. The
tool reads a Bitwarden JSON export and removes duplicate folders and items. The
model covers:

- **Folder reconciliation** (`FolderReconciler`). Folders are kept per
  case-insensitive name, and the first one seen wins. Folders with a blank name
  are dropped. An old-id to canonical-id table is built along the way.
- **Record reconciliation** (`Deduplicator`, `CompositeKey`). Records are
  grouped under a composite key: name, decimal type, non-blank username and
  non-blank URIs, joined with `|`. A repeated key is resolved in one of two
  ways: the latest record wins, or the older record is merged into the latest
  one. Folder ids are rewritten through the id table. The survivors are
  ordered newest first, by a stable sort. The summary's removed counts are
  derived from the original and remaining counts.
- **Record merger** (`RecordMerger`). `MergeItems`, `CloneItem`, `MergeLogin`,
  `CloneLogin` and `MergeFields`. Single strings follow "a non-blank base wins,
  else take the incoming value". `Favorite` is an OR. Missing dates are
  filled from the incoming record. Lists are order-preserving unions, each
  under its own notion of sameness.
- **Duplicate-group query** (`DuplicateGroups`). `FindDuplicateGroups` uses the
  same key and returns the keys shared by two or more records, in first-key
  order.
- **Index-set parser** (`IndexSets`). `ParseIndexSet` reads expressions such as
  `0,2,4-6`.
- **Blank-to-null normaliser** (`Normalizer`). `EnsureNonNullProperties`.
- **Interactive resolver** (`InteractiveSession`). A state machine over the
  group index, the quit flag, the working list and the groups. Its input is a
  sequence of command lines.

Each imperative operation is a method over the source's own state:

- `Deduplicate` and `EnsureNonNullProperties` update a `Vault` object in place.
- `FindDuplicateGroups` and `ParseIndexSet` build their result in loops.
- `RunSession` holds the `for`/`while` loops of the interactive resolver.

Each method is proved equal to a specification function on its inputs. The
list functions of `CompositeKey`, `DuplicateGroups` and `Deduplicator` take the
key function as a parameter, and the methods pass the composite key. The
properties of the tool are then lemmas about those functions. The pure merge
helpers are functions with lemmas.

Behaviour of the code as written that a reader may not expect (the model follows the code):

- A blank command line, and the end of input, which reads as an empty line,
  skip to the next group. They do not quit.
- In merge mode, when the stored record stays the latest, the older incoming
  record is merged without rewriting its folder id. If the latest record has
  no folder, the older record's folder id is taken over as is, even when the
  id table maps it to another folder. That can be the id of a folder that
  `Deduplicate` removed. The merge-mode result therefore depends on the order
  of the records: when the older record comes first, it is stored and remapped,
  and the survivor gets the table's id. In latest-wins mode, on the same records
  in either order, the survivor is the newer record with no folder.
  `Deduplicator.MergeModeKeepsUnmappedFolderId` shows all four results on one
  concrete vault.
- Merge mode is not idempotent. A merged record can gain a username or URI,
  and so a longer key, that another survivor already has. A second run then
  merges the two (`Deduplicator.MergeModeSecondRunRemovesMore`). A second
  latest-wins run removes nothing (`Deduplicator.LatestWinsSecondRun`).
- A record with no name, type 0 and no login has the key `|0`. Such records
  are not set aside as keyless: they all share that key. Any two of them are one
  duplicate group, and one of them is removed (`CompositeKey.NamelessKey`,
  `Deduplicator.NamelessRecordsCollapse`, `DuplicateGroups.NamelessRecordsGrouped`).
- The doc comment of `Deduplicate` says a null vault yields an empty summary,
  but the method dereferences the vault first. The model requires a vault.

## Model

| member | source | states |
|---|---|---|
| FolderReconciler.ReconcileFolders | BitwardenDuplicateMergeTool/Deduplicator.cs:112-160 | The folder loop returns exactly the first-seen folder of each non-blank case-insensitive name, in first-seen order, together with the id table the folder pass builds. |
| FolderReconciler.LookupKept | BitwardenDuplicateMergeTool/Deduplicator.cs:124-140 | Looking up a name among the kept folders finds the first input folder with that name, or nothing when no earlier folder has it. |
| FolderReconciler.TableKept | BitwardenDuplicateMergeTool/Deduplicator.cs:115-160 | The dictionary-building loop keeps exactly the reference list of first-seen folders. |
| FolderReconciler.TableIdMapStep | BitwardenDuplicateMergeTool/Deduplicator.cs:128-148 | One folder adds the entry its reference target describes, under its own id, and changes no other entry. |
| FolderReconciler.KeptFacts | BitwardenDuplicateMergeTool/Deduplicator.cs:115-162 | Every kept folder has a non-blank name, no two kept names are equal ignoring case, and every named input folder's name is among the kept ones. |
| FolderReconciler.KeptDistinct | BitwardenDuplicateMergeTool/Deduplicator.cs:124-140 | No two kept folders have names equal ignoring case. |
| FolderReconciler.KeptCovers | BitwardenDuplicateMergeTool/Deduplicator.cs:124-140 | Every folder with a non-blank name has a kept folder of the same name ignoring case. |
| FolderReconciler.KeptAllDistinct | BitwardenDuplicateMergeTool/Deduplicator.cs:124-140 | Folders that are all named, with names pairwise different ignoring case, are all kept, in order. |
| FolderReconciler.FirstIsKept | BitwardenDuplicateMergeTool/Deduplicator.cs:126-129 | The first folder with a given name is in the output. |
| FolderReconciler.TableIdMapKeys | BitwardenDuplicateMergeTool/Deduplicator.cs:128-148 | An id is in the table exactly when some folder maps it: a kept folder with a non-blank id maps to itself, and a duplicate maps only when both its id and the first folder's id are non-blank. |
| FolderReconciler.TableIdMapValues | BitwardenDuplicateMergeTool/Deduplicator.cs:128-148 | Each table entry is the target given by the last folder that maps that id. |
| FolderReconciler.TableTargetsKept | BitwardenDuplicateMergeTool/Deduplicator.cs:145-147 | Every value of the id table is the id of a kept folder. |
| CompositeKey.UriParts | BitwardenDuplicateMergeTool/Deduplicator.cs:189-196 | The URI parts of the key are at most as many as the URIs, and none is blank. |
| CompositeKey.KeyPrefix | BitwardenDuplicateMergeTool/Deduplicator.cs:179-202 | The key starts with the name (empty when absent), a bar separator and the decimal type. |
| CompositeKey.KeyParts | BitwardenDuplicateMergeTool/Deduplicator.cs:179-200 | The parts start with the name (empty when absent) and the decimal type. Every later part is non-blank. A record without a login has only those two parts. |
| CompositeKey.ItemKey | BitwardenDuplicateMergeTool/Deduplicator.cs:202-209 | The joined key is never blank, so the empty-key skip can never fire. |
| CompositeKey.JoinPrefix | BitwardenDuplicateMergeTool/Deduplicator.cs:202 | A join of two or more parts starts with the first part, the separator and the second part. |
| CompositeKey.NamelessKey | BitwardenDuplicateMergeTool/Deduplicator.cs:179-202 | A record with no name (or an empty one), type 0 and no login has the key made of a bar and the digit 0. |
| CompositeKey.KeyIsNotInjective | BitwardenDuplicateMergeTool/Deduplicator.cs:179-202 | A username `u` with no URI and a single URI `u` with no username give the same key, though the two records differ. |
| CompositeKey.KeyOrderDistinct | BitwardenDuplicateMergeTool/Deduplicator.cs:211-228 | The first-seen key order lists every key of the non-null records exactly once. |
| CompositeKey.KeyOrderCounts | BitwardenDuplicateMergeTool/Deduplicator.cs:166-228 | The number of distinct keys equals the length of the key order and is at most the number of non-null records. |
| CompositeKey.ItemsWithKeyNonEmpty | BitwardenDuplicateMergeTool/Deduplicator.cs:211-228 | A key has records exactly when it is the key of some non-null record. |
| CompositeKey.KeySetMembers | BitwardenDuplicateMergeTool/Deduplicator.cs:211-228 | A key is among the keys seen exactly when some non-null record has it. |
| CompositeKey.KeyOrderMembers | BitwardenDuplicateMergeTool/Deduplicator.cs:211-228 | A key is in the first-seen key order exactly when some non-null record has it. |
| CompositeKey.KeyOrderNoRepeats | BitwardenDuplicateMergeTool/Deduplicator.cs:211-228 | No key occurs twice in the first-seen key order. |
| Deduplicator.Remap | BitwardenDuplicateMergeTool/Deduplicator.cs:214-223 | Only the folder id changes. A non-blank folder id found in the table becomes its entry, and any other record is returned unchanged. |
| Deduplicator.Resolve | BitwardenDuplicateMergeTool/Deduplicator.cs:231-297 | For a repeated key, the incoming record wins only when strictly newer, and the result carries the winner's id and revision date. In merge mode the result is a favorite exactly when either record is. In latest-wins mode the result is the stored record or the remapped incoming one. |
| Deduplicator.ResolveDuplicate | BitwardenDuplicateMergeTool/Deduplicator.cs:229-297 | The duplicate branch of the record loop computes the resolution of the stored and the incoming record. |
| Deduplicator.Survivor | BitwardenDuplicateMergeTool/Deduplicator.cs:211-297 | Resolving a key's records from first to last gives a record with the id and revision date of the first record with the greatest revision date. |
| Deduplicator.FirstLatest | BitwardenDuplicateMergeTool/Deduplicator.cs:233-245 | It picks the index with the greatest revision date, absent counting as the minimum. Every earlier record is strictly older, so ties go to the first seen. |
| Deduplicator.LatestWinsSurvivor | BitwardenDuplicateMergeTool/Deduplicator.cs:269-297 | In latest-wins mode, a key's survivor is the first record with the greatest revision date, with only its folder id rewritten through the table. |
| Deduplicator.LatestWinsKeepsKey | BitwardenDuplicateMergeTool/Deduplicator.cs:269-297 | In latest-wins mode the survivor keeps the key of its group. |
| Deduplicator.LatestWinsFolderId | BitwardenDuplicateMergeTool/Deduplicator.cs:271-286 | In latest-wins mode the survivor's folder id is the table entry for the latest record's folder id when there is one, and otherwise that folder id unchanged. |
| Deduplicator.MergeSurvivorFavorite | BitwardenDuplicateMergeTool/Deduplicator.cs:236-264 | In merge mode the survivor is a favorite exactly when some record of the key is. |
| Deduplicator.MergeSurvivorAnyFavorite | BitwardenDuplicateMergeTool/Deduplicator.cs:236-264 | The merge-mode survivor's favorite flag is the OR of the flags of the records sharing its key, taken in vault order. |
| Deduplicator.MergeModeKeepsUnmappedFolderId | BitwardenDuplicateMergeTool/Deduplicator.cs:211-264 | One concrete vault: folder `2` duplicates folder `1`, and a newer record with no folder shares its key with an older record in folder `2`. In merge mode the survivor keeps the removed folder's id `2` when the newer record comes first, and gets the table's id `1` when it comes second. In latest-wins mode the survivor has no folder in either order. |
| Deduplicator.MergeModeKeepsOlderFolderId | BitwardenDuplicateMergeTool/Deduplicator.cs:236-264 | In merge mode, a stored latest record without a folder takes the incoming older record's folder id as is, without the table. |
| Deduplicator.CaseDuplicateFolderTable | BitwardenDuplicateMergeTool/Deduplicator.cs:115-148 | Two folders named `Work` and `work` give a table that maps both ids to the first folder's id. |
| Deduplicator.GroupItems | BitwardenDuplicateMergeTool/Deduplicator.cs:166-298 | The record loop stores one survivor per distinct key, in first-seen key order. Each survivor is the reference resolution of all records with that key, taken in vault order. |
| Deduplicator.ItemTableKeys | BitwardenDuplicateMergeTool/Deduplicator.cs:211-228 | After each record the table holds exactly the keys seen so far, in first-seen order. |
| Deduplicator.ItemTableEntries | BitwardenDuplicateMergeTool/Deduplicator.cs:211-297 | After each record every stored value is the reference survivor of the records seen so far with its key. |
| Deduplicator.SortByRecencyFacts | BitwardenDuplicateMergeTool/Deduplicator.cs:307-310 | The ordering is non-increasing in (revision date, creation date) and is a permutation of its input. |
| Deduplicator.SortByRecencyStable | BitwardenDuplicateMergeTool/Deduplicator.cs:307-310 | Records of equal (revision, creation) dates keep their relative order. |
| Deduplicator.SurvivorsSpec | BitwardenDuplicateMergeTool/Deduplicator.cs:166-307 | The stored values are, key by key in first-seen order, the survivors of the records sharing each key. |
| Deduplicator.SummaryCounts | BitwardenDuplicateMergeTool/Deduplicator.cs:307-312 | The remaining record count is the number of distinct keys. The removed record count is the original count minus that number. Neither removed count is negative. |
| Deduplicator.DeduplicatedOrder | BitwardenDuplicateMergeTool/Deduplicator.cs:307-310 | The vault's records come newest first. They are a permutation of the survivors and keep first-key order among equal dates. |
| Deduplicator.DistinctKeysCount | BitwardenDuplicateMergeTool/Deduplicator.cs:307-312 | A list of records with pairwise different keys has as many distinct keys as records. |
| Deduplicator.LatestWinsSecondRun | BitwardenDuplicateMergeTool/Deduplicator.cs:92-312 | A second latest-wins run on the output of the first removes no folder and no record. |
| Deduplicator.MergeModeSecondRunRemovesMore | BitwardenDuplicateMergeTool/Deduplicator.cs:211-264 | Three records, one with only a URI `u`, one with only a username `u` and one with both: a first merge-mode run keeps two records, and a second run on its output keeps one. |
| Deduplicator.ExampleKeys | BitwardenDuplicateMergeTool/Deduplicator.cs:179-202 | The URI-only and username-only records share a key. Their merge has the longer key of the record with both. |
| Deduplicator.ThreeRecordTable | BitwardenDuplicateMergeTool/Deduplicator.cs:211-264 | When the first two of three records share a key and the first is not older, merge mode stores the merge of the second into the first, then the third. |
| Deduplicator.NamelessRecordsCollapse | BitwardenDuplicateMergeTool/Deduplicator.cs:179-297 | Of two records with no name, type 0 and no login, one is removed, in either mode. |
| Deduplicator.LatestWinsKeysDistinct | BitwardenDuplicateMergeTool/Deduplicator.cs:211-297 | In latest-wins mode no two remaining records share a key. |
| Deduplicator.LatestWinsSurvivorKeys | BitwardenDuplicateMergeTool/Deduplicator.cs:211-297 | In latest-wins mode the survivors have pairwise different keys, in first-seen key order. |
| Deduplicator.Deduplicate | BitwardenDuplicateMergeTool/Deduplicator.cs:92-312 | The vault's folders become the kept folders and its records the ordered survivors. The returned summary holds the original and remaining counts. |
| RecordMerger.NonBlankStringsFacts | BitwardenDuplicateMergeTool/Deduplicator.cs:611 | The collection-id filter keeps exactly the non-blank ids and never lengthens the list. |
| RecordMerger.NonBlankIdempotent | BitwardenDuplicateMergeTool/Deduplicator.cs:611 | Filtering blank ids twice is filtering once. |
| RecordMerger.AppendNewByIsUnion | BitwardenDuplicateMergeTool/Deduplicator.cs:724-732 | The append-if-absent loop yields the base list followed by the new incoming entries. |
| RecordMerger.NewEntriesAreNew | BitwardenDuplicateMergeTool/Deduplicator.cs:679-685 | Every appended entry comes from the incoming list and has a key the base lacks. |
| RecordMerger.NewEntriesCoverKeys | BitwardenDuplicateMergeTool/Deduplicator.cs:532-541 | After the union every key of either list is present. |
| RecordMerger.NewEntriesDistinct | BitwardenDuplicateMergeTool/Deduplicator.cs:724-732 | No two appended entries share a key, since each is checked against those appended before it. |
| RecordMerger.MergedListFacts | BitwardenDuplicateMergeTool/Deduplicator.cs:716-736 | A merged list starts with the base's entries in order, continues with the new incoming entries, and holds every key of both lists. |
| RecordMerger.PreferNonBlank | BitwardenDuplicateMergeTool/Deduplicator.cs:516-521 | A non-blank base value is kept. A blank base is replaced by a non-blank incoming value. A blank incoming value leaves the base as it is, blank or not. The result is blank only when both are. |
| RecordMerger.CloneLoginFacts | BitwardenDuplicateMergeTool/Deduplicator.cs:697-706 | A login copy keeps username, password, TOTP and the URIs in order, always has a URI list, and copying it again changes nothing. |
| RecordMerger.CloneItem | BitwardenDuplicateMergeTool/Deduplicator.cs:585-648 | A record copy differs from its source only in login, fields and collection ids. A login is replaced by its login copy, and a missing one stays missing. The field list is the source's, or an empty one. The collection ids are the source's non-blank ids in order, and missing ids stay missing. |
| RecordMerger.CloneItemIdempotent | BitwardenDuplicateMergeTool/Deduplicator.cs:585-648 | Copying a copy changes nothing. |
| RecordMerger.MergeLogin | BitwardenDuplicateMergeTool/Deduplicator.cs:657-690 | Two null logins give null and one null login gives a copy of the other. Otherwise username, password and TOTP prefer the first non-blank value, and the URIs are the first login's followed by the second's new ones, compared ignoring case. |
| RecordMerger.MergeFields | BitwardenDuplicateMergeTool/Deduplicator.cs:716-736 | The fields are the base's followed by the incoming fields whose (case-insensitive name, type) is not yet present. |
| RecordMerger.MergeCollectionIds | BitwardenDuplicateMergeTool/Deduplicator.cs:531-543 | The base's ids come first, then the new non-blank incoming ids, compared ignoring case. An empty result is null. |
| RecordMerger.MergePasswordHistory | BitwardenDuplicateMergeTool/Deduplicator.cs:545-560 | The base's history comes first, then the incoming entries whose (password, date) pair is new. An empty result is null. |
| RecordMerger.MergeInto | BitwardenDuplicateMergeTool/Deduplicator.cs:514-576 | Taken from the base: id, organization, type, reprompt, revision date, card, identity and secure note. Name, notes and folder id are the base's unless blank. The other dates are the base's unless absent. Favorite is the OR. The lists are the unions above. |
| RecordMerger.MergeIntoLogin | BitwardenDuplicateMergeTool/Deduplicator.cs:526 | The merged record's login is the merge of the base's copied login with the incoming login. |
| RecordMerger.MergeItems | BitwardenDuplicateMergeTool/Deduplicator.cs:507-577 | A null base is an error (the argument-null exception). A null incoming record gives a copy of the base. Otherwise the result is the field-by-field merge. |
| DuplicateGroups.GroupTableSpec | BitwardenDuplicateMergeTool/Deduplicator.cs:746-785 | The dictionary loop collects, for every key in first-seen order, all records with that key in vault order. |
| DuplicateGroups.GroupTableOrder | BitwardenDuplicateMergeTool/Deduplicator.cs:746-785 | The loop's key order is the first-seen key order, and its keys are the keys of the non-null records. |
| DuplicateGroups.GroupTableLists | BitwardenDuplicateMergeTool/Deduplicator.cs:746-785 | Each key's list holds all records with that key, in vault order. |
| DuplicateGroups.SelectGroupsIsReference | BitwardenDuplicateMergeTool/Deduplicator.cs:788-790 | Selecting the entries with more than one record is the reference list of groups. |
| DuplicateGroups.GroupsOfShape | BitwardenDuplicateMergeTool/Deduplicator.cs:788-790 | Every group has at least two records, and exactly the records with its key. |
| DuplicateGroups.GroupsOfComplete | BitwardenDuplicateMergeTool/Deduplicator.cs:788-790 | Every key shared by two or more records has a group. |
| DuplicateGroups.FindDuplicateGroups | BitwardenDuplicateMergeTool/Deduplicator.cs:744-791 | A null vault has no groups. Otherwise the result is the reference list of duplicate groups of the vault's records. |
| DuplicateGroups.DuplicateGroupsFacts | BitwardenDuplicateMergeTool/Deduplicator.cs:744-791 | Each group holds two or more records sharing its key, in vault order. The group keys are the shared keys in first-seen order, each once. No record is in two groups. Every shared key has a group. |
| DuplicateGroups.NamelessRecordsGrouped | BitwardenDuplicateMergeTool/Deduplicator.cs:753-790 | Two records with no name, type 0 and no login form one duplicate group under their shared key, holding both in vault order. |
| IndexSets.AddToken | BitwardenDuplicateMergeTool/Program.cs:757-771 | One token adds exactly the indices it names. |
| IndexSets.OrderAscending | BitwardenDuplicateMergeTool/Program.cs:774 | The collected set is listed in ascending order. |
| IndexSets.IntervalContents | BitwardenDuplicateMergeTool/Program.cs:764-765 | The range loop adds exactly the integers between its two bounds. |
| IndexSets.AscendingFacts | BitwardenDuplicateMergeTool/Program.cs:774 | The ordered list is strictly ascending and holds exactly the set's members in the bound. |
| IndexSets.TokenIndicesInRange | BitwardenDuplicateMergeTool/Program.cs:757-771 | A token only names indices in `[0, maxExclusive)`. |
| IndexSets.TokenIndicesContents | BitwardenDuplicateMergeTool/Program.cs:757-771 | A range token names every in-bound index between its ends, whichever end comes first, so swapping the ends changes nothing. A single index names itself when in bound. Any other token names nothing. |
| IndexSets.IndicesUpToUnion | BitwardenDuplicateMergeTool/Program.cs:751-772 | An index is collected exactly when one of the comma-separated tokens names it. |
| IndexSets.IndexSetInRange | BitwardenDuplicateMergeTool/Program.cs:747-772 | Every collected index is in the bound, and a blank expression collects none. |
| IndexSets.IndexList | BitwardenDuplicateMergeTool/Program.cs:745-775 | The result is strictly ascending, without repetitions, and holds exactly the named indices, all in the bound. A blank expression gives an empty list. |
| IndexSets.ParseIndexSet | BitwardenDuplicateMergeTool/Program.cs:745-775 | The parser method returns the list described by `IndexList`. |
| Normalizer.NullIfBlank | BitwardenDuplicateMergeTool/Program.cs:681 | A blank string becomes null, a non-blank one is kept, and the result is never blank-but-present. |
| Normalizer.NormalizeFolderFacts | BitwardenDuplicateMergeTool/Program.cs:675-684 | The folder id and name are each null when blank and unchanged otherwise. A normalized folder is clean, and a clean folder is left as it is. |
| Normalizer.NormalizeLoginFacts | BitwardenDuplicateMergeTool/Program.cs:715-728 | Username, password and TOTP, and each URI's match and value, are each null when blank and unchanged otherwise. The URI list keeps its presence and length. A normalized login is clean, and a clean login is left as it is. |
| Normalizer.NormalizeItem | BitwardenDuplicateMergeTool/Program.cs:689-731 | A normalized record is clean. Its id, organization id, folder id, name and notes are each null when blank and unchanged otherwise. A record without blank covered strings is left as it is. |
| Normalizer.NormalizeFieldsFacts | BitwardenDuplicateMergeTool/Program.cs:701-711 | Each field's name and value are each null when blank and unchanged otherwise, and its type and linked id are kept. Normalized fields are clean, and clean fields are left as they are. |
| Normalizer.NormalizeItemFacts | BitwardenDuplicateMergeTool/Program.cs:689-731 | Every covered string of the record, its fields and its login is null when blank and unchanged otherwise. No field list or login is created or dropped. Field count, types and linked ids are kept. Every property the normaliser does not cover is unchanged. |
| Normalizer.NormalizeItemIdempotent | BitwardenDuplicateMergeTool/Program.cs:689-731 | Normalizing a second time changes nothing. |
| Normalizer.NullIfBlankIdempotent | BitwardenDuplicateMergeTool/Program.cs:681 | Turning blanks to null twice is doing it once. |
| Normalizer.EnsureNonNullProperties | BitwardenDuplicateMergeTool/Program.cs:670-734 | A null vault is left alone. Otherwise every folder and every non-null record is normalized in place, null entries stay null, and the list lengths are kept. By the lemmas above, each covered string becomes null when blank and is otherwise unchanged. |
| InteractiveSession.FirstSpace | BitwardenDuplicateMergeTool/Program.cs:300-301 | The split point is the first space, or the end of the line when there is none. |
| InteractiveSession.ParseCommandOfWord | BitwardenDuplicateMergeTool/Program.cs:300-303 | A line made of a command word, a space and an argument reads as the lower-cased word and the trimmed argument. A word alone reads with an empty argument. |
| InteractiveSession.ParseCommandFacts | BitwardenDuplicateMergeTool/Program.cs:295-303 | A trimmed line is blank exactly when it is white space only. A command word has no upper-case letter. |
| InteractiveSession.Selected | BitwardenDuplicateMergeTool/Program.cs:334 | The selection holds the group's records at the parsed indices, in that order. |
| InteractiveSession.MergeAll | BitwardenDuplicateMergeTool/Program.cs:335 | The left fold of the merge keeps the first selected record's id, organization, revision date and type. The result is a favorite exactly when some selected record is. |
| InteractiveSession.FindIndexById | BitwardenDuplicateMergeTool/Program.cs:338-339 | Finds the first record with the id (a null id matching a null id). It reports none only when no record has it. |
| InteractiveSession.ReplaceFirstMembers | BitwardenDuplicateMergeTool/Program.cs:339-342 | When a record has the id, the first such record's slot holds the merged record and nothing else changes. Otherwise the list is unchanged. The result holds every other record and nothing but them and the merged record. |
| InteractiveSession.NonBlankIdsMembers | BitwardenDuplicateMergeTool/Program.cs:343-344 | The removal set holds exactly the non-blank ids of the given records. |
| InteractiveSession.WithoutMembers | BitwardenDuplicateMergeTool/Program.cs:346 | Removal by id keeps exactly the records whose id is null or not removed. |
| InteractiveSession.WithoutConcat | BitwardenDuplicateMergeTool/Program.cs:346 | Removal by id filters each part of a concatenation separately, so the kept records stay in their relative order. |
| InteractiveSession.WithoutNothing | BitwardenDuplicateMergeTool/Program.cs:346 | Removing ids that no record has changes nothing. |
| InteractiveSession.WithoutIdempotent | BitwardenDuplicateMergeTool/Program.cs:346 | Removing the same ids twice is removing them once. |
| InteractiveSession.Exec | BitwardenDuplicateMergeTool/Program.cs:305-410 | No command changes the number of groups, and a blank line advances to the next group. |
| InteractiveSession.MergeCommandFacts | BitwardenDuplicateMergeTool/Program.cs:324-356 | `m` with fewer than two valid indices changes nothing. Otherwise the working list is the old one with the merge of the selection in place of the first record with the first selected id (unchanged when none has it), then filtered of the other selected non-blank ids, in order. The group view loses the same ids. Every other record stays, no other group changes, and the session advances. |
| InteractiveSession.DeleteCommandFacts | BitwardenDuplicateMergeTool/Program.cs:357-378 | `d` with no valid index changes nothing. Otherwise the selected non-blank ids leave both the working list and the group view, every other record stays, and the session leaves the group exactly when at most one record is left. |
| InteractiveSession.KeepCommandFacts | BitwardenDuplicateMergeTool/Program.cs:379-389 | `k` reduces the group view to its first record and removes the other records' non-blank ids from the working list, keeping every other record, and advances. |
| InteractiveSession.NavigationFacts | BitwardenDuplicateMergeTool/Program.cs:390-410 | A blank line, `s` and `n` advance. `p` goes to the previous group but not before the first. `q` ends the session. `v` and unknown commands stay. None of them changes the records or the groups. |
| InteractiveSession.QuitEndsSession | BitwardenDuplicateMergeTool/Program.cs:401-405 | After `q` no further line is read, and the remaining groups are left as they are. |
| InteractiveSession.EndOfInputSkips | BitwardenDuplicateMergeTool/Program.cs:295-301 | At the end of input every remaining group is skipped and nothing changes. |
| InteractiveSession.ExecShrinks | BitwardenDuplicateMergeTool/Program.cs:305-410 | No command makes the working list longer. |
| InteractiveSession.RunShrinks | BitwardenDuplicateMergeTool/Program.cs:262-412 | A session always ends, with every group passed or `q` given. Over a whole session the working list never grows, and the number of groups stays the same. |
| InteractiveSession.ExecuteCommand | BitwardenDuplicateMergeTool/Program.cs:305-410 | The command chain computes the command's step function. It stays in the group only without moving or quitting. |
| InteractiveSession.LocalParseIndexSetAsWritten | BitwardenDuplicateMergeTool/Program.cs:258 | The local wrapper as written returns no list, whatever the stack depth left. |
| InteractiveSession.LocalWrapperNeverReturns | BitwardenDuplicateMergeTool/Program.cs:258 | As written, the local index-set wrapper calls itself and returns no list at any stack depth, whereas the static helper returns one for every expression. |
| InteractiveSession.Prompt | BitwardenDuplicateMergeTool/Program.cs:295-303 | One prompt reads a line, with the end of input read as an empty line, and takes one step of the session function. A blank line leaves the group. |
| InteractiveSession.PromptGroup | BitwardenDuplicateMergeTool/Program.cs:266-411 | The prompts of one group, up to the command that leaves it, are a prefix of the session function. They read at least one line or move on to the next group, and keep the number of groups. |
| InteractiveSession.RunSession | BitwardenDuplicateMergeTool/Program.cs:262-412 | The nested loops end with the working list and groups of the session function on the given lines. |
| InteractiveSession.Records | BitwardenDuplicateMergeTool/Program.cs:254 | The working list holds the vault's records in order. |
| InteractiveSession.InspectDuplicates | BitwardenDuplicateMergeTool/Program.cs:243-414 | With duplicate groups and a `y` answer (any case, trimmed), the session's working list replaces the vault's records. Otherwise the records are unchanged. The folders never change. |

## Left out

- Reading and writing files, JSON (de)serialization, console prompts and output, colours, the Markdown report, the before/after diff lists, and verbose diagnostics in `Deduplicate`. These are I/O and do not affect results. Console input is modelled as a sequence of lines and an answer string.
- `FormatItemLines` and `FormatItemDetails`. They produce display strings only. The `v` command is modelled as a step that changes nothing.
- Deduplicator.Deduplicate: requires a non-null vault, because the code dereferences it before any null check.
- A null `Folders` or `Items` list is modelled as an empty one. Null entries inside folder lists and inner record lists (URIs, fields, history, collection ids) are not modelled, because the declared types do not allow them. Null entries of `Items` are modelled.
- Case-insensitive comparison and `ToLowerInvariant` fold ASCII letters only. Blankness follows the `char.IsWhiteSpace` code points. `int.TryParse` accepts optional leading sign and decimal digits in the 32-bit range; culture and style details are not modelled. `int.ToString()` in the key is modelled with `-` as the negative sign. Under a culture with another negative sign, a record with a negative type would get another key. Bitwarden item types are positive.
- Deduplicate: the in-place rewrite of a record's `FolderId` (which also alters the input record object, and so any alias of it) is modelled on values. The model shows the rewritten copy only.
- `DuplicateGroup` is modelled as a value. The interactive loop's `g.Items = ...` updates the group in the session's group list, which is the only place it is read.
- Normalizer.EnsureNonNullProperties: the inner loops over fields and URIs are modelled as element-wise maps inside the record loop, not as separate loops.
- InteractiveSession.InspectDuplicates: requires that the vault has no null records. This holds because `Deduplicate` runs first and stores only non-null records; on a null record the source's lambdas would throw.
- InteractiveSession.LocalParseIndexSetAsWritten: the runtime stack is modelled as a depth parameter, and its exhaustion as no result.
- The loop models call the static `ParseIndexSet` helper, as the local wrapper evidently intended (see Findings).
- Card, identity and secure-note contents are opaque values. They are copied but never inspected.
- The empty-key skip in `Deduplicate` (Deduplicator.cs:203-209) and in `FindDuplicateGroups` (Deduplicator.cs:778-779) is not modelled as a branch. It is dead code, because `CompositeKey.ItemKey` proves that a key always contains the type's last digit.
- The session record of `PromptGroup` and `RunSession` bundles the loop locals `gIdx`, `quitAll`, `itemsList` and `groups`. `PromptGroup` returns the group index after the `for` loop's increment.

## Findings

| source | as written | input that shows it | evidently intended | confidence | as-written member | corrected member |
|---|---|---|---|---|---|---|
| BitwardenDuplicateMergeTool/Program.cs:258 | The local function `ParseIndexSet(input, maxExclusive) => ParseIndexSet(input, maxExclusive)` shadows the static helper of the same name, so its body calls itself. Every `v`, `m` or `d` command recurses until the stack overflows. | Any vault with a duplicate group, answer `y`, then the command `v 0` | Delegate to the static `Program.ParseIndexSet` at line 745, which returns the ascending in-bound indices | high (not executed) | InteractiveSession.LocalWrapperNeverReturns | IndexSets.ParseIndexSet |
