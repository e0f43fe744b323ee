# sf-perms: merging field permissions into a permission set

sf-perms is a Salesforce CLI plugin. It grants field-level access in
permission-set metadata. A permission set is an XML document whose
`PermissionSet` root holds a list of `fieldPermissions` entries. Each entry
names a field as `Object.Field` and carries two flags, `readable` and
`editable`. The user picks an object, some of its fields and an access level
per field: `read`, `read_edit` or `none`. The plugin then merges that choice
into each selected permission set.

This project models the in-memory core of that merge.

- **`PermissionSetUpdater`** is the current updater.
  - It upserts every selected field under `Object.Field`.
  - An existing entry has its two flags overwritten. The first match wins.
  - A missing entry is inserted at the place a binary search over the list
    finds.
  - A root without the list gets an empty one. The root is then rebuilt with
    its keys in ascending order.
  - It also sniffs the document's indentation unit.
- **`FieldNewCommand`** is the older inline merge of the `perms field new`
  command.
  - It does the same lookup and overwrite.
  - It appends a missing entry with `push`.
  - It replaces an absent list by a one-entry list.
  - It also builds the prompt choices from file names.

Both merges are one specification, `FieldPermissions.ApplyLevels`. They
differ only in a `Placement` (`BinarySearch` or `Push`). The lemmas about
sortedness, uniqueness, grants, growth and idempotence are proved once about
that specification. Each imperative method is proved equal to it.

Modules:

- `StringOrder` (`string_order.dfy`):
  - JavaScript's `<` on strings, and therefore `Array.prototype.sort`: code-unit
    lexicographic order on `seq<char>`, with its order laws;
  - `Object.keys(...).sort()` as an insertion sort.
- `FieldPermissions` (`field_permissions.dfy`):
  - entries and the level → flags mapping;
  - `Array.prototype.find` and the bisection as functions;
  - the upsert specification and its lemmas.
- `PermissionSetDocument` (`permission_set.dfy`): the parsed `PermissionSet`
  root as a class.
  - Its own keys are kept in enumeration order.
  - The values of its other keys are opaque; the merge never looks into them.
  - The `fieldPermissions` list is a sequence that the methods reassign.
- `PermissionSetUpdater` (`permission_set_updater.dfy`):
  - `insertRespectingSorting` and the upsert loop of `updatePermissionSet`, as
    methods with loops;
  - `getIndentation` as an explicit scan of lines.
- `FieldNewCommand` (`field_new_command.dfy`): the command's append-variant loop
  and its choice builders.

Two behaviours of the code are worth stating, and the model keeps both.

- **Root rebuild.** When it creates the list, the code re-sorts all of the
  root's keys (`src/PermissionSetUpdater.ts:48-55`), including keys the merge
  never touches. It does this only then.
- **Unknown levels.** The code does not validate the level. Any string other
  than `read_edit` and `none` yields readable and not editable.

## Model

| member | source | states |
|---|---|---|
| StringOrder.Less | src/PermissionSetUpdater.ts:91 | Definition, no contract: `<` on strings, also the order of `sort()` at line 48, lexicographic on characters with a proper prefix first. Its laws are the lemmas below. |
| StringOrder.LessIrreflexive | src/PermissionSetUpdater.ts:91 | No key is `<` itself, so the bisection never treats an equal key as smaller. |
| StringOrder.LessAsymmetric | src/PermissionSetUpdater.ts:91 | `a < b` excludes `b < a`. |
| StringOrder.LessTransitive | src/PermissionSetUpdater.ts:91 | `<` on strings is transitive. |
| StringOrder.LessTotal | src/PermissionSetUpdater.ts:88-95 | Two strings are equal or ordered one way or the other, so the three branches of the bisection cover every case. |
| StringOrder.NotLessTransitive | src/PermissionSetUpdater.ts:48 | "Not less than" is transitive, which the key sort relies on. |
| StringOrder.LessCommonPrefix | src/PermissionSetUpdater.ts:91 | A common prefix does not affect the order of two strings. |
| StringOrder.InsertKey | src/PermissionSetUpdater.ts:48 | Inserting a key into ascending keys gives ascending keys with that key added to the multiset. |
| StringOrder.SortKeys | src/PermissionSetUpdater.ts:48 | `Object.keys(root).sort()` is an ascending permutation of the keys. |
| StringOrder.SortDistinctKeys | src/PermissionSetUpdater.ts:48-55 | Sorting distinct keys gives strictly ascending, distinct keys with exactly the same members. |
| StringOrder.DistinctAt | src/PermissionSetUpdater.ts:49-55 | Distinct keys differ at any two positions, so the rebuilt root has no key twice. |
| FieldPermissions.LevelAccess | src/PermissionSetUpdater.ts:61-62 | None gives (false, false), read gives (true, false), read_edit gives (true, true). Any other string gives (true, false). Editable always implies readable. |
| FieldPermissions.NewEntry | src/PermissionSetUpdater.ts:64-68 | A new entry has the qualified key and the flags the level maps to. |
| FieldPermissions.Regrant | src/PermissionSetUpdater.ts:60-62 | Overwriting keeps the key. Both flags become those the level maps to. |
| FieldPermissions.Qualified | src/PermissionSetUpdater.ts:40 | Definition, no contract: the key `Object.Field`, also built at `src/commands/perms/field/new.ts:118`. |
| FieldPermissions.QualifiedInjective | src/PermissionSetUpdater.ts:40 | Within one object, different field names give different keys `Object.Field`. |
| FieldPermissions.Find | src/PermissionSetUpdater.ts:58 | `find` returns the first index whose key is equal, or none when no key is. |
| FieldPermissions.FindFirst | src/commands/perms/field/new.ts:123-126 | With duplicates, the lookup picks the earliest entry with the key. |
| FieldPermissions.SortedIsUnique | src/PermissionSetUpdater.ts:82-99 | A strictly sorted list holds no key twice. |
| FieldPermissions.Mid | src/PermissionSetUpdater.ts:87 | `Math.floor((low + high) / 2)` lies within the non-empty bracket `[low, high]` and is the rounded-down half of `low + high`. |
| FieldPermissions.Splice | src/PermissionSetUpdater.ts:89 | Definition, no contract: `splice(i, 0, e)`, also used at line 98. Where each entry goes is stated by `SpliceAt`. |
| FieldPermissions.SpliceAt | src/PermissionSetUpdater.ts:89 | A splice keeps the entries before the index, puts the new entry at the index and moves every later entry one place back. |
| FieldPermissions.SearchPoint | src/PermissionSetUpdater.ts:83-98 | The bisection over `[low, high]` stops inside `[low, high + 1]`. |
| FieldPermissions.SearchPointSplits | src/PermissionSetUpdater.ts:83-98 | On a sorted list, every entry before the stop index has a smaller key, and no entry from it on has one. |
| FieldPermissions.SplitIsInsertSorted | src/PermissionSetUpdater.ts:98 | Splitting where the keys stop being smaller is ordered insertion. |
| FieldPermissions.SplitKeepsSorted | src/PermissionSetUpdater.ts:98 | Splicing a key between smaller and larger keys keeps the list sorted. |
| FieldPermissions.BinaryInsert | src/PermissionSetUpdater.ts:82-99 | Definition, no contract: splice the entry at the bisection's stop index. Its properties are the lemmas below. |
| FieldPermissions.BinaryInsertIsInsertSorted | src/PermissionSetUpdater.ts:82-99 | On a sorted list, binary insertion equals ordered insertion, the independent reference. |
| FieldPermissions.BinaryInsertKeepsSorted | src/PermissionSetUpdater.ts:82-99 | On a sorted list without the key, binary insertion keeps it sorted and makes it one longer. |
| FieldPermissions.BinaryInsertBeforeDuplicate | src/PermissionSetUpdater.ts:88-90 | On a sorted list, a key equal to an existing one is spliced in just before it. The old entry is not overwritten, and the list grows by one. |
| FieldPermissions.PlaceIndex | src/PermissionSetUpdater.ts:64-68 | The placement index is within the list. For `push` it is the end. For binary placement it is the stop index of the bisection over the whole list. |
| FieldPermissions.Upsert | src/PermissionSetUpdater.ts:58-69 | Definition, no contract: overwrite the flags of the first entry with the key, else splice `NewEntry` at `PlaceIndex`. The same pass is `src/commands/perms/field/new.ts:121-137` with `push`. |
| FieldPermissions.ApplyLevels | src/PermissionSetUpdater.ts:38-71 | Definition, no contract: the upserts of the selected fields in order, also `src/commands/perms/field/new.ts:116-147`. Every imperative merge is proved equal to it. |
| FieldPermissions.ApplyLevelsStep | src/PermissionSetUpdater.ts:38-71 | One more selected field is one more upsert on the result so far. |
| FieldPermissions.UpsertExisting | src/PermissionSetUpdater.ts:58-62 | Upserting a present key keeps the length. It keeps every other entry and the key of the first match, and gives that match the level's flags. |
| FieldPermissions.OverwriteIsUpsert | src/PermissionSetUpdater.ts:60-62 | The two in-place flag assignments on the found entry, applied one after the other, are the overwrite case of the upsert. The same holds for `src/commands/perms/field/new.ts:127-129`. |
| FieldPermissions.UpsertPushAppends | src/commands/perms/field/new.ts:131-136 | With `push`, a missing key is appended. Every earlier entry stays in place. |
| FieldPermissions.SpliceFields | src/PermissionSetUpdater.ts:98 | A splice adds exactly the new key and one to the length. |
| FieldPermissions.UpsertFields | src/PermissionSetUpdater.ts:58-69 | An upsert adds exactly its key to the key set. The length grows by one only if the key was missing. |
| FieldPermissions.UpsertKeepsUnique | src/PermissionSetUpdater.ts:58-69 | An upsert on a list without duplicates never creates one. A new entry is placed only when the lookup found no entry with its key. |
| FieldPermissions.UpsertKeepsFlagsConsistent | src/PermissionSetUpdater.ts:61-67 | An upsert keeps "editable implies readable" for every entry. |
| FieldPermissions.UpsertKeepsSorted | src/PermissionSetUpdater.ts:58-69 | Upserting into a sorted list keeps it sorted. |
| FieldPermissions.UpsertGrants | src/PermissionSetUpdater.ts:58-69 | After an upsert, the first entry with the key carries the level's flags. |
| FieldPermissions.UpsertKeepsOtherGrant | src/PermissionSetUpdater.ts:58-69 | An upsert leaves the grant of any other key as it was. |
| FieldPermissions.UpsertGrantedUnchanged | src/commands/perms/field/new.ts:127-129 | Upserting a key that already has the level's flags changes nothing. |
| FieldPermissions.QualifiedKeysSnoc | src/PermissionSetUpdater.ts:38-40 | The keys of a selection are the keys of its prefix plus the last one. |
| FieldPermissions.NewKeysSnoc | src/PermissionSetUpdater.ts:63-69 | Counting the new keys: one more key adds one exactly when it is new. |
| FieldPermissions.ApplyLevelsFields | src/PermissionSetUpdater.ts:38-71 | After the loop, the key set is the old one plus `object.f` for every selected `f`. The length grows by the number of those keys not already present. |
| FieldPermissions.ApplyLevelsKeepsSorted | src/PermissionSetUpdater.ts:38-71 | A list that starts sorted ends sorted, and therefore without duplicate keys. |
| FieldPermissions.ApplyLevelsKeepsUnique | src/PermissionSetUpdater.ts:38-71 | A list that starts without duplicates ends without them, with either placement. |
| FieldPermissions.ApplyLevelsKeepsFlagsConsistent | src/PermissionSetUpdater.ts:38-71 | "Editable implies readable" survives the whole merge. |
| FieldPermissions.ApplyLevelsGrants | src/PermissionSetUpdater.ts:38-71 | Every selected field ends up with the flags of its selected level. |
| FieldPermissions.ApplyLevelsToGranted | src/commands/perms/field/new.ts:116-147 | A list that already grants every selected level is left unchanged: each upsert takes the overwrite branch. |
| FieldPermissions.ApplyLevelsIdempotent | src/commands/perms/field/new.ts:116-147 | Merging the same selection twice gives the same list as merging it once. |
| FieldPermissions.TwoNewFieldsPushed | src/commands/perms/field/new.ts:116-147 | From an empty list, `push` keeps two new fields in selection order. |
| FieldPermissions.TwoNewFieldsSorted | src/PermissionSetUpdater.ts:38-71 | From an empty list, binary insertion puts a second, smaller key in front of the first. |
| PermissionSetDocument.PermissionSet.constructor | src/PermissionSetUpdater.ts:12-17 | A root as parsed: distinct keys, a value for each key other than `fieldPermissions`, and an empty list when that key is absent. |
| PermissionSetDocument.PermissionSet.HasFieldPermissions | src/PermissionSetUpdater.ts:43 | Definition, no contract: the test whether the root has a `fieldPermissions` list, also at `src/commands/perms/field/new.ts:121`. |
| PermissionSetDocument.AppendNewKey | src/commands/perms/field/new.ts:140 | Adding a key that is absent keeps the root's keys distinct. |
| PermissionSetUpdater.InsertRespectingSorting | src/PermissionSetUpdater.ts:82-99 | The list becomes the old one with the entry spliced in at the bisection's stop index, one longer. On a sorted list this is ordered insertion. If the key was absent, the list stays sorted. |
| PermissionSetUpdater.InsertionPoint | src/PermissionSetUpdater.ts:83-97 | The bisection loop keeps `0 <= low <= high + 1 <= length` and terminates. It stops at the index `SearchPoint` defines: the first probe with an equal key, or `low` when the bracket empties. |
| PermissionSetUpdater.BinaryInsertFacts | src/PermissionSetUpdater.ts:82-99 | Binary insertion adds one entry. On a sorted list it is ordered insertion, which stays sorted when the key is new. |
| PermissionSetUpdater.CreateFieldPermissions | src/PermissionSetUpdater.ts:45-56 | An empty list is installed. The root's keys become the sorted old keys plus `fieldPermissions`, strictly ascending. Every value is kept. |
| PermissionSetUpdater.UpsertFieldPermission | src/PermissionSetUpdater.ts:40-69 | One loop pass: the list is created if absent, the entry's flags are overwritten or a new entry is inserted. The result is the upsert specification with binary placement. The root is rebuilt only if the list was absent. |
| PermissionSetUpdater.UpdatePermissionSet | src/PermissionSetUpdater.ts:38-71 | The list ends as `ApplyLevels(BinarySearch, ...)` of the old one. Values are unchanged. The keys are re-sorted exactly when the list was absent and the selection non-empty; otherwise their order is untouched. |
| PermissionSetUpdater.InsertIsUpsert | src/PermissionSetUpdater.ts:63-68 | Inserting a new entry when the lookup fails is the insert case of the upsert. |
| PermissionSetUpdater.AddressFieldsOrder | src/PermissionSetUpdater.ts:91 | `Account.AddressString__c < Account.Address__c`, because `S` comes before `_`. |
| PermissionSetUpdater.AddNewFieldPermissionSorted | test/commands/perms/field/new.test.ts:31-90 | The test's selection merged by this updater into an empty list gives two entries in key order, with flags (readable, editable) of (true, true) and (true, false). |
| PermissionSetUpdater.IndentedAt | src/PermissionSetUpdater.ts:78 | Definition, no contract: a line starts at the position (start of text or after a line terminator) with a space or a tab. This is where the pattern's `^` anchor and its first space or tab match. |
| PermissionSetUpdater.IndentRun | src/PermissionSetUpdater.ts:78 | The run of spaces and tabs at a position is maximal and within the text. |
| PermissionSetUpdater.FirstIndented | src/PermissionSetUpdater.ts:78 | The earliest line start at or after a position where a space or tab follows, or none. |
| PermissionSetUpdater.GetIndentation | src/PermissionSetUpdater.ts:77-80 | The result is non-empty and only spaces and tabs. With no indented line it is two spaces. Otherwise it is the maximal leading run of the earliest indented line. |
| FieldNewCommand.UpdatePermissionSetAppending | src/commands/perms/field/new.ts:116-147 | The list ends as `ApplyLevels(Push, ...)` of the old one. Values are unchanged. `fieldPermissions` is appended to the root's keys exactly when it was absent and the selection non-empty. |
| FieldNewCommand.AppendFieldPermission | src/commands/perms/field/new.ts:118-147 | One loop pass is the `push` upsert. An absent list becomes a one-entry list holding the new entry. |
| FieldNewCommand.ApplyLevelsPushKeepsPrefix | src/commands/perms/field/new.ts:131-136 | With `push`, the entries already present keep their positions and keys. The list never shrinks. |
| FieldNewCommand.AddNewFieldPermission | test/commands/perms/field/new.test.ts:31-90 | The test's scenario: from no list, two entries, `Account.Address__c` with (readable, editable) of (true, false), then `Account.AddressString__c` with (true, true). |
| FieldNewCommand.Title | src/commands/perms/field/new.ts:36 | `split('.')[0]` is the longest prefix without a dot. It is the whole name when there is no dot; otherwise the first dot comes right after it. |
| FieldNewCommand.TitleOfDotted | src/commands/perms/field/new.ts:36 | For a dotless base name followed by `.` and an extension, the title is the base name. |
| FieldNewCommand.FileChoices | src/commands/perms/field/new.ts:35-43 | One choice per file, titled by the name before its first dot, with the full file name as value. |
| FieldNewCommand.FieldChoices | src/commands/perms/field/new.ts:65-68 | One choice per field file. Title and value are both the name's text before its first dot (the whole name when it has none). |
| FieldNewCommand.FieldChoiceOfMetadataFile | src/commands/perms/field/new.ts:65-68 | `Name.field-meta.xml` is offered as the field `Name`. |

## Left out

- File I/O is not modelled; the parsed root is the input and the final root is the result:
  - reading and writing the permission-set file;
  - directory listings;
  - path building.
- XML parsing and building, and the indentation handed to the builder, are a
  foreign library. The root is taken as already parsed, with
  `fieldPermissions` an array of entries.
  - The parser yields a bare object, not an array, for a single
    `fieldPermissions` element. That case is not modelled.
- Prompts, the command framework, messages and the returned result object
  are input and output plumbing. The selections are parameters.
- The command's `forEach(async ...)` over permission sets and its file
  rewrite after every field are concurrency and I/O. Only the final
  in-memory merge of one permission set is modelled.
- The `hasOwnProperty` guard is not modelled. The selection is a sequence of
  (name, level) pairs in `for ... in` order, so every pair is an own property.
- JavaScript's ordering of integer-like object keys before others is not
  modelled. Root keys keep insertion order, and a new key goes last.
- String order compares `char` values. JavaScript compares UTF-16 code units,
  so strings containing characters beyond U+FFFF may order differently.
- Entry objects are values. The aliasing between the found entry and the
  array slot, which makes the in-place flag assignment visible in the
  array, is modelled by writing the updated entry back into the sequence.
- The in-place `splice` and `push` are modelled as reassignment of the
  list field.
- The `/^( |\t)+/m` regex is modelled by a scan. `^` matches at the start
  of the text and after `\n`, `\r`, U+2028 and U+2029.
- PermissionSetUpdater.InsertRespectingSorting: the source splices inside the
  loop when a probe hits an equal key, and after the loop otherwise. The
  model runs the loop in `InsertionPoint`, which returns the index at both
  exits, and splices once at that index. The resulting list is the same.
  The split of a sorted list at that index is proved about the specification
  function (`SearchPointSplits`), not as a loop invariant.
