/** The current updater: merges a field → access-level selection for one object into
    a permission set, keeping `fieldPermissions` sorted by binary-search insertion,
    and sniffs the document's indentation unit. */
module PermissionSetUpdater {
  import opened StringOrder
  import opened FieldPermissions
  import opened PermissionSetDocument

  /** `insertRespectingSorting`: splices the new entry in where the bisection
      stops, so into its sorted place on a sorted list; an entry with an equal
      key makes the new one go just before it. */
  method InsertRespectingSorting(doc: PermissionSet, newFieldPermission: FieldPermission)
    modifies doc`fieldPermissions
    ensures doc.fieldPermissions == BinaryInsert(old(doc.fieldPermissions), newFieldPermission)
    ensures |doc.fieldPermissions| == |old(doc.fieldPermissions)| + 1
    ensures Sorted(old(doc.fieldPermissions)) ==>
      doc.fieldPermissions == InsertSorted(old(doc.fieldPermissions), newFieldPermission)
    ensures Sorted(old(doc.fieldPermissions)) && newFieldPermission.field !in Fields(old(doc.fieldPermissions)) ==>
      Sorted(doc.fieldPermissions)
  {
    var s := doc.fieldPermissions;
    var i := InsertionPoint(s, newFieldPermission.field);
    doc.fieldPermissions := Splice(s, i, newFieldPermission);
    BinaryInsertFacts(s, newFieldPermission);
  }

  /** The bisection loop of `insertRespectingSorting`: the index of the first
      probe whose key equals `key`, or `low` once the bracket is empty. Both are
      where the source splices. */
  method InsertionPoint(s: seq<FieldPermission>, key: string) returns (i: nat)
    ensures i <= |s| && i == SearchPoint(s, key, 0, |s| - 1)
  {
    ghost var point := SearchPoint(s, key, 0, |s| - 1);
    var low := 0;
    var high := |s| - 1;
    while low <= high
      invariant 0 <= low <= high + 1 <= |s|
      invariant SearchPoint(s, key, low, high) == point
      decreases high - low
    {
      var mid := Mid(low, high);
      if s[mid].field == key {
        return mid;
      } else if Less(s[mid].field, key) {
        low := mid + 1;
      } else {
        high := mid - 1;
      }
    }
    return low;
  }

  /** What binary insertion promises: one entry more, and on a sorted list the
      ordered insertion, which stays sorted when the key is new. */
  lemma BinaryInsertFacts(s: seq<FieldPermission>, e: FieldPermission)
    ensures |BinaryInsert(s, e)| == |s| + 1
    ensures Sorted(s) ==> BinaryInsert(s, e) == InsertSorted(s, e)
    ensures Sorted(s) && e.field !in Fields(s) ==> Sorted(BinaryInsert(s, e))
  {
    if Sorted(s) {
      BinaryInsertIsInsertSorted(s, e);
      if e.field !in Fields(s) {
        BinaryInsertKeepsSorted(s, e);
      }
    }
  }

  /** Installs an empty `fieldPermissions` list under a root that has none and
      rebuilds the root with all of its keys in ascending order, each keeping
      its value. */
  method CreateFieldPermissions(doc: PermissionSet)
    requires doc.Valid() && !doc.HasFieldPermissions()
    modifies doc
    ensures doc.Valid() && doc.HasFieldPermissions()
    ensures doc.fieldPermissions == []
    ensures doc.keys == SortKeys(old(doc.keys) + [FieldPermissionsKey])
    ensures StrictlyAscending(doc.keys)
    ensures doc.values == old(doc.values)
  {
    doc.fieldPermissions := [];
    AppendNewKey(doc.keys, FieldPermissionsKey);
    SortDistinctKeys(doc.keys + [FieldPermissionsKey]);
    doc.keys := SortKeys(doc.keys + [FieldPermissionsKey]);
  }

  /** One pass of the upsert loop for the qualified key `completeFieldName`:
      create the list if the root has none, then overwrite the flags of the
      first entry with that key or insert a new entry in sorted position. */
  method UpsertFieldPermission(doc: PermissionSet, completeFieldName: string, fieldPermissionSelected: string)
    requires doc.Valid()
    modifies doc
    ensures doc.Valid() && doc.HasFieldPermissions()
    ensures doc.fieldPermissions
      == Upsert(BinarySearch, old(doc.fieldPermissions), completeFieldName, fieldPermissionSelected)
    ensures doc.values == old(doc.values)
    ensures doc.keys == if old(doc.HasFieldPermissions()) then old(doc.keys)
                        else SortKeys(old(doc.keys) + [FieldPermissionsKey])
  {
    if !doc.HasFieldPermissions() {
      CreateFieldPermissions(doc);
    }
    ghost var before := doc.fieldPermissions;
    var fieldPermission := Find(doc.fieldPermissions, completeFieldName);
    if fieldPermission.Some? {
      var j := fieldPermission.value;
      doc.fieldPermissions := doc.fieldPermissions[j := doc.fieldPermissions[j].(editable := fieldPermissionSelected == ReadEdit)];
      doc.fieldPermissions := doc.fieldPermissions[j := doc.fieldPermissions[j].(readable := fieldPermissionSelected != NoAccess)];
      OverwriteIsUpsert(BinarySearch, before, completeFieldName, fieldPermissionSelected);
    } else {
      InsertRespectingSorting(doc, NewEntry(completeFieldName, fieldPermissionSelected));
      InsertIsUpsert(before, completeFieldName, fieldPermissionSelected);
    }
  }

  /** The upsert loop of `updatePermissionSet`: every selected field of the object,
      in order, is upserted under its qualified key `Object.Field`. The root is
      rebuilt with sorted keys only when it had no list and the selection is not
      empty; otherwise its key order is untouched. */
  method UpdatePermissionSet(doc: PermissionSet, fieldsPermissionSelected: seq<FieldLevel>, objectSelected: string)
    requires doc.Valid()
    modifies doc
    ensures doc.Valid()
    ensures doc.fieldPermissions
      == ApplyLevels(BinarySearch, old(doc.fieldPermissions), objectSelected, fieldsPermissionSelected)
    ensures doc.values == old(doc.values)
    ensures doc.keys == if fieldsPermissionSelected != [] && !old(doc.HasFieldPermissions())
                        then SortKeys(old(doc.keys) + [FieldPermissionsKey])
                        else old(doc.keys)
  {
    ghost var created := fieldsPermissionSelected != [] && !doc.HasFieldPermissions();
    var i := 0;
    while i < |fieldsPermissionSelected|
      invariant 0 <= i <= |fieldsPermissionSelected|
      invariant doc.Valid()
      invariant doc.values == old(doc.values)
      invariant doc.fieldPermissions
        == ApplyLevels(BinarySearch, old(doc.fieldPermissions), objectSelected, fieldsPermissionSelected[..i])
      invariant doc.keys == if i > 0 && created then SortKeys(old(doc.keys) + [FieldPermissionsKey]) else old(doc.keys)
      invariant i > 0 ==> doc.HasFieldPermissions()
    {
      var field := fieldsPermissionSelected[i].name;
      var fieldPermissionSelected := fieldsPermissionSelected[i].level;
      var completeFieldName := Qualified(objectSelected, field);
      UpsertFieldPermission(doc, completeFieldName, fieldPermissionSelected);
      ApplyLevelsStep(BinarySearch, old(doc.fieldPermissions), objectSelected, fieldsPermissionSelected, i);
      i := i + 1;
    }
    assert fieldsPermissionSelected[..i] == fieldsPermissionSelected;
  }

  lemma InsertIsUpsert(s: seq<FieldPermission>, key: string, level: string)
    requires Find(s, key).None?
    ensures BinaryInsert(s, NewEntry(key, level)) == Upsert(BinarySearch, s, key, level)
  {
  }

  /** `Account.AddressString__c` sorts before `Account.Address__c`: `S` comes
      before `_`. */
  lemma AddressFieldsOrder()
    ensures Less(Qualified("Account", "AddressString__c"), Qualified("Account", "Address__c"))
  {
    LessCommonPrefix("Account.Address", "String__c", "__c");
    assert Qualified("Account", "Address__c") == "Account.Address" + "__c";
    assert Qualified("Account", "AddressString__c") == "Account.Address" + "String__c";
  }

  /** The command's scenario run through this updater on an empty list: two
      entries with the selected flags, in key order. */
  lemma AddNewFieldPermissionSorted(obj: string, levels: seq<FieldLevel>)
    requires obj == "Account"
    requires levels == [FieldLevel("Address__c", "read"), FieldLevel("AddressString__c", "read_edit")]
    ensures ApplyLevels(BinarySearch, [], obj, levels)
      == [FieldPermission(true, "Account.AddressString__c", true), FieldPermission(false, "Account.Address__c", true)]
  {
    assert Qualified(obj, levels[0].name) == "Account.Address__c" by {}
    assert Qualified(obj, levels[1].name) == "Account.AddressString__c" by {}
    assert ApplyLevels(BinarySearch, [], obj, levels)
      == [NewEntry("Account.AddressString__c", "read_edit"), NewEntry("Account.Address__c", "read")] by {
      AddressFieldsOrder();
      TwoNewFieldsSorted(obj, levels[0], levels[1]);
      assert levels == [levels[0], levels[1]];
    }
  }

  // ---------------------------------------------------------------------------
  // Indentation sniffing: the first match of /^( |\t)+/m, or two spaces

  const DefaultIndentation := "  "

  predicate IsIndentChar(c: char) {
    c == ' ' || c == '\t'
  }

  /** The characters after which `^` matches in multiline mode. */
  predicate IsLineTerminator(c: char) {
    c == '\n' || c == '\r' || c == '\U{2028}' || c == '\U{2029}'
  }

  /** A line starts at `p` with a space or a tab. */
  predicate IndentedAt(text: string, p: nat) {
    p < |text| && (p == 0 || IsLineTerminator(text[p - 1])) && IsIndentChar(text[p])
  }

  /** The length of the run of spaces and tabs starting at `p`. */
  function IndentRun(text: string, p: nat): (n: nat)
    requires p <= |text|
    ensures p + n <= |text|
    ensures forall k :: p <= k < p + n ==> IsIndentChar(text[k])
    ensures p + n < |text| ==> !IsIndentChar(text[p + n])
    decreases |text| - p
  {
    if p < |text| && IsIndentChar(text[p]) then 1 + IndentRun(text, p + 1) else 0
  }

  /** The earliest position from `from` on where an indented line starts. */
  function FirstIndented(text: string, from: nat): (r: Option<nat>)
    requires from <= |text|
    ensures r.Some? ==> from <= r.value && IndentedAt(text, r.value)
    ensures r.Some? ==> forall q :: from <= q < r.value ==> !IndentedAt(text, q)
    ensures r.None? ==> forall q :: from <= q ==> !IndentedAt(text, q)
    decreases |text| - from
  {
    if from == |text| then None
    else if IndentedAt(text, from) then Some(from)
    else FirstIndented(text, from + 1)
  }

  /** `getIndentation`: the whole leading run of spaces and tabs of the first line
      that starts with one, or two spaces when no line does. */
  function GetIndentation(text: string): (r: string)
    ensures |r| > 0 && forall k :: 0 <= k < |r| ==> IsIndentChar(r[k])
    ensures (forall q: nat :: !IndentedAt(text, q)) ==> r == DefaultIndentation
    ensures (exists q: nat :: IndentedAt(text, q)) ==>
      exists p: nat :: && IndentedAt(text, p)
                       && (forall q: nat :: q < p ==> !IndentedAt(text, q))
                       && p + |r| <= |text| && r == text[p..p + |r|]
                       && (p + |r| == |text| || !IsIndentChar(text[p + |r|]))
  {
    match FirstIndented(text, 0)
    case Some(p) =>
      var r := text[p..p + IndentRun(text, p)];
      assert r == text[p..p + |r|];
      r
    case None => DefaultIndentation
  }
}
