/** The interactive `perms field new` command: the choice lists it builds from
    directory listings, and its own variant of the merge, which appends new
    entries at the end instead of inserting them in sorted position. */
module FieldNewCommand {
  import opened StringOrder
  import opened FieldPermissions
  import opened PermissionSetDocument

  /** The merge loop of the command: every selected field of the object, in
      order, is upserted under `Object.Field`; an absent entry is pushed onto
      the end of the list, an absent list becomes a one-entry list whose key
      goes after the root's existing keys. */
  method UpdatePermissionSetAppending(doc: PermissionSet, fieldsPermissionSelected: seq<FieldLevel>, objectSelected: string)
    requires doc.Valid()
    modifies doc
    ensures doc.Valid()
    ensures doc.fieldPermissions
      == ApplyLevels(Push, old(doc.fieldPermissions), objectSelected, fieldsPermissionSelected)
    ensures doc.values == old(doc.values)
    ensures doc.keys == if fieldsPermissionSelected != [] && !old(doc.HasFieldPermissions())
                        then old(doc.keys) + [FieldPermissionsKey]
                        else old(doc.keys)
  {
    ghost var created := fieldsPermissionSelected != [] && !doc.HasFieldPermissions();
    var i := 0;
    while i < |fieldsPermissionSelected|
      invariant 0 <= i <= |fieldsPermissionSelected|
      invariant doc.Valid()
      invariant doc.values == old(doc.values)
      invariant doc.fieldPermissions
        == ApplyLevels(Push, old(doc.fieldPermissions), objectSelected, fieldsPermissionSelected[..i])
      invariant doc.keys == if i > 0 && created then old(doc.keys) + [FieldPermissionsKey] else old(doc.keys)
      invariant i > 0 ==> doc.HasFieldPermissions()
    {
      var field := fieldsPermissionSelected[i].name;
      var fieldPermissionSelected := fieldsPermissionSelected[i].level;
      var completeFieldName := Qualified(objectSelected, field);
      AppendFieldPermission(doc, completeFieldName, fieldPermissionSelected);
      ApplyLevelsStep(Push, old(doc.fieldPermissions), objectSelected, fieldsPermissionSelected, i);
      i := i + 1;
    }
    assert fieldsPermissionSelected[..i] == fieldsPermissionSelected;
  }

  /** One pass of the command's merge loop for the key `completeFieldName`. */
  method AppendFieldPermission(doc: PermissionSet, completeFieldName: string, fieldPermissionSelected: string)
    requires doc.Valid()
    modifies doc
    ensures doc.Valid() && doc.HasFieldPermissions()
    ensures doc.fieldPermissions
      == Upsert(Push, old(doc.fieldPermissions), completeFieldName, fieldPermissionSelected)
    ensures doc.values == old(doc.values)
    ensures doc.keys == if old(doc.HasFieldPermissions()) then old(doc.keys)
                        else old(doc.keys) + [FieldPermissionsKey]
    ensures !old(doc.HasFieldPermissions()) ==>
      doc.fieldPermissions == [NewEntry(completeFieldName, fieldPermissionSelected)]
  {
    var entry := FieldPermission(
      editable := fieldPermissionSelected == ReadEdit,
      field := completeFieldName,
      readable := fieldPermissionSelected != NoAccess);
    assert entry == NewEntry(completeFieldName, fieldPermissionSelected);
    ghost var before := doc.fieldPermissions;
    if doc.HasFieldPermissions() {
      var fieldPermission := Find(doc.fieldPermissions, completeFieldName);
      if fieldPermission.Some? {
        var j := fieldPermission.value;
        doc.fieldPermissions := doc.fieldPermissions[j := doc.fieldPermissions[j].(editable := fieldPermissionSelected == ReadEdit)];
        doc.fieldPermissions := doc.fieldPermissions[j := doc.fieldPermissions[j].(readable := fieldPermissionSelected != NoAccess)];
        OverwriteIsUpsert(Push, before, completeFieldName, fieldPermissionSelected);
      } else {
        doc.fieldPermissions := doc.fieldPermissions + [entry];
        UpsertPushAppends(before, completeFieldName, fieldPermissionSelected);
      }
    } else {
      AppendNewKey(doc.keys, FieldPermissionsKey);
      doc.fieldPermissions := [entry];
      doc.keys := doc.keys + [FieldPermissionsKey];
      UpsertPushAppends([], completeFieldName, fieldPermissionSelected);
    }
  }

  /** With appending placement the entries already there keep their places and
      their keys; new keys only ever go after them. */
  lemma {:induction false} ApplyLevelsPushKeepsPrefix(s: seq<FieldPermission>, obj: string, levels: seq<FieldLevel>)
    ensures var r := ApplyLevels(Push, s, obj, levels);
      |s| <= |r| && forall i :: 0 <= i < |s| ==> r[i].field == s[i].field
    decreases |levels|
  {
    if levels != [] {
      var n := |levels| - 1;
      ApplyLevelsPushKeepsPrefix(s, obj, levels[..n]);
    }
  }

  /** The command's own scenario: `Address__c` read and `AddressString__c`
      read/edit on `Account`, merged into a set without field permissions, give
      two entries with readable/editable of (true, false) and (true, true). */
  lemma AddNewFieldPermission(obj: string, levels: seq<FieldLevel>)
    requires obj == "Account"
    requires levels == [FieldLevel("Address__c", "read"), FieldLevel("AddressString__c", "read_edit")]
    ensures ApplyLevels(Push, [], obj, levels)
      == [FieldPermission(false, "Account.Address__c", true), FieldPermission(true, "Account.AddressString__c", true)]
  {
    assert Qualified(obj, levels[0].name) == "Account.Address__c" by {}
    assert Qualified(obj, levels[1].name) == "Account.AddressString__c" by {}
    TwoNewFieldsPushed(obj, levels[0], levels[1]);
  }

  // ---------------------------------------------------------------------------
  // Choice lists for the prompts

  /** A prompt choice: the text shown and the value returned when picked. */
  datatype Choice = Choice(title: string, value: string)

  /** `file.split('.')[0]`: the part of a file name before its first dot, or the
      whole name when it has none. */
  function Title(file: string): (r: string)
    ensures r <= file
    ensures '.' !in r
    ensures |r| < |file| ==> file[|r|] == '.'
    decreases |file|
  {
    if file == [] || file[0] == '.' then []
    else [file[0]] + Title(file[1..])
  }

  /** A dotless base name followed by an extension gives back the base name. */
  lemma {:induction false} TitleOfDotted(name: string, ext: string)
    requires '.' !in name
    ensures Title(name + "." + ext) == name
    decreases |name|
  {
    if name != [] {
      assert (name + "." + ext)[1..] == name[1..] + "." + ext;
      TitleOfDotted(name[1..], ext);
    }
  }

  /** Choices for permission-set and object files: the name without its
      extensions is shown, the full file name is the value. */
  function FileChoices(files: seq<string>): (cs: seq<Choice>)
    ensures |cs| == |files|
    ensures forall i :: 0 <= i < |files| ==> cs[i] == Choice(Title(files[i]), files[i])
  {
    seq(|files|, i requires 0 <= i < |files| => Choice(Title(files[i]), files[i]))
  }

  /** Choices for field files: the name without its extensions is both shown and
      returned, so the selection speaks of field names. */
  function FieldChoices(files: seq<string>): (cs: seq<Choice>)
    ensures |cs| == |files|
    ensures forall i :: 0 <= i < |files| ==> cs[i] == Choice(Title(files[i]), Title(files[i]))
    ensures forall i :: 0 <= i < |files| ==> cs[i].title == cs[i].value && cs[i].value <= files[i]
    ensures forall i :: 0 <= i < |files| ==> '.' !in cs[i].value
    ensures forall i :: 0 <= i < |files| && |cs[i].value| < |files[i]| ==> files[i][|cs[i].value|] == '.'
  {
    seq(|files|, i requires 0 <= i < |files| => Choice(Title(files[i]), Title(files[i])))
  }

  /** A field file `Name.field-meta.xml` is offered as the field `Name`. */
  lemma FieldChoiceOfMetadataFile(name: string)
    requires '.' !in name
    ensures FieldChoices([name + ".field-meta.xml"]) == [Choice(name, name)]
  {
    TitleOfDotted(name, "field-meta.xml");
    assert name + ".field-meta.xml" == name + "." + "field-meta.xml";
  }
}
