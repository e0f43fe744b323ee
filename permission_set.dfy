/** The `PermissionSet` root of a parsed permission-set document: its own keys
    in enumeration order, the values the merge never looks into, and the
    `fieldPermissions` list the merge maintains. */
module PermissionSetDocument {
  import opened StringOrder
  import opened FieldPermissions

  const FieldPermissionsKey := "fieldPermissions"

  /** A child of the root other than `fieldPermissions` (a scalar, a nested element
      or a list of them), carried through unchanged. */
  datatype Value = Value(content: string)

  class PermissionSet {
    /** The root's own keys, in the order an object enumerates them. */
    var keys: seq<string>
    /** The value of every key except `fieldPermissions`. */
    var values: map<string, Value>
    /** The entries under `fieldPermissions`, when that key is present. */
    var fieldPermissions: seq<FieldPermission>

    ghost predicate Valid()
      reads this
    {
      && Distinct(keys)
      && FieldPermissionsKey !in values
      && (forall k :: k in values <==> k in keys && k != FieldPermissionsKey)
      && (FieldPermissionsKey !in keys ==> fieldPermissions == [])
    }

    /** The truthiness test `PermissionSet.fieldPermissions`: the list is there
        (an empty list counts as there). */
    predicate HasFieldPermissions()
      reads this
    {
      FieldPermissionsKey in keys
    }

    /** The root as the parser hands it over. */
    constructor (keys: seq<string>, values: map<string, Value>, fieldPermissions: seq<FieldPermission>)
      requires Distinct(keys) && FieldPermissionsKey !in values
      requires forall k :: k in values <==> k in keys && k != FieldPermissionsKey
      requires FieldPermissionsKey !in keys ==> fieldPermissions == []
      ensures Valid()
      ensures this.keys == keys && this.values == values && this.fieldPermissions == fieldPermissions
    {
      this.keys := keys;
      this.values := values;
      this.fieldPermissions := fieldPermissions;
    }
  }

  /** Adding a key that is not there keeps the keys distinct. */
  lemma AppendNewKey(keys: seq<string>, k: string)
    requires Distinct(keys) && k !in keys
    ensures Distinct(keys + [k])
  {
    assert multiset(keys + [k]) == multiset(keys) + multiset{k};
    assert multiset(keys)[k] == 0;
  }
}
