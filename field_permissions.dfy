/** The `fieldPermissions` collection of a permission set and the upsert that both
    updaters apply to it: find the entry by its exact `field`, overwrite its two flags,
    or place a new entry (by binary search, or at the end). */
module FieldPermissions {
  import opened StringOrder

  datatype Option<T> = None | Some(value: T)

  /** One `<fieldPermissions>` element of the document. */
  datatype FieldPermission = FieldPermission(editable: bool, field: string, readable: bool)

  /** One property of the field → access-level object, in `for…in` order. */
  datatype FieldLevel = FieldLevel(name: string, level: string)

  /** The pair of flags an entry stores. */
  datatype Access = Access(readable: bool, editable: bool)

  const ReadEdit := "read_edit"
  const NoAccess := "none"

  /** The flags an access level stands for. Any string other than the three
      levels is accepted and reads like `read`. */
  function LevelAccess(level: string): (a: Access)
    ensures a.editable ==> a.readable
    ensures level == "none" ==> a == Access(false, false)
    ensures level == "read" ==> a == Access(true, false)
    ensures level == "read_edit" ==> a == Access(true, true)
    ensures level != "none" && level != "read" && level != "read_edit" ==> a == Access(true, false)
  {
    Access(readable := level != NoAccess, editable := level == ReadEdit)
  }

  function AccessOf(fp: FieldPermission): Access {
    Access(fp.readable, fp.editable)
  }

  /** The entry created for a key the collection does not hold yet. */
  function NewEntry(key: string, level: string): (e: FieldPermission)
    ensures e.field == key && AccessOf(e) == LevelAccess(level)
  {
    FieldPermission(editable := level == ReadEdit, field := key, readable := level != NoAccess)
  }

  /** The entry with both flags overwritten from a level. */
  function Regrant(fp: FieldPermission, level: string): (r: FieldPermission)
    ensures r.field == fp.field && AccessOf(r) == LevelAccess(level)
  {
    fp.(editable := level == ReadEdit, readable := level != NoAccess)
  }

  /** The composite key `Object.Field`. */
  function Qualified(obj: string, name: string): string {
    obj + "." + name
  }

  lemma QualifiedInjective(obj: string, a: string, b: string)
    requires Qualified(obj, a) == Qualified(obj, b)
    ensures a == b
  {
    assert a == Qualified(obj, a)[|obj| + 1..];
    assert b == Qualified(obj, b)[|obj| + 1..];
  }

  /** `Array.prototype.find` on the exact `field`: the first entry with that key. */
  function Find(s: seq<FieldPermission>, key: string): (r: Option<nat>)
    ensures r.Some? ==> r.value < |s| && s[r.value].field == key
    ensures r.Some? ==> forall j :: 0 <= j < r.value ==> s[j].field != key
    ensures r.None? ==> forall j :: 0 <= j < |s| ==> s[j].field != key
    decreases |s|
  {
    if s == [] then None
    else if s[0].field == key then Some(0)
    else match Find(s[1..], key)
      case Some(j) => Some(j + 1)
      case None => None
  }

  lemma FindFirst(s: seq<FieldPermission>, key: string, i: nat)
    requires i < |s| && s[i].field == key
    requires forall j :: 0 <= j < i ==> s[j].field != key
    ensures Find(s, key) == Some(i)
  {
  }

  ghost function Fields(s: seq<FieldPermission>): set<string> {
    set i | 0 <= i < |s| :: s[i].field
  }

  /** Ascending by `field`, hence without two entries of the same key. */
  predicate Sorted(s: seq<FieldPermission>) {
    forall i, j :: 0 <= i < j < |s| ==> Less(s[i].field, s[j].field)
  }

  predicate Unique(s: seq<FieldPermission>) {
    forall i, j :: 0 <= i < j < |s| ==> s[i].field != s[j].field
  }

  /** No entry is editable without being readable. */
  predicate FlagsConsistent(s: seq<FieldPermission>) {
    forall i :: 0 <= i < |s| ==> (s[i].editable ==> s[i].readable)
  }

  lemma SortedIsUnique(s: seq<FieldPermission>)
    requires Sorted(s)
    ensures Unique(s)
  {
    forall i, j | 0 <= i < j < |s| ensures s[i].field != s[j].field {
      LessIrreflexive(s[i].field);
    }
  }

  /** `Array.prototype.splice(i, 0, e)`. */
  function Splice(s: seq<FieldPermission>, i: nat, e: FieldPermission): (r: seq<FieldPermission>)
    requires i <= |s|
  {
    s[..i] + [e] + s[i..]
  }

  /** Where every old entry goes in a splice. */
  lemma SpliceAt(s: seq<FieldPermission>, i: nat, e: FieldPermission)
    requires i <= |s|
    ensures var r := Splice(s, i, e);
      && |r| == |s| + 1 && r[i] == e
      && (forall k :: 0 <= k < i ==> r[k] == s[k])
      && (forall k :: i < k < |r| ==> r[k] == s[k - 1])
  {
  }

  // ---------------------------------------------------------------------------
  // Binary search for the insertion point

  /** `Math.floor((low + high) / 2)`: Dafny's division by a positive divisor
      rounds down like `Math.floor`. */
  function Mid(low: int, high: int): (mid: int)
    requires low <= high
    ensures low <= mid <= high
    ensures 2 * mid <= low + high < 2 * mid + 2
  {
    (low + high) / 2
  }

  /** The index at which the bisection over `[low, high]` stops: the index of an
      entry whose key equals `key`, or `low` once the bracket is empty. */
  function SearchPoint(s: seq<FieldPermission>, key: string, low: int, high: int): (r: nat)
    requires 0 <= low <= high + 1 <= |s|
    ensures low <= r <= high + 1
    decreases high + 1 - low
  {
    if low > high then low
    else
      var mid := Mid(low, high);
      if s[mid].field == key then mid
      else if Less(s[mid].field, key) then SearchPoint(s, key, mid + 1, high)
      else SearchPoint(s, key, low, mid - 1)
  }

  /** On a sorted collection the search splits it at the result: every entry
      before it is below `key`, none from it on is. */
  lemma {:induction false} SearchPointSplits(s: seq<FieldPermission>, key: string, low: int, high: int)
    requires Sorted(s) && 0 <= low <= high + 1 <= |s|
    requires forall j :: 0 <= j < low ==> Less(s[j].field, key)
    requires forall j :: high < j < |s| ==> Less(key, s[j].field)
    ensures forall j :: 0 <= j < SearchPoint(s, key, low, high) ==> Less(s[j].field, key)
    ensures forall j :: SearchPoint(s, key, low, high) <= j < |s| ==> !Less(s[j].field, key)
    decreases high + 1 - low
  {
    if low > high {
      forall j | low <= j < |s| ensures !Less(s[j].field, key) {
        LessAsymmetric(key, s[j].field);
      }
    } else {
      var mid := Mid(low, high);
      if s[mid].field == key {
        forall j | mid <= j < |s| ensures !Less(s[j].field, key) {
          if j == mid {
            LessIrreflexive(key);
          } else {
            LessAsymmetric(key, s[j].field);
          }
        }
      } else if Less(s[mid].field, key) {
        forall j | 0 <= j < mid + 1 ensures Less(s[j].field, key) {
          if j < mid { LessTransitive(s[j].field, s[mid].field, key); }
        }
        SearchPointSplits(s, key, mid + 1, high);
      } else {
        LessTotal(s[mid].field, key);
        forall j | mid - 1 < j < |s| ensures Less(key, s[j].field) {
          if j > mid { LessTransitive(key, s[mid].field, s[j].field); }
        }
        SearchPointSplits(s, key, low, mid - 1);
      }
    }
  }

  /** Splices `e` at the index the binary search finds. */
  function BinaryInsert(s: seq<FieldPermission>, e: FieldPermission): (r: seq<FieldPermission>) {
    Splice(s, SearchPoint(s, e.field, 0, |s| - 1), e)
  }

  /** Reference definition of insertion into an ascending collection: walk past
      every entry below the new key, then insert. */
  function InsertSorted(s: seq<FieldPermission>, e: FieldPermission): seq<FieldPermission>
    decreases |s|
  {
    if s == [] then [e]
    else if Less(s[0].field, e.field) then [s[0]] + InsertSorted(s[1..], e)
    else [e] + s
  }

  lemma {:induction false} SplitIsInsertSorted(s: seq<FieldPermission>, k: nat, e: FieldPermission)
    requires k <= |s|
    requires forall j :: 0 <= j < k ==> Less(s[j].field, e.field)
    requires forall j :: k <= j < |s| ==> !Less(s[j].field, e.field)
    ensures InsertSorted(s, e) == Splice(s, k, e)
    decreases |s|
  {
    if k == 0 {
      assert s[..0] == [] && s[0..] == s;
    } else {
      SplitIsInsertSorted(s[1..], k - 1, e);
      assert s[..k] == [s[0]] + s[1..][..k - 1];
      assert s[k..] == s[1..][k - 1..];
    }
  }

  /** Splicing a new key at the point where it splits a sorted collection keeps it sorted. */
  lemma SplitKeepsSorted(s: seq<FieldPermission>, k: nat, e: FieldPermission)
    requires Sorted(s) && k <= |s|
    requires forall j :: 0 <= j < k ==> Less(s[j].field, e.field)
    requires forall j :: k <= j < |s| ==> Less(e.field, s[j].field)
    ensures Sorted(Splice(s, k, e))
  {
    var r := Splice(s, k, e);
    assert forall j :: 0 <= j < k ==> r[j] == s[j];
    assert r[k] == e;
    assert forall j :: k < j < |r| ==> r[j] == s[j - 1];
  }

  /** The binary search inserts where the reference insertion does, whenever the
      collection is sorted. */
  lemma BinaryInsertIsInsertSorted(s: seq<FieldPermission>, e: FieldPermission)
    requires Sorted(s)
    ensures BinaryInsert(s, e) == InsertSorted(s, e)
  {
    SearchPointSplits(s, e.field, 0, |s| - 1);
    SplitIsInsertSorted(s, SearchPoint(s, e.field, 0, |s| - 1), e);
  }

  /** A key the sorted collection does not hold is inserted so that the collection
      stays sorted; it grows by exactly that one entry. */
  lemma BinaryInsertKeepsSorted(s: seq<FieldPermission>, e: FieldPermission)
    requires Sorted(s)
    requires forall j :: 0 <= j < |s| ==> s[j].field != e.field
    ensures Sorted(BinaryInsert(s, e))
    ensures |BinaryInsert(s, e)| == |s| + 1
  {
    var k := SearchPoint(s, e.field, 0, |s| - 1);
    SearchPointSplits(s, e.field, 0, |s| - 1);
    forall j | k <= j < |s| ensures Less(e.field, s[j].field) {
      LessTotal(e.field, s[j].field);
    }
    SplitKeepsSorted(s, k, e);
  }

  /** When the key is already in a sorted collection, the binary search stops at
      that entry and the new one is inserted just before it: both are kept. */
  lemma BinaryInsertBeforeDuplicate(s: seq<FieldPermission>, e: FieldPermission, j: nat)
    requires Sorted(s) && j < |s| && s[j].field == e.field
    ensures BinaryInsert(s, e) == Splice(s, j, e)
    ensures |BinaryInsert(s, e)| == |s| + 1
  {
    var k := SearchPoint(s, e.field, 0, |s| - 1);
    SearchPointSplits(s, e.field, 0, |s| - 1);
    if j < k {
      LessIrreflexive(e.field);
    }
  }

  // ---------------------------------------------------------------------------
  // Upsert

  /** Where a new entry goes: by binary search (the current updater) or
      appended with `push` (the older inline command). */
  datatype Placement = BinarySearch | Push

  function PlaceIndex(p: Placement, s: seq<FieldPermission>, key: string): (i: nat)
    ensures i <= |s|
    ensures p == Push ==> i == |s|
    ensures p == BinarySearch ==> i == SearchPoint(s, key, 0, |s| - 1)
  {
    match p
    case BinarySearch => SearchPoint(s, key, 0, |s| - 1)
    case Push => |s|
  }

  /** One upsert: overwrite the flags of the first entry with this key, or
      place a new entry when there is none. */
  function Upsert(p: Placement, s: seq<FieldPermission>, key: string, level: string): seq<FieldPermission> {
    match Find(s, key)
    case Some(j) => s[j := Regrant(s[j], level)]
    case None => Splice(s, PlaceIndex(p, s, key), NewEntry(key, level))
  }

  /** The upserts of the whole field → level object, in order, for one object. */
  function ApplyLevels(p: Placement, s: seq<FieldPermission>, obj: string, levels: seq<FieldLevel>): seq<FieldPermission>
    decreases |levels|
  {
    if levels == [] then s
    else
      var last := levels[|levels| - 1];
      Upsert(p, ApplyLevels(p, s, obj, levels[..|levels| - 1]), Qualified(obj, last.name), last.level)
  }

  /** One more selected field is one more upsert. */
  lemma ApplyLevelsStep(p: Placement, s: seq<FieldPermission>, obj: string, levels: seq<FieldLevel>, i: nat)
    requires i < |levels|
    ensures ApplyLevels(p, s, obj, levels[..i + 1])
      == Upsert(p, ApplyLevels(p, s, obj, levels[..i]), Qualified(obj, levels[i].name), levels[i].level)
  {
    assert levels[..i + 1][..i] == levels[..i];
  }

  /** The first entry with this key exists and carries the flags of this level. */
  predicate Granted(s: seq<FieldPermission>, key: string, level: string) {
    match Find(s, key)
    case Some(j) => AccessOf(s[j]) == LevelAccess(level)
    case None => false
  }

  predicate DistinctNames(levels: seq<FieldLevel>) {
    forall i, j :: 0 <= i < j < |levels| ==> levels[i].name != levels[j].name
  }

  ghost function QualifiedKeys(obj: string, levels: seq<FieldLevel>): set<string> {
    set i | 0 <= i < |levels| :: Qualified(obj, levels[i].name)
  }

  /** Upserting an existing key rewrites only the flags of its first entry. */
  lemma UpsertExisting(p: Placement, s: seq<FieldPermission>, key: string, level: string)
    requires Find(s, key).Some?
    ensures var j, t := Find(s, key).value, Upsert(p, s, key, level);
      && |t| == |s|
      && t[j].field == s[j].field
      && AccessOf(t[j]) == LevelAccess(level)
      && forall k :: 0 <= k < |s| && k != j ==> t[k] == s[k]
  {
  }

  /** The two in-place flag assignments on the first entry with the key are the
      overwrite case of an upsert. */
  lemma OverwriteIsUpsert(p: Placement, s: seq<FieldPermission>, key: string, level: string)
    requires Find(s, key).Some?
    ensures var j := Find(s, key).value;
      s[j := s[j].(editable := level == ReadEdit)][j := s[j].(editable := level == ReadEdit).(readable := level != NoAccess)]
      == Upsert(p, s, key, level)
  {
  }

  /** With `push`, a missing key goes to the end and every earlier entry stays put. */
  lemma UpsertPushAppends(s: seq<FieldPermission>, key: string, level: string)
    requires forall j :: 0 <= j < |s| ==> s[j].field != key
    ensures Upsert(Push, s, key, level) == s + [NewEntry(key, level)]
  {
    assert s[..|s|] == s && s[|s|..] == [];
  }

  lemma SpliceFields(s: seq<FieldPermission>, i: nat, e: FieldPermission)
    requires i <= |s|
    ensures Fields(Splice(s, i, e)) == Fields(s) + {e.field}
    ensures |Splice(s, i, e)| == |s| + 1
  {
    var r := Splice(s, i, e);
    forall x | x in Fields(r) ensures x in Fields(s) + {e.field} {
      var k :| 0 <= k < |r| && r[k].field == x;
      if k < i { assert r[k] == s[k]; }
      else if k > i { assert r[k] == s[k - 1]; }
    }
    forall x | x in Fields(s) ensures x in Fields(r) {
      var k :| 0 <= k < |s| && s[k].field == x;
      if k < i { assert r[k] == s[k]; }
      else { assert r[k + 1] == s[k]; }
    }
    assert r[i] == e;
  }

  /** The keys after an upsert are the keys before it plus the upserted one;
      the collection grows only when the key was missing. */
  lemma UpsertFields(p: Placement, s: seq<FieldPermission>, key: string, level: string)
    ensures Fields(Upsert(p, s, key, level)) == Fields(s) + {key}
    ensures |Upsert(p, s, key, level)| == |s| + (if key in Fields(s) then 0 else 1)
  {
    match Find(s, key)
    case Some(j) =>
      var t := Upsert(p, s, key, level);
      assert forall k :: 0 <= k < |s| ==> t[k].field == s[k].field;
      assert Fields(t) == Fields(s);
    case None =>
      SpliceFields(s, PlaceIndex(p, s, key), NewEntry(key, level));
  }

  lemma UpsertKeepsUnique(p: Placement, s: seq<FieldPermission>, key: string, level: string)
    requires Unique(s)
    ensures Unique(Upsert(p, s, key, level))
  {
    match Find(s, key)
    case Some(j) =>
    case None =>
      var i := PlaceIndex(p, s, key);
      var r := Splice(s, i, NewEntry(key, level));
      assert forall k :: 0 <= k < i ==> r[k] == s[k];
      assert forall k :: i < k < |r| ==> r[k] == s[k - 1];
  }

  lemma UpsertKeepsFlagsConsistent(p: Placement, s: seq<FieldPermission>, key: string, level: string)
    requires FlagsConsistent(s)
    ensures FlagsConsistent(Upsert(p, s, key, level))
  {
    match Find(s, key)
    case Some(j) =>
    case None =>
      var i := PlaceIndex(p, s, key);
      var r := Splice(s, i, NewEntry(key, level));
      assert forall k :: 0 <= k < i ==> r[k] == s[k];
      assert forall k :: i < k < |r| ==> r[k] == s[k - 1];
  }

  /** The sorted upsert keeps a sorted collection sorted. */
  lemma UpsertKeepsSorted(s: seq<FieldPermission>, key: string, level: string)
    requires Sorted(s)
    ensures Sorted(Upsert(BinarySearch, s, key, level))
  {
    match Find(s, key)
    case Some(j) =>
      var t := Upsert(BinarySearch, s, key, level);
      assert forall k :: 0 <= k < |s| ==> t[k].field == s[k].field;
    case None =>
      BinaryInsertKeepsSorted(s, NewEntry(key, level));
  }

  /** After the upsert the key is granted exactly the flags of its level. */
  lemma UpsertGrants(p: Placement, s: seq<FieldPermission>, key: string, level: string)
    ensures Granted(Upsert(p, s, key, level), key, level)
  {
    var t := Upsert(p, s, key, level);
    match Find(s, key)
    case Some(j) =>
      FindFirst(t, key, j);
    case None =>
      var i := PlaceIndex(p, s, key);
      assert forall k :: 0 <= k < i ==> t[k] == s[k];
      FindFirst(t, key, i);
  }

  /** Upserting one key leaves the grant of any other key as it was. */
  lemma UpsertKeepsOtherGrant(p: Placement, s: seq<FieldPermission>, key: string, level: string,
                              other: string, otherLevel: string)
    requires other != key && Granted(s, other, otherLevel)
    ensures Granted(Upsert(p, s, key, level), other, otherLevel)
  {
    var t := Upsert(p, s, key, level);
    var m := Find(s, other).value;
    match Find(s, key)
    case Some(j) =>
      assert forall k :: 0 <= k < |s| ==> t[k].field == s[k].field;
      FindFirst(t, other, m);
    case None =>
      var i := PlaceIndex(p, s, key);
      SpliceAt(s, i, NewEntry(key, level));
      if m < i {
        FindFirst(t, other, m);
      } else {
        FindFirst(t, other, m + 1);
      }
  }

  /** A key already granted this level is left exactly as it is. */
  lemma UpsertGrantedUnchanged(p: Placement, s: seq<FieldPermission>, key: string, level: string)
    requires Granted(s, key, level)
    ensures Upsert(p, s, key, level) == s
  {
  }

  // ---------------------------------------------------------------------------
  // The whole field → level object

  lemma QualifiedKeysSnoc(obj: string, levels: seq<FieldLevel>)
    requires levels != []
    ensures QualifiedKeys(obj, levels)
      == QualifiedKeys(obj, levels[..|levels| - 1]) + {Qualified(obj, levels[|levels| - 1].name)}
  {
    var n := |levels| - 1;
    var prefix := levels[..n];
    forall x | x in QualifiedKeys(obj, levels) ensures x in QualifiedKeys(obj, prefix) + {Qualified(obj, levels[n].name)} {
      var k :| 0 <= k < |levels| && Qualified(obj, levels[k].name) == x;
      if k < n { assert prefix[k] == levels[k]; }
    }
    forall x | x in QualifiedKeys(obj, prefix) ensures x in QualifiedKeys(obj, levels) {
      var k :| 0 <= k < |prefix| && Qualified(obj, prefix[k].name) == x;
      assert prefix[k] == levels[k];
    }
  }

  lemma NewKeysSnoc(have: set<string>, before: set<string>, key: string)
    ensures |(before + {key}) - have| == |before - have| + (if key in have + before then 0 else 1)
  {
    if key in have || key in before {
      assert (before + {key}) - have == before - have;
    } else {
      assert (before + {key}) - have == (before - have) + {key};
    }
  }

  /** The keys after the whole selection are the old keys plus every qualified
      field of the selection; the collection grows by the number of those that
      were missing. */
  lemma {:induction false} ApplyLevelsFields(p: Placement, s: seq<FieldPermission>, obj: string, levels: seq<FieldLevel>)
    ensures Fields(ApplyLevels(p, s, obj, levels)) == Fields(s) + QualifiedKeys(obj, levels)
    ensures |ApplyLevels(p, s, obj, levels)| == |s| + |QualifiedKeys(obj, levels) - Fields(s)|
    decreases |levels|
  {
    if levels == [] {
      assert QualifiedKeys(obj, levels) == {};
    } else {
      var n := |levels| - 1;
      var prefix := levels[..n];
      var key := Qualified(obj, levels[n].name);
      var before := ApplyLevels(p, s, obj, prefix);
      var after := Upsert(p, before, key, levels[n].level);
      var have, earlier := Fields(s), QualifiedKeys(obj, prefix);
      assert after == ApplyLevels(p, s, obj, levels);
      assert QualifiedKeys(obj, levels) == earlier + {key} by {
        QualifiedKeysSnoc(obj, levels);
      }
      assert Fields(before) == have + earlier && |before| == |s| + |earlier - have| by {
        ApplyLevelsFields(p, s, obj, prefix);
      }
      assert Fields(after) == Fields(before) + {key} by {
        UpsertFields(p, before, key, levels[n].level);
      }
      assert |after| == |before| + (if key in have + earlier then 0 else 1) by {
        UpsertFields(p, before, key, levels[n].level);
      }
      NewKeysSnoc(have, earlier, key);
    }
  }

  /** The sorted updater keeps a sorted collection sorted, whatever it upserts,
      and so free of duplicate keys. */
  lemma {:induction false} ApplyLevelsKeepsSorted(s: seq<FieldPermission>, obj: string, levels: seq<FieldLevel>)
    requires Sorted(s)
    ensures Sorted(ApplyLevels(BinarySearch, s, obj, levels))
    ensures Unique(ApplyLevels(BinarySearch, s, obj, levels))
    decreases |levels|
  {
    if levels != [] {
      var n := |levels| - 1;
      ApplyLevelsKeepsSorted(s, obj, levels[..n]);
      UpsertKeepsSorted(ApplyLevels(BinarySearch, s, obj, levels[..n]), Qualified(obj, levels[n].name), levels[n].level);
    }
    SortedIsUnique(ApplyLevels(BinarySearch, s, obj, levels));
  }

  /** Neither updater introduces a duplicate key. */
  lemma {:induction false} ApplyLevelsKeepsUnique(p: Placement, s: seq<FieldPermission>, obj: string, levels: seq<FieldLevel>)
    requires Unique(s)
    ensures Unique(ApplyLevels(p, s, obj, levels))
    decreases |levels|
  {
    if levels != [] {
      var n := |levels| - 1;
      ApplyLevelsKeepsUnique(p, s, obj, levels[..n]);
      UpsertKeepsUnique(p, ApplyLevels(p, s, obj, levels[..n]), Qualified(obj, levels[n].name), levels[n].level);
    }
  }

  /** Neither updater produces an entry that is editable but not readable. */
  lemma {:induction false} ApplyLevelsKeepsFlagsConsistent(p: Placement, s: seq<FieldPermission>, obj: string, levels: seq<FieldLevel>)
    requires FlagsConsistent(s)
    ensures FlagsConsistent(ApplyLevels(p, s, obj, levels))
    decreases |levels|
  {
    if levels != [] {
      var n := |levels| - 1;
      ApplyLevelsKeepsFlagsConsistent(p, s, obj, levels[..n]);
      UpsertKeepsFlagsConsistent(p, ApplyLevels(p, s, obj, levels[..n]), Qualified(obj, levels[n].name), levels[n].level);
    }
  }

  /** Every field of the object ends up granted the level selected for it. */
  lemma {:induction false} ApplyLevelsGrants(p: Placement, s: seq<FieldPermission>, obj: string, levels: seq<FieldLevel>)
    requires DistinctNames(levels)
    ensures forall i :: 0 <= i < |levels| ==>
      Granted(ApplyLevels(p, s, obj, levels), Qualified(obj, levels[i].name), levels[i].level)
    decreases |levels|
  {
    if levels != [] {
      var n := |levels| - 1;
      var prefix := levels[..n];
      var before := ApplyLevels(p, s, obj, prefix);
      var key := Qualified(obj, levels[n].name);
      ApplyLevelsGrants(p, s, obj, prefix);
      forall i | 0 <= i < |levels|
        ensures Granted(ApplyLevels(p, s, obj, levels), Qualified(obj, levels[i].name), levels[i].level)
      {
        if i == n {
          UpsertGrants(p, before, key, levels[n].level);
        } else {
          assert prefix[i] == levels[i];
          if Qualified(obj, levels[i].name) == key {
            QualifiedInjective(obj, levels[i].name, levels[n].name);
          }
          UpsertKeepsOtherGrant(p, before, key, levels[n].level, Qualified(obj, levels[i].name), levels[i].level);
        }
      }
    }
  }

  /** A collection that already grants every selected level is a fixed point:
      each upsert takes the overwrite branch and changes nothing. */
  lemma {:induction false} ApplyLevelsToGranted(p: Placement, t: seq<FieldPermission>, obj: string, levels: seq<FieldLevel>)
    requires forall i :: 0 <= i < |levels| ==> Granted(t, Qualified(obj, levels[i].name), levels[i].level)
    ensures ApplyLevels(p, t, obj, levels) == t
    decreases |levels|
  {
    if levels != [] {
      var n := |levels| - 1;
      var prefix := levels[..n];
      assert forall i :: 0 <= i < |prefix| ==> prefix[i] == levels[i];
      ApplyLevelsToGranted(p, t, obj, prefix);
      UpsertGrantedUnchanged(p, t, Qualified(obj, levels[n].name), levels[n].level);
    }
  }

  /** Applying the same selection twice gives what applying it once gives. */
  lemma ApplyLevelsIdempotent(p: Placement, s: seq<FieldPermission>, obj: string, levels: seq<FieldLevel>)
    requires DistinctNames(levels)
    ensures ApplyLevels(p, ApplyLevels(p, s, obj, levels), obj, levels) == ApplyLevels(p, s, obj, levels)
  {
    ApplyLevelsGrants(p, s, obj, levels);
    ApplyLevelsToGranted(p, ApplyLevels(p, s, obj, levels), obj, levels);
  }

  /** From an empty list, `push` keeps two new fields in selection order. */
  lemma TwoNewFieldsPushed(obj: string, first: FieldLevel, second: FieldLevel)
    requires first.name != second.name
    ensures ApplyLevels(Push, [], obj, [first, second])
      == [NewEntry(Qualified(obj, first.name), first.level), NewEntry(Qualified(obj, second.name), second.level)]
  {
    var levels := [first, second];
    assert levels[..0] == [] && levels[..2] == levels;
    ApplyLevelsStep(Push, [], obj, levels, 0);
    ApplyLevelsStep(Push, [], obj, levels, 1);
    if Qualified(obj, first.name) == Qualified(obj, second.name) {
      QualifiedInjective(obj, first.name, second.name);
    }
    UpsertPushAppends([NewEntry(Qualified(obj, first.name), first.level)], Qualified(obj, second.name), second.level);
  }

  /** From an empty list, binary-search placement puts a second field whose key
      is smaller in front of the first. */
  lemma TwoNewFieldsSorted(obj: string, first: FieldLevel, second: FieldLevel)
    requires Less(Qualified(obj, second.name), Qualified(obj, first.name))
    ensures ApplyLevels(BinarySearch, [], obj, [first, second])
      == [NewEntry(Qualified(obj, second.name), second.level), NewEntry(Qualified(obj, first.name), first.level)]
  {
    var levels := [first, second];
    var a, b := Qualified(obj, first.name), Qualified(obj, second.name);
    assert levels[..0] == [] && levels[..2] == levels;
    ApplyLevelsStep(BinarySearch, [], obj, levels, 0);
    ApplyLevelsStep(BinarySearch, [], obj, levels, 1);
    var s1 := [NewEntry(a, first.level)];
    LessIrreflexive(a);
    LessAsymmetric(b, a);
    assert Find(s1, b) == None;
    assert SearchPoint(s1, b, 0, 0) == 0;
  }
}
