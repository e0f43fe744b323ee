/** Ordinal comparison of strings, the order that JavaScript's `<` on strings and
    `Array.prototype.sort` without a comparator use: lexicographic on characters,
    a proper prefix before any of its extensions. */
module StringOrder {

  /** `a < b` on strings. */
  predicate Less(a: string, b: string)
    decreases |a|
  {
    if a == [] then b != []
    else if b == [] then false
    else if a[0] != b[0] then a[0] < b[0]
    else Less(a[1..], b[1..])
  }

  lemma {:induction false} LessIrreflexive(a: string)
    ensures !Less(a, a)
    decreases |a|
  {
    if a != [] {
      LessIrreflexive(a[1..]);
    }
  }

  lemma {:induction false} LessAsymmetric(a: string, b: string)
    ensures Less(a, b) ==> !Less(b, a)
    decreases |a|
  {
    if a != [] && b != [] && a[0] == b[0] {
      LessAsymmetric(a[1..], b[1..]);
    }
  }

  lemma {:induction false} LessTransitive(a: string, b: string, c: string)
    requires Less(a, b) && Less(b, c)
    ensures Less(a, c)
    decreases |a|
  {
    if a != [] && a[0] == b[0] && b[0] == c[0] {
      LessTransitive(a[1..], b[1..], c[1..]);
    }
  }

  /** Any two different strings are ordered one way or the other. */
  lemma {:induction false} LessTotal(a: string, b: string)
    ensures a == b || Less(a, b) || Less(b, a)
    decreases |a|
  {
    if a != [] && b != [] && a[0] == b[0] {
      LessTotal(a[1..], b[1..]);
      assert a == [a[0]] + a[1..] && b == [b[0]] + b[1..];
    }
  }

  /** "Not less than" is transitive as well. */
  lemma NotLessTransitive(a: string, b: string, c: string)
    requires !Less(a, b) && !Less(b, c)
    ensures !Less(a, c)
  {
    LessTotal(a, b);
    LessTotal(b, c);
    if a != b && b != c {
      LessTransitive(c, b, a);
      LessAsymmetric(c, a);
    } else if a == b {
      LessTotal(a, c);
      if Less(a, c) { LessAsymmetric(b, c); }
    } else {
      LessTotal(a, c);
    }
  }

  /** A common prefix does not decide the order. */
  lemma {:induction false} LessCommonPrefix(p: string, a: string, b: string)
    ensures Less(p + a, p + b) == Less(a, b)
    decreases |p|
  {
    if p != [] {
      assert (p + a)[0] == p[0] == (p + b)[0];
      assert (p + a)[1..] == p[1..] + a;
      assert (p + b)[1..] == p[1..] + b;
      LessCommonPrefix(p[1..], a, b);
    } else {
      assert p + a == a && p + b == b;
    }
  }

  /** No string occurs twice. */
  ghost predicate Distinct(ks: seq<string>) {
    forall k :: multiset(ks)[k] <= 1
  }

  /** Ascending order that admits equal neighbours. */
  predicate Ascending(ks: seq<string>) {
    forall i, j :: 0 <= i < j < |ks| ==> !Less(ks[j], ks[i])
  }

  /** Strictly ascending order. */
  predicate StrictlyAscending(ks: seq<string>) {
    forall i, j :: 0 <= i < j < |ks| ==> Less(ks[i], ks[j])
  }

  /** Inserts one key into an ascending sequence of keys. */
  function InsertKey(ks: seq<string>, k: string): (r: seq<string>)
    requires Ascending(ks)
    ensures multiset(r) == multiset(ks) + multiset{k}
    ensures Ascending(r)
    decreases |ks|
  {
    if ks == [] then [k]
    else if Less(ks[0], k) then
      var tail := InsertKey(ks[1..], k);
      assert ks == [ks[0]] + ks[1..];
      forall j | 0 <= j < |tail| ensures !Less(tail[j], ks[0]) {
        assert tail[j] in multiset(tail);
        if tail[j] == k {
          LessAsymmetric(ks[0], k);
        } else {
          assert tail[j] in ks[1..];
        }
      }
      [ks[0]] + tail
    else
      forall j | 0 <= j < |ks| ensures !Less(ks[j], k) {
        if j > 0 { NotLessTransitive(ks[j], ks[0], k); }
      }
      [k] + ks
  }

  /** `Object.keys(o).sort()`: the keys in ascending order. */
  function SortKeys(ks: seq<string>): (r: seq<string>)
    ensures multiset(r) == multiset(ks)
    ensures Ascending(r)
    decreases |ks|
  {
    if ks == [] then []
    else
      assert ks == [ks[0]] + ks[1..];
      InsertKey(SortKeys(ks[1..]), ks[0])
  }

  /** Sorting distinct keys gives a strictly ascending sequence of the same keys. */
  lemma SortDistinctKeys(ks: seq<string>)
    requires Distinct(ks)
    ensures Distinct(SortKeys(ks))
    ensures StrictlyAscending(SortKeys(ks))
    ensures forall k :: k in SortKeys(ks) <==> k in ks
  {
    var r := SortKeys(ks);
    assert forall k :: k in r <==> k in multiset(ks);
    forall i, j | 0 <= i < j < |r| ensures Less(r[i], r[j]) {
      LessTotal(r[i], r[j]);
      DistinctAt(r, i, j);
    }
  }

  lemma DistinctAt(ks: seq<string>, i: nat, j: nat)
    requires Distinct(ks) && i < j < |ks|
    ensures ks[i] != ks[j]
  {
    assert ks == ks[..j] + ks[j..];
    assert multiset(ks) == multiset(ks[..j]) + multiset(ks[j..]);
    assert ks[i] in multiset(ks[..j]);
    assert ks[j] in multiset(ks[j..]);
    assert multiset(ks)[ks[j]] <= 1;
  }
}
