/** Byte-wise order of strings, and sorting by a comparator or by a string key. */
module Ordering {

  predicate Less(a: string, b: string) {
    if b == "" then false
    else if a == "" then true
    else if a[0] == b[0] then Less(a[1..], b[1..])
    else a[0] < b[0]
  }

  lemma {:induction false} LessIrreflexive(a: string)
    ensures !Less(a, a)
  {
    if a != "" {
      LessIrreflexive(a[1..]);
    }
  }

  lemma {:induction false} LessTransitive(a: string, b: string, c: string)
    requires Less(a, b) && Less(b, c)
    ensures Less(a, c)
  {
    if a != "" && a[0] == b[0] == c[0] {
      LessTransitive(a[1..], b[1..], c[1..]);
    }
  }

  lemma {:induction false} LessTotal(a: string, b: string)
    ensures Less(a, b) || a == b || Less(b, a)
  {
    if a != "" && b != "" && a[0] == b[0] {
      LessTotal(a[1..], b[1..]);
      assert a == [a[0]] + a[1..];
      assert b == [b[0]] + b[1..];
    }
  }

  lemma LessAsymmetric(a: string, b: string)
    requires Less(a, b)
    ensures !Less(b, a)
  {
    if Less(b, a) {
      LessTransitive(a, b, a);
      LessIrreflexive(a);
    }
  }

  /** Incomparable values stay between comparable ones. */
  lemma LessThrough(a: string, b: string, c: string)
    requires !Less(b, a) && !Less(c, b)
    ensures !Less(c, a)
  {
    LessTotal(a, b);
    LessTotal(b, c);
    if a != b && b != c {
      LessTransitive(a, b, c);
    }
    if Less(c, a) {
      LessAsymmetric(c, a);
      LessIrreflexive(a);
    }
  }

  /** The order is decided at the first difference: `a` ends there or has the smaller byte. */
  lemma {:induction false} LessAtFirstDifference(a: string, b: string)
    ensures Less(a, b) <==>
      exists i :: 0 <= i <= |a| && i < |b| && a[..i] == b[..i] && (i == |a| || a[i] < b[i])
  {
    if a == "" && b != "" {
      assert a[..0] == b[..0];
    } else if a != "" && b != "" && a[0] == b[0] {
      LessAtFirstDifference(a[1..], b[1..]);
      if i :| 0 <= i < |b[1..]| && i <= |a[1..]| && a[1..][..i] == b[1..][..i] && (i == |a[1..]| || a[1..][i] < b[1..][i]) {
        assert a[..i + 1] == [a[0]] + a[1..][..i] && b[..i + 1] == [b[0]] + b[1..][..i];
      }
      if i :| 0 <= i < |b| && i <= |a| && a[..i] == b[..i] && (i == |a| || a[i] < b[i]) {
        assert i > 0;
        assert a[1..][..i - 1] == a[..i][1..] && b[1..][..i - 1] == b[..i][1..];
      }
    } else if a != "" && b != "" {
      assert a[..0] == b[..0];
      if i :| 0 < i < |b| && i <= |a| && a[..i] == b[..i] {
        assert a[..i][0] == b[..i][0];
      }
    }
  }

  // ----- sorting by a comparator --------------------------------------------------------------------

  /** `less` orders the elements of `s` strictly, and being neither before nor after each
      other is transitive. */
  ghost predicate WeakOrder<T(!new)>(s: seq<T>, less: (T, T) -> bool) {
    && (forall x, y :: x in s && y in s && less(x, y) ==> !less(y, x))
    && (forall x, y, z :: x in s && y in s && z in s && !less(y, x) && !less(z, y) ==> !less(z, x))
  }

  ghost predicate Sorted<T(!new)>(s: seq<T>, less: (T, T) -> bool) {
    forall i, j :: 0 <= i < j < |s| ==> !less(s[j], s[i])
  }

  /** Stands for the library sorts. They need not be stable, and with a comparator that is
      not a weak order they promise a permutation only. */
  method SortSlice<T(!new)>(s: seq<T>, less: (T, T) -> bool) returns (r: seq<T>)
    ensures multiset(r) == multiset(s)
    ensures WeakOrder(s, less) ==> Sorted(r, less)
  {
    r := [];
    for i := 0 to |s|
      invariant multiset(r) == multiset(s[..i])
      invariant WeakOrder(s, less) ==> Sorted(r, less)
    {
      var p := |r|;
      while p > 0 && less(s[i], r[p - 1])
        invariant 0 <= p <= |r|
        invariant forall k :: p <= k < |r| ==> less(s[i], r[k])
      {
        p := p - 1;
      }
      forall k | 0 <= k < |r|
        ensures r[k] in s
      {
        assert r[k] in multiset(r);
        assert r[k] in s[..i];
      }
      if WeakOrder(s, less) {
        InsertedSorted(s, r, less, p, s[i]);
      }
      InsertedCounts(r, p, s[i]);
      assert s[..i + 1] == s[..i] + [s[i]];
      r := r[..p] + [s[i]] + r[p..];
    }
    assert s[..|s|] == s;
  }

  lemma InsertedCounts<T>(r: seq<T>, p: nat, x: T)
    requires p <= |r|
    ensures multiset(r[..p] + [x] + r[p..]) == multiset(r) + multiset{x}
  {
    assert r == r[..p] + r[p..];
  }

  lemma InsertedSorted<T(!new)>(s: seq<T>, r: seq<T>, less: (T, T) -> bool, p: nat, x: T)
    requires WeakOrder(s, less) && Sorted(r, less) && p <= |r|
    requires x in s && forall k :: 0 <= k < |r| ==> r[k] in s
    requires p > 0 ==> !less(x, r[p - 1])
    requires forall k :: p <= k < |r| ==> less(x, r[k])
    ensures Sorted(r[..p] + [x] + r[p..], less)
  {
    var t := r[..p] + [x] + r[p..];
    forall i, j | 0 <= i < j < |t|
      ensures !less(t[j], t[i])
    {
      if j == p && i < p - 1 {
        assert !less(r[p - 1], r[i]) && !less(x, r[p - 1]);
      } else if i == p {
        assert less(x, r[j - 1]);
      }
    }
  }

  // ----- sorting by a string key ----------------------------------------------------------------------

  function ByKey<T>(key: T -> string): (T, T) -> bool {
    (x, y) => Less(key(x), key(y))
  }

  ghost predicate SortedBy<T(!new)>(s: seq<T>, key: T -> string) {
    forall i, j :: 0 <= i < j < |s| ==> !Less(key(s[j]), key(s[i]))
  }

  lemma SortedByItsKey<T(!new)>(s: seq<T>, key: T -> string)
    requires Sorted(s, ByKey(key))
    ensures SortedBy(s, key)
  {
    forall i, j | 0 <= i < j < |s|
      ensures !Less(key(s[j]), key(s[i]))
    {
      assert !ByKey(key)(s[j], s[i]);
    }
  }

  lemma KeysAreWeaklyOrdered<T(!new)>(s: seq<T>, key: T -> string)
    ensures WeakOrder(s, ByKey(key))
  {
    var less := ByKey(key);
    forall x, y | x in s && y in s && less(x, y)
      ensures !less(y, x)
    {
      LessAsymmetric(key(x), key(y));
    }
    forall x, y, z | x in s && y in s && z in s && !less(y, x) && !less(z, y)
      ensures !less(z, x)
    {
      LessThrough(key(x), key(y), key(z));
    }
  }

  /** What a sort by key can return. */
  ghost predicate SortOf<T(!new)>(s: seq<T>, key: T -> string, r: seq<T>) {
    multiset(r) == multiset(s) && SortedBy(r, key)
  }

  method Sort<T(!new)>(s: seq<T>, key: T -> string) returns (r: seq<T>)
    ensures SortOf(s, key, r)
  {
    r := SortSlice(s, ByKey(key));
    KeysAreWeaklyOrdered(s, key);
    SortedByItsKey(r, key);
  }

  function Without<T>(s: seq<T>, i: nat): seq<T>
    requires i < |s|
  {
    s[..i] + s[i + 1..]
  }

  lemma WithoutCounts<T>(s: seq<T>, i: nat)
    requires i < |s|
    ensures multiset(s) == multiset(Without(s, i)) + multiset{s[i]}
    ensures multiset(Without(s, i)) == multiset(s) - multiset{s[i]}
  {
    assert s == s[..i] + [s[i]] + s[i + 1..];
  }

  /** Elements with the same key are the same. */
  ghost predicate KeyDetermines<T(!new)>(s: seq<T>, key: T -> string) {
    forall x, y :: x in s && y in s && key(x) == key(y) ==> x == y
  }

  /** When the key determines the element, every sort returns the same. */
  lemma {:induction false} SortUnique<T(!new)>(r: seq<T>, t: seq<T>, key: T -> string)
    requires multiset(r) == multiset(t) && SortedBy(r, key) && SortedBy(t, key)
    requires KeyDetermines(r, key)
    ensures r == t
  {
    if r == [] {
      assert |multiset(t)| == 0;
    } else {
      assert r[0] in multiset(r);
      assert r[0] in t;
      assert |multiset(t)| > 0;
      assert t[0] in multiset(t);
      assert t[0] in r;
      SameHead(r, t, key);
      assert r == [r[0]] + r[1..];
      assert t == [t[0]] + t[1..];
      assert multiset(r[1..]) == multiset(r) - multiset{r[0]};
      assert multiset(t[1..]) == multiset(t) - multiset{t[0]};
      SortUnique(r[1..], t[1..], key);
    }
  }

  lemma SameHead<T(!new)>(r: seq<T>, t: seq<T>, key: T -> string)
    requires r != [] && t != [] && r[0] in t && t[0] in r
    requires SortedBy(r, key) && SortedBy(t, key) && KeyDetermines(r, key)
    ensures r[0] == t[0]
  {
    var i :| 0 <= i < |r| && r[i] == t[0];
    var j :| 0 <= j < |t| && t[j] == r[0];
    LessIrreflexive(key(r[0]));
    LessIrreflexive(key(t[0]));
    LessTotal(key(r[0]), key(t[0]));
  }

  /** There is a sorted order by any comparator that is a weak order. */
  lemma {:induction false} Sortable<T(!new)>(s: seq<T>, less: (T, T) -> bool) returns (r: seq<T>)
    requires WeakOrder(s, less)
    ensures multiset(r) == multiset(s) && Sorted(r, less)
  {
    r := [];
    if s != [] {
      var n := |s| - 1;
      assert s == s[..n] + [s[n]];
      var t := Sortable(s[..n], less);
      SameMembers(s[..n], t);
      var p := Position(s, t, less, s[n]);
      InsertedSorted(s, t, less, p, s[n]);
      InsertedCounts(t, p, s[n]);
      r := t[..p] + [s[n]] + t[p..];
    }
  }

  lemma SameMembers<T>(s: seq<T>, t: seq<T>)
    requires multiset(s) == multiset(t)
    ensures |s| == |t| && forall x :: x in s <==> x in t
  {
    assert |multiset(s)| == |multiset(t)|;
    forall x
      ensures x in s <==> x in t
    {
      assert x in s <==> x in multiset(s);
      assert x in t <==> x in multiset(t);
    }
  }

  /** Where an element belongs. */
  lemma {:induction false} Position<T(!new)>(s: seq<T>, t: seq<T>, less: (T, T) -> bool, x: T) returns (p: nat)
    requires WeakOrder(s, less) && Sorted(t, less) && x in s && forall k :: 0 <= k < |t| ==> t[k] in s
    ensures p <= |t| && (p > 0 ==> !less(x, t[p - 1]))
    ensures forall k :: p <= k < |t| ==> less(x, t[k])
  {
    p := |t|;
    if t != [] {
      var n := |t| - 1;
      if less(x, t[n]) {
        p := Position(s, t[..n], less, x);
      }
    }
  }

  lemma SortableByKey<T(!new)>(s: seq<T>, key: T -> string) returns (r: seq<T>)
    ensures SortOf(s, key, r)
  {
    KeysAreWeaklyOrdered(s, key);
    r := Sortable(s, ByKey(key));
    SortedByItsKey(r, key);
  }

  /** Elements that tie can be exchanged; when they differ, that is another result. */
  lemma TieAdmitsAnotherOrder<T(!new)>(s: seq<T>, key: T -> string, r: seq<T>, i: nat, j: nat)
    requires SortOf(s, key, r) && i < j < |r| && key(r[i]) == key(r[j])
    ensures SortOf(s, key, r[i := r[j]][j := r[i]])
    ensures r[i] != r[j] ==> r[i := r[j]][j := r[i]] != r
  {
    var t := r[i := r[j]][j := r[i]];
    forall k | 0 <= k < |r|
      ensures key(t[k]) == key(r[k])
    {
    }
    assert t[i] == r[j];
  }
}
