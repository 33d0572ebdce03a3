/** The ordering of a list by a numeric key, as the source obtains it from
    sort.Slice: some sorted permutation, with ties in no promised order. */
module Sorting {

  ghost predicate SortedBy<T(!new)>(s: seq<T>, key: T -> real) {
    forall i, j :: 0 <= i < j < |s| ==> key(s[i]) <= key(s[j])
  }

  lemma InsertSorted<T(!new)>(r: seq<T>, i: nat, x: T, key: T -> real)
    requires SortedBy(r, key) && i <= |r|
    requires forall j :: 0 <= j < i ==> key(r[j]) <= key(x)
    requires i < |r| ==> key(x) <= key(r[i])
    ensures SortedBy(r[..i] + [x] + r[i..], key)
  {
    var t := r[..i] + [x] + r[i..];
    forall a, b | 0 <= a < b < |t| ensures key(t[a]) <= key(t[b]) {
      if a > i { assert t[a] == r[a - 1] && t[b] == r[b - 1]; }
      else if b > i { assert t[b] == r[b - 1]; }
    }
  }

  lemma Spliced<T>(r: seq<T>, i: nat, x: T)
    requires i <= |r|
    ensures multiset(r[..i] + [x] + r[i..]) == multiset(r) + multiset{x}
  {
    assert r == r[..i] + r[i..];
  }

  /** The place of `x` in a sorted list, after everything not larger. */
  function Place<T(!new)>(r: seq<T>, x: T, key: T -> real, i: nat): (k: nat)
    requires i <= |r| && forall j :: 0 <= j < i ==> key(r[j]) <= key(x)
    ensures i <= k <= |r| && (forall j :: 0 <= j < k ==> key(r[j]) <= key(x)) && (k < |r| ==> key(x) < key(r[k]))
    decreases |r| - i
  {
    if i < |r| && key(r[i]) <= key(x) then Place(r, x, key, i + 1) else i
  }

  function Insert<T(!new)>(r: seq<T>, x: T, key: T -> real): (t: seq<T>)
    requires SortedBy(r, key)
    ensures SortedBy(t, key) && multiset(t) == multiset(r) + multiset{x}
  {
    var i := Place(r, x, key, 0);
    InsertSorted(r, i, x, key);
    Spliced(r, i, x);
    r[..i] + [x] + r[i..]
  }

  /** Insertion sort; only `SortedBy` and the permutation are promised. */
  method SortBy<T(!new)>(s: seq<T>, key: T -> real) returns (r: seq<T>)
    ensures SortedBy(r, key)
    ensures multiset(r) == multiset(s)
  {
    r := [];
    for n := 0 to |s|
      invariant SortedBy(r, key)
      invariant multiset(r) == multiset(s[..n])
    {
      assert s[..n + 1] == s[..n] + [s[n]];
      r := Insert(r, s[n], key);
    }
    assert s[..|s|] == s;
  }

  /** Every list has a sorted permutation. */
  lemma {:induction false} SortExists<T(!new)>(s: seq<T>, key: T -> real) returns (r: seq<T>)
    ensures SortedBy(r, key)
    ensures multiset(r) == multiset(s)
    decreases |s|
  {
    if s == [] {
      r := [];
    } else {
      var n := |s| - 1;
      r := SortExists(s[..n], key);
      r := Insert(r, s[n], key);
      assert s == s[..n] + [s[n]];
    }
  }
}
