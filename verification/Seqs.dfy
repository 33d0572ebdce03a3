/** Facts about lists and sets that several modules share. */
module Seqs {

  function Filter<T>(s: seq<T>, keep: T -> bool): (r: seq<T>) {
    if s == [] then []
    else
      var r := Filter(s[..|s| - 1], keep);
      if keep(s[|s| - 1]) then r + [s[|s| - 1]] else r
  }

  lemma FilterSnoc<T>(s: seq<T>, x: T, keep: T -> bool)
    ensures Filter(s + [x], keep) == if keep(x) then Filter(s, keep) + [x] else Filter(s, keep)
  {
    assert (s + [x])[..|s|] == s;
  }

  lemma {:induction false} FilterConcat<T>(s: seq<T>, t: seq<T>, keep: T -> bool)
    ensures Filter(s + t, keep) == Filter(s, keep) + Filter(t, keep)
    decreases |t|
  {
    if t == [] {
      assert s + t == s;
    } else {
      var n := |t| - 1;
      FilterConcat(s, t[..n], keep);
      assert s + t == s + t[..n] + [t[n]];
      FilterSnoc(s + t[..n], t[n], keep);
    }
  }

  lemma {:induction false} FilterMembers<T>(s: seq<T>, keep: T -> bool)
    ensures forall x :: x in Filter(s, keep) <==> x in s && keep(x)
    decreases |s|
  {
    if s != [] {
      var n := |s| - 1;
      FilterMembers(s[..n], keep);
      assert s == s[..n] + [s[n]];
    }
  }

  lemma {:induction false} FilterMultiset<T>(s: seq<T>, keep: T -> bool, x: T)
    ensures multiset(Filter(s, keep))[x] == if keep(x) then multiset(s)[x] else 0
    decreases |s|
  {
    if s != [] {
      var n := |s| - 1;
      FilterMultiset(s[..n], keep, x);
      assert s == s[..n] + [s[n]];
    }
  }

  /** When exactly the first `i` elements pass, they are what is left. */
  lemma {:induction false} FilterPrefix<T>(s: seq<T>, keep: T -> bool, i: nat)
    requires i <= |s| && forall j :: 0 <= j < |s| ==> (keep(s[j]) <==> j < i)
    ensures Filter(s, keep) == s[..i]
    decreases |s|
  {
    if s != [] {
      var n := |s| - 1;
      FilterPrefix(s[..n], keep, if i <= n then i else n);
      if i <= n { assert s[..n][..i] == s[..i]; } else { assert s[..n] + [s[n]] == s[..i]; }
    }
  }

  lemma {:induction false} FilterShorter<T>(s: seq<T>, keep: T -> bool)
    ensures |Filter(s, keep)| <= |s|
    ensures (exists x :: x in s && !keep(x)) ==> |Filter(s, keep)| < |s|
    decreases |s|
  {
    if s != [] {
      var n := |s| - 1;
      FilterShorter(s[..n], keep);
      assert s == s[..n] + [s[n]];
    }
  }

  lemma PermutedLength<T>(a: seq<T>, b: seq<T>)
    requires multiset(a) == multiset(b)
    ensures |a| == |b|
  {
    assert |multiset(a)| == |a| && |multiset(b)| == |b|;
  }

  /** Filtering permuted lists gives permuted lists. */
  lemma FilterPermuted<T(!new)>(s: seq<T>, t: seq<T>, keep: T -> bool)
    requires multiset(s) == multiset(t)
    ensures multiset(Filter(s, keep)) == multiset(Filter(t, keep))
  {
    var a, b := multiset(Filter(s, keep)), multiset(Filter(t, keep));
    forall x: T ensures a[x] == b[x] {
      FilterMultiset(s, keep, x);
      FilterMultiset(t, keep, x);
    }
    assert a == b;
  }

  lemma PermutedMembers<T>(s: seq<T>, t: seq<T>)
    requires multiset(s) == multiset(t)
    ensures forall x :: x in s <==> x in t
  {
    forall x ensures x in s <==> x in t {
      assert x in s <==> x in multiset(s);
      assert x in t <==> x in multiset(t);
    }
  }

  lemma {:induction false} SubsetSize<T>(a: set<T>, b: set<T>)
    requires a <= b
    ensures |a| <= |b|
  {
    if x :| x in a { SubsetSize(a - {x}, b - {x}); }
  }
}
