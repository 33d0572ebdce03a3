/** Compressing what is compressed already (core/context_manager.go:712-776): exactly the
    trees that a second pass leaves alone, and what it does to the gaps of the others. */
module JsonRecompress {
  import opened JsonCompress

  // ----- lengths

  /** The length of the output once the running count is flushed. */
  function Length(cs: seq<Json>, i: nat): (n: nat)
    requires i <= |cs|
  {
    |Scan(cs, i).0| + |Flush(Scan(cs, i).1)|
  }

  lemma LengthNext(cs: seq<Json>, i: nat)
    requires i < |cs|
    ensures Length(cs, i + 1) == Length(cs, i) + if Keep(cs, i) || Scan(cs, i).1 == 0 then 1 else 0
  {
  }

  lemma {:induction false} LengthGrows(cs: seq<Json>, i: nat, j: nat)
    requires i <= j <= |cs|
    ensures Length(cs, i) <= Length(cs, j)
    decreases j
  {
    if i < j {
      LengthGrows(cs, i, j - 1);
      LengthNext(cs, j - 1);
    }
  }

  lemma {:induction false} HeadLength(cs: seq<Json>, i: nat)
    requires i <= 2 && i <= |cs|
    ensures Scan(cs, i).1 == 0 && |Scan(cs, i).0| == i
  {
    if i > 0 { HeadLength(cs, i - 1); }
  }

  lemma {:induction false} TailLength(cs: seq<Json>, i: nat)
    requires |cs| - 2 <= i <= |cs|
    ensures |Shrunk(cs)| == Length(cs, i) + |cs| - i
    decreases |cs| - i
  {
    if i < |cs| {
      TailLength(cs, i + 1);
      LengthNext(cs, i);
    }
  }

  lemma LastKept(cs: seq<Json>)
    requires cs != []
    ensures Scan(cs, |cs|).1 == 0 && Shrunk(cs) == Scan(cs, |cs|).0
  {
    assert Keep(cs, |cs| - 1);
  }

  // ----- when the first result is short

  lemma {:induction false} MiddleRun(cs: seq<Json>, i: nat)
    requires 2 <= i <= |cs| - 2 && forall j :: 2 <= j < i ==> !Keep(cs, j)
    ensures |Scan(cs, i).0| == 2 && Scan(cs, i).1 == i - 2
  {
    if i == 2 { HeadLength(cs, 2); } else { MiddleRun(cs, i - 1); }
  }

  predicate NoMiddleKept(cs: seq<Json>) {
    forall j :: 2 <= j < |cs| - 2 ==> !Keep(cs, j)
  }

  /** A long array shrinks to five elements or fewer exactly when nothing in its middle is kept. */
  lemma ShortIff(cs: seq<Json>)
    requires |cs| > 5
    ensures |Shrunk(cs)| <= 5 <==> NoMiddleKept(cs)
  {
    var n := |cs| - 2;
    TailLength(cs, n);
    if NoMiddleKept(cs) {
      MiddleRun(cs, n);
    } else {
      var m :| 2 <= m < n && Keep(cs, m);
      HeadLength(cs, 2);
      LengthNext(cs, 2);
      LengthNext(cs, m);
      if m > 2 { LengthGrows(cs, 3, m); LengthGrows(cs, m + 1, n); }
      else { LengthNext(cs, 3); LengthGrows(cs, 4, n); }
    }
  }

  // ----- the second pass

  /** What a second pass over a long result makes of it: kept elements are compressed again
      and every marker counts one. */
  function Again(cs: seq<Json>, i: nat): (out: seq<Json>)
    requires i <= |cs|
    ensures |out| == |Scan(cs, i).0|
  {
    if i == 0 then []
    else if Keep(cs, i - 1) then Again(cs, i - 1) + (if Scan(cs, i - 1).1 > 0 then [Marker(1)] else []) + [Compress(cs[i - 1])]
    else Again(cs, i - 1)
  }

  lemma {:induction false} ScanPrefix(cs: seq<Json>, i: nat, j: nat)
    requires i <= j <= |cs|
    ensures Scan(cs, i).0 <= Scan(cs, j).0
    decreases j
  {
    if i < j { ScanPrefix(cs, i, j - 1); }
  }

  /** Where a kept element of the first pass stands in its result, and that it is kept again. */
  lemma KeptAgain(cs: seq<Json>, i: nat, q: nat)
    requires i < |cs| && |cs| > 5 && Keep(cs, i) && q == Length(cs, i)
    ensures q < |Shrunk(cs)| && Shrunk(cs)[q] == cs[i] && Keep(Compressed(Shrunk(cs)), q)
  {
    var r := Shrunk(cs);
    LastKept(cs);
    ScanPrefix(cs, i + 1, |cs|);
    var (out, count) := Scan(cs, i);
    assert Scan(cs, i + 1).0 == out + Flush(count) + [cs[i]];
    assert Scan(cs, i + 1).0[q] == cs[i];
    if i < 2 { HeadLength(cs, i); }
    else if i >= |cs| - 2 { TailLength(cs, i); }
    else { ErrorsPreserved(cs[i]); }
  }

  /** The marker before a kept element is dropped by the second pass. */
  lemma MarkerDropped(cs: seq<Json>, i: nat, p: nat)
    requires i < |cs| && |cs| > 5 && Keep(cs, i) && Scan(cs, i).1 > 0 && p == |Scan(cs, i).0|
    ensures p < |Shrunk(cs)| && Shrunk(cs)[p] == Marker(Scan(cs, i).1) && !Keep(Compressed(Shrunk(cs)), p)
  {
    LastKept(cs);
    ScanPrefix(cs, i + 1, |cs|);
    var (out, count) := Scan(cs, i);
    assert Scan(cs, i + 1).0 == out + Flush(count) + [cs[i]];
    assert Scan(cs, i + 1).0[p] == Marker(count);
    MarkerStable(count);
    MarkerHasNoError(count);
    Inside(cs, i);
  }

  /** A flushed marker has two elements before it and two after it. */
  lemma Inside(cs: seq<Json>, i: nat)
    requires i < |cs| && |cs| > 5 && Scan(cs, i).1 > 0
    ensures 2 <= |Scan(cs, i).0| && |Scan(cs, i).0| + 2 < |Shrunk(cs)|
  {
    if i <= 2 { HeadLength(cs, i); }
    HeadLength(cs, 2);
    ScanPrefix(cs, 2, i);
    assert i <= |cs| - 2;
    LengthGrows(cs, i, |cs| - 2);
    TailLength(cs, |cs| - 2);
  }

  lemma MarkerStable(count: nat)
    ensures Compress(Marker(count)) == Marker(count)
  {
    assert Compress(Num(count)) == Num(count);
  }

  lemma ScanStep(cs: seq<Json>, i: nat, out: seq<Json>)
    requires i < |cs| && Scan(cs, i) == (out, 0) && Keep(cs, i)
    ensures Scan(cs, i + 1) == (out + [cs[i]], 0)
  {
    ScanNext(cs, i, out, 0);
  }

  lemma ScanTwo(cs: seq<Json>, i: nat, out: seq<Json>)
    requires i + 1 < |cs| && Scan(cs, i) == (out, 0) && !Keep(cs, i) && Keep(cs, i + 1)
    ensures Scan(cs, i + 2) == (out + [Marker(1)] + [cs[i + 1]], 0)
  {
    ScanNext(cs, i, out, 0);
    ScanNext(cs, i + 1, out, 1);
  }

  /** The state of the second pass where the first had looked at `i` elements. */
  predicate SecondAt(cs: seq<Json>, i: nat)
    requires i <= |cs|
  {
    var p := |Scan(cs, i).0|;
    p <= |Shrunk(cs)| && Scan(Compressed(Shrunk(cs)), p) == (Again(cs, i), 0)
  }

  /** One kept element right after another, through the second pass. */
  lemma SecondPlain(cs: seq<Json>, i: nat)
    requires i < |cs| && |cs| > 5 && Keep(cs, i) && Scan(cs, i).1 == 0 && SecondAt(cs, i)
    ensures SecondAt(cs, i + 1)
  {
    var again, p := Compressed(Shrunk(cs)), |Scan(cs, i).0|;
    KeptAgain(cs, i, p);
    assert again[p] == Compress(cs[i]);
    ScanStep(again, p, Again(cs, i));
    assert Again(cs, i) + [] == Again(cs, i);
  }

  /** One kept element after a marker. */
  lemma SecondMarked(cs: seq<Json>, i: nat)
    requires i < |cs| && |cs| > 5 && Keep(cs, i) && Scan(cs, i).1 > 0 && SecondAt(cs, i)
    ensures SecondAt(cs, i + 1)
  {
    var again, p := Compressed(Shrunk(cs)), |Scan(cs, i).0|;
    KeptAgain(cs, i, p + 1);
    assert again[p + 1] == Compress(cs[i]);
    MarkerDropped(cs, i, p);
    ScanTwo(again, p, Again(cs, i));
  }

  lemma {:induction false} SecondScan(cs: seq<Json>, i: nat)
    requires i <= |cs| && |cs| > 5
    ensures SecondAt(cs, i)
  {
    if i > 0 {
      SecondScan(cs, i - 1);
      if Keep(cs, i - 1) {
        if Scan(cs, i - 1).1 > 0 { SecondMarked(cs, i - 1); } else { SecondPlain(cs, i - 1); }
      }
    }
  }

  /** The second pass over a result of more than five elements turns every gap into one of one. */
  lemma SecondPass(cs: seq<Json>)
    requires |cs| > 5
    ensures Shrunk(Compressed(Shrunk(cs))) == Again(cs, |cs|)
  {
    LastKept(cs);
    SecondScan(cs, |cs|);
    assert Again(cs, |cs|) + [] == Again(cs, |cs|);
  }

  // ----- when the two passes agree

  /** Every marker flushed so far counts one. */
  predicate SingleTo(cs: seq<Json>, i: nat)
    requires i <= |cs|
  {
    i == 0 || (SingleTo(cs, i - 1) && (Keep(cs, i - 1) ==> Scan(cs, i - 1).1 <= 1))
  }

  /** Every element kept so far compresses to itself. */
  predicate StableTo(cs: seq<Json>, i: nat)
    requires i <= |cs|
  {
    i == 0 || (StableTo(cs, i - 1) && (Keep(cs, i - 1) ==> Compress(cs[i - 1]) == cs[i - 1]))
  }

  lemma {:induction false} StableAll(cs: seq<Json>, i: nat)
    requires i <= |cs|
    ensures StableTo(cs, i) <==> forall j :: 0 <= j < i && Keep(cs, j) ==> Compress(cs[j]) == cs[j]
  {
    if i > 0 { StableAll(cs, i - 1); }
  }

  lemma MarkersDiffer(a: nat, b: nat)
    ensures Marker(a) == Marker(b) <==> a == b
  {
    assert Marker(a).fields[MARK] == Num(a) && Marker(b).fields[MARK] == Num(b);
  }

  lemma SplitEqual(a: seq<Json>, b: seq<Json>, x: seq<Json>, y: seq<Json>, u: Json, v: Json)
    requires |a| == |b| && |x| == |y|
    ensures a + x + [u] == b + y + [v] <==> a == b && x == y && u == v
  {
    if a + x + [u] == b + y + [v] {
      assert a == (a + x + [u])[..|a|] && b == (b + y + [v])[..|a|];
      assert x == (a + x + [u])[|a|..|a| + |x|] && y == (b + y + [v])[|a|..|a| + |x|];
      assert u == (a + x + [u])[|a| + |x|] && v == (b + y + [v])[|a| + |x|];
    }
  }

  lemma KeptSame(a: seq<Json>, out: seq<Json>, count: nat, x: Json, y: Json)
    requires |a| == |out|
    ensures a + (if count > 0 then [Marker(1)] else []) + [x] == out + Flush(count) + [y] <==> a == out && count <= 1 && x == y
  {
    MarkersDiffer(1, count);
    SplitEqual(a, out, if count > 0 then [Marker(1)] else [], Flush(count), x, y);
  }

  lemma {:induction false} AgainSame(cs: seq<Json>, i: nat)
    requires i <= |cs|
    ensures Again(cs, i) == Scan(cs, i).0 <==> SingleTo(cs, i) && StableTo(cs, i)
  {
    if i > 0 {
      AgainSame(cs, i - 1);
      if Keep(cs, i - 1) { KeptSame(Again(cs, i - 1), Scan(cs, i - 1).0, Scan(cs, i - 1).1, Compress(cs[i - 1]), cs[i - 1]); }
    }
  }

  /** No two neighbours are both dropped. */
  predicate SingleGaps(cs: seq<Json>) {
    forall j :: 0 <= j < |cs| - 1 ==> !BothDropped(cs, j)
  }

  predicate BothDropped(cs: seq<Json>, j: nat)
    requires j < |cs| - 1
  {
    !Keep(cs, j) && !Keep(cs, j + 1)
  }

  lemma {:induction false} SingleAt(cs: seq<Json>, i: nat, j: nat)
    requires j < i <= |cs| && SingleTo(cs, i) && Keep(cs, j)
    ensures Scan(cs, j).1 <= 1
    decreases i
  {
    if j < i - 1 { SingleAt(cs, i - 1, j); }
  }

  lemma {:induction false} SingleFrom(cs: seq<Json>, i: nat)
    requires i <= |cs| && SingleGaps(cs)
    ensures SingleTo(cs, i)
  {
    if i > 0 {
      SingleFrom(cs, i - 1);
      if i > 1 { ShortCount(cs, i - 1); }
    }
  }

  /** A count of two is flushed by the next kept element. */
  lemma {:induction false} LongFlushed(cs: seq<Json>, i: nat)
    requires i < |cs| && Scan(cs, i).1 >= 2
    ensures !SingleTo(cs, |cs|)
    decreases |cs| - i
  {
    if Keep(cs, i) {
      if SingleTo(cs, |cs|) { SingleAt(cs, |cs|, i); }
    } else {
      assert i + 1 < |cs|;
      LongFlushed(cs, i + 1);
    }
  }

  lemma DoubleGap(cs: seq<Json>, j: nat)
    requires j < |cs| - 1 && BothDropped(cs, j)
    ensures !SingleTo(cs, |cs|)
  {
    assert Scan(cs, j + 1).1 == Scan(cs, j).1 + 1;
    assert Scan(cs, j + 2).1 == Scan(cs, j + 1).1 + 1;
    LongFlushed(cs, j + 2);
  }

  lemma SingleIff(cs: seq<Json>)
    ensures SingleTo(cs, |cs|) <==> SingleGaps(cs)
  {
    if SingleGaps(cs) {
      SingleFrom(cs, |cs|);
    } else {
      var j: nat :| j < |cs| - 1 && BothDropped(cs, j);
      DoubleGap(cs, j);
    }
  }

  lemma {:induction false} ShortCount(cs: seq<Json>, i: nat)
    requires 0 < i <= |cs| && SingleGaps(cs)
    ensures Scan(cs, i).1 <= 1
  {
    if i > 1 && !Keep(cs, i - 1) {
      assert !BothDropped(cs, i - 2);
      assert Keep(cs, i - 2);
    }
  }

  // ----- short results

  lemma MappedSnoc(out: seq<Json>, count: nat, x: Json)
    ensures Compressed(out + Flush(count) + [x]) == Compressed(out) + Flush(count) + [Compress(x)]
  {
    MarkerStable(count);
  }

  /** A short result changes only through its kept elements. */
  lemma {:induction false} MappedSame(cs: seq<Json>, i: nat)
    requires i <= |cs|
    ensures Compressed(Scan(cs, i).0) == Scan(cs, i).0 <==> StableTo(cs, i)
  {
    if i > 0 {
      MappedSame(cs, i - 1);
      if Keep(cs, i - 1) {
        var (out, count) := Scan(cs, i - 1);
        MappedSnoc(out, count, cs[i - 1]);
        SplitEqual(Compressed(out), out, Flush(count), Flush(count), Compress(cs[i - 1]), cs[i - 1]);
      }
    }
  }

  // ----- whole trees

  /** What a second pass leaves alone: in long arrays the kept elements must be so, and either
      nothing in the middle is kept or no two neighbours are dropped. */
  predicate Stable(node: Json) {
    match node
    case Arr(items) =>
      if |items| <= 5 then forall i :: 0 <= i < |items| ==> Stable(items[i])
      else
        && (forall i :: 0 <= i < |items| && Keep(Compressed(items), i) ==> Stable(items[i]))
        && (NoMiddleKept(Compressed(items)) || SingleGaps(Compressed(items)))
    case Obj(f) => forall k :: k in f ==> Stable(f[k])
    case _ => true
  }

  lemma LongTwice(cs: seq<Json>)
    requires |cs| > 5
    ensures Compress(Arr(Shrunk(cs))) == Arr(Shrunk(cs)) <==> StableTo(cs, |cs|) && (NoMiddleKept(cs) || SingleGaps(cs))
  {
    var r := Shrunk(cs);
    LastKept(cs);
    ShortIff(cs);
    assert Compress(Arr(r)) == Arr(if |r| <= 5 then Compressed(r) else Shrunk(Compressed(r)));
    if |r| <= 5 {
      MappedSame(cs, |cs|);
    } else {
      SecondPass(cs);
      AgainSame(cs, |cs|);
      SingleIff(cs);
    }
  }

  predicate Settled(x: Json) {
    Compress(Compress(x)) == Compress(x)
  }

  lemma ArrayTwice(items: seq<Json>)
    requires forall i :: 0 <= i < |items| ==> (Settled(items[i]) <==> Stable(items[i]))
    ensures Settled(Arr(items)) <==> Stable(Arr(items))
  {
    var cs := Compressed(items);
    assert forall i :: 0 <= i < |items| ==> (Compress(cs[i]) == cs[i] <==> Settled(items[i]));
    if |items| > 5 {
      LongTwice(cs);
      StableAll(cs, |cs|);
      assert Compress(Arr(items)) == Arr(Shrunk(cs));
    } else {
      assert Compress(Arr(items)) == Arr(cs) && Compress(Arr(cs)) == Arr(Compressed(cs));
      assert Compressed(cs) == cs <==> forall i :: 0 <= i < |cs| ==> Compress(cs[i]) == cs[i];
    }
  }

  lemma ObjectTwice(f: map<string, Json>)
    requires forall k :: k in f ==> (Settled(f[k]) <==> Stable(f[k]))
    ensures Settled(Obj(f)) <==> Stable(Obj(f))
  {
    var g := map k | k in f :: Compress(f[k]);
    var h := map k | k in g :: Compress(g[k]);
    assert Compress(Obj(f)) == Obj(g) && Compress(Obj(g)) == Obj(h);
    assert forall k :: k in f ==> (h[k] == g[k] <==> Settled(f[k]));
    assert h.Keys == g.Keys == f.Keys;
    assert h == g <==> forall k :: k in f ==> h[k] == g[k];
  }

  /** For every tree: compressing twice is compressing once if and only if it is stable. */
  lemma {:induction false} CompressTwiceIff(node: Json)
    ensures Compress(Compress(node)) == Compress(node) <==> Stable(node)
    decreases node
  {
    match node {
      case Arr(items) =>
        forall i | 0 <= i < |items| ensures Settled(items[i]) <==> Stable(items[i]) { CompressTwiceIff(items[i]); }
        ArrayTwice(items);
      case Obj(f) =>
        forall k | k in f ensures Settled(f[k]) <==> Stable(f[k]) { CompressTwiceIff(f[k]); }
        ObjectTwice(f);
      case _ =>
    }
  }

  // ----- one that is not

  /** Two elements with a gap before an error shrink to a marker. */
  lemma ShrinkSeven(x: Json, e: Json)
    requires !ContainsError(x) && ContainsError(e)
    ensures Shrunk([x, x, x, x, e, x, x]) == [x, x, Marker(2), e, x, x]
  {
    var cs := [x, x, x, x, e, x, x];
    ScanNext(cs, 0, [], 0);
    assert [] + [x] == [x];
    ScanNext(cs, 1, [x], 0);
    assert [x] + [x] == [x, x];
    ScanNext(cs, 2, [x, x], 0);
    ScanNext(cs, 3, [x, x], 1);
    ScanNext(cs, 4, [x, x], 2);
    assert [x, x] + [Marker(2)] + [e] == [x, x, Marker(2), e];
    ScanNext(cs, 5, [x, x, Marker(2), e], 0);
    assert [x, x, Marker(2), e] + [x] == [x, x, Marker(2), e, x];
    ScanNext(cs, 6, [x, x, Marker(2), e, x], 0);
    assert [x, x, Marker(2), e, x] + [x] == [x, x, Marker(2), e, x, x];
  }

  lemma ShrinkSix(x: Json, m: Json, e: Json)
    requires !ContainsError(x) && !ContainsError(m) && ContainsError(e)
    ensures Shrunk([x, x, m, e, x, x]) == [x, x, Marker(1), e, x, x]
  {
    var cs := [x, x, m, e, x, x];
    ScanNext(cs, 0, [], 0);
    assert [] + [x] == [x];
    ScanNext(cs, 1, [x], 0);
    assert [x] + [x] == [x, x];
    ScanNext(cs, 2, [x, x], 0);
    ScanNext(cs, 3, [x, x], 1);
    assert [x, x] + [Marker(1)] + [e] == [x, x, Marker(1), e];
    ScanNext(cs, 4, [x, x, Marker(1), e], 0);
    assert [x, x, Marker(1), e] + [x] == [x, x, Marker(1), e, x];
    ScanNext(cs, 5, [x, x, Marker(1), e, x], 0);
    assert [x, x, Marker(1), e, x] + [x] == [x, x, Marker(1), e, x, x];
  }

  /** The marker of a gap of two is itself dropped and counted as one element. */
  lemma RecompressionMiscounts(x: Json, e: Json)
    requires !ContainsError(x) && ContainsError(e)
    ensures var cs := [x, x, x, x, e, x, x];
      Shrunk(cs) == [x, x, Marker(2), e, x, x] && Shrunk(Shrunk(cs)) == [x, x, Marker(1), e, x, x]
  {
    ShrinkSeven(x, e);
    MarkerHasNoError(2);
    ShrinkSix(x, Marker(2), e);
  }
}
