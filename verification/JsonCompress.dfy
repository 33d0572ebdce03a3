/** Structure-preserving JSON compression (core/context_manager.go:712-801): long arrays
    keep their ends and their errors, runs of other elements become counting markers. */
module JsonCompress {
  import opened Text

  datatype Json = Null | Bool(b: bool) | Num(n: int) | Str(s: string) | Arr(items: seq<Json>) | Obj(fields: map<string, Json>)

  // ----- error detection

  /** strings.ToLower as far as these tests can tell: every character whose lower case
      is an ASCII letter. */
  function Lower(s: string): (r: string)
    ensures |r| == |s|
  {
    seq(|s|, i requires 0 <= i < |s| =>
      if 'A' <= s[i] <= 'Z' then s[i] + ' ' else if s[i] == '\U{130}' then 'i' else if s[i] == '\U{212a}' then 'k' else s[i])
  }

  predicate WordAt(s: string, w: string, i: int) {
    0 <= i <= |s| - |w| && s[i..i + |w|] == w
  }

  predicate ContainsWord(s: string, w: string) {
    exists i :: 0 <= i <= |s| && WordAt(s, w, i)
  }

  predicate ErrorKey(k: string) {
    var l := Lower(k);
    ContainsWord(l, "error") || ContainsWord(l, "fail") || ContainsWord(l, "exception")
  }

  predicate ErrorText(s: string) {
    var l := Lower(s);
    ContainsWord(l, "error") || ContainsWord(l, "fail") || ContainsWord(l, "exception") || ContainsWord(l, "fatal") || ContainsWord(l, "panic")
  }

  predicate ContainsError(node: Json) {
    match node
    case Str(s) => ErrorText(s)
    case Obj(f) => exists k :: k in f && (ErrorKey(k) || ContainsError(f[k]))
    case Arr(items) => exists i :: 0 <= i < |items| && ContainsError(items[i])
    case _ => false
  }

  // ----- compression

  const MARK := "_compressed_count"

  function Marker(count: nat): (r: Json) {
    Obj(map[MARK := Num(count)])
  }

  function Flush(count: nat): (r: seq<Json>) {
    if count > 0 then [Marker(count)] else []
  }

  predicate Keep(cs: seq<Json>, i: nat)
    requires i < |cs|
  {
    i < 2 || i >= |cs| - 2 || ContainsError(cs[i])
  }

  /** The output and the running count after the first `i` elements. */
  function Scan(cs: seq<Json>, i: nat): (r: (seq<Json>, nat))
    requires i <= |cs|
  {
    if i == 0 then ([], 0)
    else
      var (out, count) := Scan(cs, i - 1);
      if Keep(cs, i - 1) then (out + Flush(count) + [cs[i - 1]], 0) else (out, count + 1)
  }

  function Shrunk(cs: seq<Json>): (r: seq<Json>) {
    var (out, count) := Scan(cs, |cs|);
    out + Flush(count)
  }

  function Compress(node: Json): (r: Json) {
    match node
    case Arr(items) =>
      var cs := seq(|items|, i requires 0 <= i < |items| => Compress(items[i]));
      Arr(if |items| <= 5 then cs else Shrunk(cs))
    case Obj(f) => Obj(map k | k in f :: Compress(f[k]))
    case _ => node
  }

  /** Whether the source reports a change; in a long array only dropped elements count. */
  predicate Changed(node: Json) {
    match node
    case Arr(items) =>
      if |items| <= 5 then exists i :: 0 <= i < |items| && Changed(items[i])
      else exists i :: 0 <= i < |items| && !Keep(Compressed(items), i)
    case Obj(f) => exists k :: k in f && Changed(f[k])
    case _ => false
  }

  function Compressed(items: seq<Json>): (cs: seq<Json>)
    ensures |cs| == |items|
  {
    seq(|items|, i requires 0 <= i < |items| => Compress(items[i]))
  }

  method CompressNode(node: Json) returns (out: Json, changed: bool)
    ensures out == Compress(node) && changed == Changed(node)
    decreases node, 1
  {
    match node {
      case Arr(items) =>
        if |items| <= 5 {
          out, changed := CompressShort(node);
        } else {
          out, changed := CompressLong(node);
        }
      case Obj(f) => out, changed := CompressFields(node);
      case _ => out, changed := node, false;
    }
  }

  method CompressShort(node: Json) returns (out: Json, changed: bool)
    requires node.Arr? && |node.items| <= 5
    ensures out == Compress(node) && changed == Changed(node)
    decreases node, 0
  {
    var items := node.items;
    changed := false;
    var newItems: seq<Json> := [];
    for i := 0 to |items|
      invariant newItems == Compressed(items[..i])
      invariant changed == exists j :: 0 <= j < i && Changed(items[j])
    {
      var c, cChanged := CompressNode(items[i]);
      newItems := newItems + [c];
      changed := changed || cChanged;
    }
    assert items[..|items|] == items;
    out := Arr(newItems);
  }

  method CompressLong(node: Json) returns (out: Json, changed: bool)
    requires node.Arr? && |node.items| > 5
    ensures out == Compress(node) && changed == Changed(node)
    decreases node, 0
  {
    var items := node.items;
    ghost var cs := Compressed(items);
    changed := false;
    var result: seq<Json> := [];
    var count: nat := 0;
    for i := 0 to |items|
      invariant (result, count) == Scan(cs, i)
      invariant changed == AnyDropped(cs, i)
    {
      var c, _ := CompressNode(items[i]);
      var isError := ContainsError(c);
      ScanNext(cs, i, result, count);
      assert Keep(cs, i) == (i < 2 || i >= |items| - 2 || isError);
      if i < 2 || i >= |items| - 2 || isError {
        if count > 0 {
          result := result + [Marker(count)];
          count := 0;
        }
        result := result + [c];
      } else {
        count := count + 1;
        changed := true;
      }
    }
    if count > 0 {
      result := result + [Marker(count)];
    }
    out := Arr(result);
    LongMeaning(items);
  }

  lemma LongMeaning(items: seq<Json>)
    requires |items| > 5
    ensures Compress(Arr(items)) == Arr(Shrunk(Compressed(items)))
    ensures Changed(Arr(items)) <==> AnyDropped(Compressed(items), |items|)
  {
    AnyDroppedIff(Compressed(items), |items|);
  }

  predicate AnyDropped(cs: seq<Json>, i: nat)
    requires i <= |cs|
  {
    i > 0 && (AnyDropped(cs, i - 1) || !Keep(cs, i - 1))
  }

  lemma {:induction false} AnyDroppedIff(cs: seq<Json>, i: nat)
    requires i <= |cs|
    ensures AnyDropped(cs, i) <==> exists j :: 0 <= j < i && !Keep(cs, j)
  {
    if i > 0 { AnyDroppedIff(cs, i - 1); }
  }

  lemma ScanNext(cs: seq<Json>, i: nat, out: seq<Json>, count: nat)
    requires i < |cs| && Scan(cs, i) == (out, count)
    ensures Keep(cs, i) && count == 0 ==> Scan(cs, i + 1) == (out + [cs[i]], 0)
    ensures Keep(cs, i) && count > 0 ==> Scan(cs, i + 1) == (out + [Marker(count)] + [cs[i]], 0)
    ensures !Keep(cs, i) ==> Scan(cs, i + 1) == (out, count + 1)
  {
    assert out + [] == out;
  }

  method CompressFields(node: Json) returns (out: Json, changed: bool)
    requires node.Obj?
    ensures out == Compress(node) && changed == Changed(node)
    decreases node, 0
  {
    var f := node.fields;
    changed := false;
    var newFields: map<string, Json> := map[];
    var todo := f.Keys;
    while todo != {}
      invariant todo <= f.Keys && newFields.Keys == f.Keys - todo
      invariant forall k :: k in newFields ==> newFields[k] == Compress(f[k])
      invariant changed == exists k :: k in f && k !in todo && Changed(f[k])
      decreases todo
    {
      var k :| k in todo;
      todo := todo - {k};
      var c, cChanged := CompressNode(f[k]);
      newFields := newFields[k := c];
      changed := changed || cChanged;
    }
    out := Obj(newFields);
  }

  // ----- errors are never hidden

  lemma NoWord(l: string, w: string)
    requires |w| >= 2 && forall i :: 0 <= i < |l| - 1 ==> l[i] != w[0] || l[i + 1] != w[1]
    ensures !ContainsWord(l, w)
  {
    forall i | 0 <= i <= |l| - |w| ensures !WordAt(l, w, i) {
      assert l[i..i + |w|][0] == l[i] && l[i..i + |w|][1] == l[i + 1];
    }
  }

  lemma MarkIsNoError()
    ensures !ErrorKey(MARK)
  {
    var l := Lower(MARK);
    assert l == MARK;
    NoWord(l, "error");
    NoWord(l, "fail");
    NoWord(l, "exception");
  }

  lemma MarkerHasNoError(count: nat)
    ensures !ContainsError(Marker(count))
  {
    MarkIsNoError();
  }

  lemma {:induction false} ScanErrors(cs: seq<Json>, i: nat)
    requires i <= |cs|
    ensures (exists x :: x in Scan(cs, i).0 && ContainsError(x)) <==> (exists j :: 0 <= j < i && ContainsError(cs[j]))
  {
    if i > 0 {
      ScanErrors(cs, i - 1);
      var (out, count) := Scan(cs, i - 1);
      MarkerHasNoError(count);
      if Keep(cs, i - 1) {
        var out' := out + Flush(count) + [cs[i - 1]];
        assert forall x :: x in out' <==> x in out || x in Flush(count) || x == cs[i - 1];
      }
    }
  }

  predicate SameError(x: Json) {
    ContainsError(Compress(x)) <==> ContainsError(x)
  }

  lemma ArrayErrors(items: seq<Json>)
    requires forall i :: 0 <= i < |items| ==> SameError(items[i])
    ensures SameError(Arr(items))
  {
    var cs := Compressed(items);
    assert forall i :: 0 <= i < |items| ==> (ContainsError(cs[i]) <==> ContainsError(items[i]));
    if |items| > 5 {
      ScanErrors(cs, |cs|);
      var (out, count) := Scan(cs, |cs|);
      MarkerHasNoError(count);
      var r := out + Flush(count);
      assert Compress(Arr(items)) == Arr(r);
      MembersOrIndices(r);
      assert forall x :: x in r <==> x in out || x in Flush(count);
    } else {
      assert Compress(Arr(items)) == Arr(cs);
    }
  }

  lemma ObjectErrors(f: map<string, Json>)
    requires forall k :: k in f ==> SameError(f[k])
    ensures SameError(Obj(f))
  {
    var g := map k | k in f :: Compress(f[k]);
    assert Compress(Obj(f)) == Obj(g);
    assert forall k :: k in f ==> (ContainsError(g[k]) <==> ContainsError(f[k]));
  }

  /** The error test answers the same before and after compression, for every tree. */
  lemma {:induction false} ErrorsPreserved(node: Json)
    ensures ContainsError(Compress(node)) <==> ContainsError(node)
    decreases node
  {
    match node {
      case Arr(items) =>
        forall i | 0 <= i < |items| ensures SameError(items[i]) { ErrorsPreserved(items[i]); }
        ArrayErrors(items);
      case Obj(f) =>
        forall k | k in f ensures SameError(f[k]) { ErrorsPreserved(f[k]); }
        ObjectErrors(f);
      case _ =>
    }
  }

  lemma MembersOrIndices(r: seq<Json>)
    ensures (exists i :: 0 <= i < |r| && ContainsError(r[i])) <==> (exists x :: x in r && ContainsError(x))
  {
  }

  // ----- nothing is lost without trace

  predicate IsMarker(x: Json) {
    x.Obj? && MARK in x.fields && x.fields.Keys == {MARK} && x.fields[MARK].Num? && x.fields[MARK].n >= 1
  }

  function Gaps(n: nat): (e: seq<Option<Json>>) {
    seq(n, _ => None)
  }

  /** What a reader of the markers reconstructs: an element or a gap per position. */
  function Expand(r: seq<Json>): (e: seq<Option<Json>>) {
    if r == [] then []
    else
      var n := |r| - 1;
      Expand(r[..n]) + (if IsMarker(r[n]) then Gaps(r[n].fields[MARK].n) else [Some(r[n])])
  }

  /** Each position holds its element if it is kept, and a gap otherwise. */
  function Gapped(cs: seq<Json>, i: nat): (e: seq<Option<Json>>)
    requires i <= |cs|
    ensures |e| == i
  {
    seq(i, j requires 0 <= j < i => if Keep(cs, j) then Some(cs[j]) else None)
  }

  lemma ExpandSnoc(r: seq<Json>, x: Json)
    ensures Expand(r + [x]) == Expand(r) + (if IsMarker(x) then Gaps(x.fields[MARK].n) else [Some(x)])
  {
    assert (r + [x])[..|r|] == r;
  }

  lemma ExpandFlush(r: seq<Json>, count: nat)
    ensures Expand(r + Flush(count)) == Expand(r) + Gaps(count)
  {
    if count > 0 {
      ExpandSnoc(r, Marker(count));
    } else {
      assert r + Flush(count) == r;
    }
  }

  lemma GappedNext(cs: seq<Json>, i: nat)
    requires i < |cs|
    ensures Gapped(cs, i + 1) == Gapped(cs, i) + [if Keep(cs, i) then Some(cs[i]) else None]
  {
  }

  lemma KeptExpands(out: seq<Json>, count: nat, x: Json)
    ensures Expand(out + Flush(count) + [x]) == Expand(out) + Gaps(count) + if IsMarker(x) then Gaps(x.fields[MARK].n) else [Some(x)]
  {
    ExpandFlush(out, count);
    ExpandSnoc(out + Flush(count), x);
  }

  lemma DroppedExpands(out: seq<Json>, count: nat)
    ensures Expand(out) + Gaps(count + 1) == Expand(out) + Gaps(count) + [None]
  {
    assert Gaps(count + 1) == Gaps(count) + [None];
    assert Expand(out) + (Gaps(count) + [None]) == Expand(out) + Gaps(count) + [None];
  }

  lemma {:induction false} ScanExpands(cs: seq<Json>, i: nat)
    requires i <= |cs| && LookAlikes(cs, i) == 0
    ensures Expand(Scan(cs, i).0) + Gaps(Scan(cs, i).1) == Gapped(cs, i)
  {
    if i > 0 {
      ScanExpands(cs, i - 1);
      GappedNext(cs, i - 1);
      var (out, count) := Scan(cs, i - 1);
      if Keep(cs, i - 1) {
        KeptExpands(out, count, cs[i - 1]);
        assert Expand(Scan(cs, i).0) + Gaps(0) == Expand(Scan(cs, i).0);
      } else {
        DroppedExpands(out, count);
      }
    }
  }

  /** How many kept elements look like markers. */
  function LookAlikes(cs: seq<Json>, i: nat): (n: nat)
    requires i <= |cs|
  {
    if i == 0 then 0 else LookAlikes(cs, i - 1) + if Keep(cs, i - 1) && IsMarker(cs[i - 1]) then 1 else 0
  }

  lemma {:induction false} LookAlikesIff(cs: seq<Json>, i: nat)
    requires i <= |cs|
    ensures LookAlikes(cs, i) == 0 <==> forall j :: 0 <= j < i && Keep(cs, j) ==> !IsMarker(cs[j])
  {
    if i > 0 { LookAlikesIff(cs, i - 1); }
  }

  // ----- reading back is exact only without look-alikes

  function Elements(e: seq<Option<Json>>): (n: nat) {
    if e == [] then 0 else Elements(e[..|e| - 1]) + if e[|e| - 1].Some? then 1 else 0
  }

  lemma {:induction false} ElementsConcat(a: seq<Option<Json>>, b: seq<Option<Json>>)
    ensures Elements(a + b) == Elements(a) + Elements(b)
    decreases |b|
  {
    if b == [] {
      assert a + b == a;
    } else {
      ElementsConcat(a, b[..|b| - 1]);
      assert (a + b)[..|a + b| - 1] == a + b[..|b| - 1];
    }
  }

  lemma {:induction false} NoElements(n: nat)
    ensures Elements(Gaps(n)) == 0
  {
    if n > 0 {
      NoElements(n - 1);
      assert Gaps(n)[..n - 1] == Gaps(n - 1);
    }
  }

  lemma GappedElements(cs: seq<Json>, i: nat)
    requires i < |cs|
    ensures Elements(Gapped(cs, i + 1)) == Elements(Gapped(cs, i)) + if Keep(cs, i) then 1 else 0
  {
    assert Gapped(cs, i + 1)[..i] == Gapped(cs, i);
  }

  /** The reader misses exactly the kept elements that look like markers. */
  lemma {:induction false} FewerElements(cs: seq<Json>, i: nat)
    requires i <= |cs|
    ensures Elements(Expand(Scan(cs, i).0)) + LookAlikes(cs, i) == Elements(Gapped(cs, i))
  {
    if i > 0 {
      FewerElements(cs, i - 1);
      GappedElements(cs, i - 1);
      if Keep(cs, i - 1) { KeptElement(Scan(cs, i - 1).0, Scan(cs, i - 1).1, cs[i - 1]); }
    }
  }

  lemma KeptElement(out: seq<Json>, count: nat, x: Json)
    ensures Elements(Expand(out + Flush(count) + [x])) == Elements(Expand(out)) + if IsMarker(x) then 0 else 1
  {
    var last := if IsMarker(x) then Gaps(x.fields[MARK].n) else [Some(x)];
    KeptExpands(out, count, x);
    ElementsConcat(Expand(out) + Gaps(count), last);
    ElementsConcat(Expand(out), Gaps(count));
    NoElements(count);
    if IsMarker(x) { NoElements(x.fields[MARK].n); } else { OneElement(x); }
  }

  lemma OneElement(x: Json)
    ensures Elements([Some(x)]) == 1
  {
    var e := [Some(x)];
    assert e[..0] == [];
  }

  /** Reading the markers back gives every position of the original array (kept elements in
      order at their own positions, and counts that add up to the gaps between them) if and
      only if no kept element looks like a marker. */
  lemma ShrunkExpandsIff(cs: seq<Json>)
    ensures Expand(Shrunk(cs)) == Gapped(cs, |cs|) <==> forall j :: 0 <= j < |cs| && Keep(cs, j) ==> !IsMarker(cs[j])
  {
    var (out, count) := Scan(cs, |cs|);
    ExpandFlush(out, count);
    LookAlikesIff(cs, |cs|);
    if LookAlikes(cs, |cs|) == 0 {
      ScanExpands(cs, |cs|);
    } else {
      FewerElements(cs, |cs|);
      ElementsConcat(Expand(out), Gaps(count));
      NoElements(count);
    }
  }

  /** Compression makes and unmakes no marker. */
  lemma CompressedMarker(node: Json)
    ensures IsMarker(Compress(node)) <==> IsMarker(node)
  {
  }

  /** For every long array: all positions are accounted for if and only if no kept element is
      itself a marker. */
  lemma CompressionAccountsIff(items: seq<Json>)
    requires |items| > 5
    ensures Compress(Arr(items)).Arr?
    ensures Expand(Compress(Arr(items)).items) == Gapped(Compressed(items), |items|)
       <==> forall j :: 0 <= j < |items| && Keep(Compressed(items), j) ==> !IsMarker(items[j])
  {
    var cs := Compressed(items);
    forall j | 0 <= j < |cs| ensures IsMarker(cs[j]) <==> IsMarker(items[j]) { CompressedMarker(items[j]); }
    ShrunkExpandsIff(cs);
  }
}
