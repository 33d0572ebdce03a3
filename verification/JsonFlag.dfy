/** The change flag of JSON compression (core/context_manager.go:700-776): the compressed text is
    used only when it is set, and it does not always mean that something changed. */
module JsonFlag {
  import opened JsonCompress
  import opened JsonRecompress

  /** What compression leaves as it is: in a long array the kept elements must be so, and what is
      dropped must be a marker of one standing alone. */
  predicate Unaltered(node: Json) {
    match node
    case Arr(items) =>
      if |items| <= 5 then forall i :: 0 <= i < |items| ==> Unaltered(items[i])
      else
        && SingleGaps(items)
        && forall i :: 0 <= i < |items| ==> if Keep(items, i) then Unaltered(items[i]) else items[i] == Marker(1)
    case Obj(f) => forall k :: k in f ==> Unaltered(f[k])
    case _ => true
  }

  /** A long array, reached through short ones and objects, holds something that is altered. */
  predicate Hidden(node: Json) {
    match node
    case Arr(items) =>
      if |items| <= 5 then exists i :: 0 <= i < |items| && Hidden(items[i])
      else exists i :: 0 <= i < |items| && !Unaltered(items[i])
    case Obj(f) => exists k :: k in f && Hidden(f[k])
    case _ => false
  }

  /** A long array, reached through short ones and objects, drops something. */
  predicate Drops(node: Json) {
    match node
    case Arr(items) =>
      if |items| <= 5 then exists i :: 0 <= i < |items| && Drops(items[i])
      else exists i :: 0 <= i < |items| && !Keep(items, i)
    case Obj(f) => exists k :: k in f && Drops(f[k])
    case _ => false
  }

  lemma KeepSame(items: seq<Json>, i: nat)
    requires i < |items|
    ensures Keep(Compressed(items), i) <==> Keep(items, i)
  {
    ErrorsPreserved(items[i]);
  }

  lemma GapsSame(items: seq<Json>)
    ensures SingleGaps(Compressed(items)) <==> SingleGaps(items)
  {
    var cs := Compressed(items);
    forall j | 0 <= j < |items| - 1 ensures BothDropped(cs, j) <==> BothDropped(items, j) {
      KeepSame(items, j);
      KeepSame(items, j + 1);
    }
  }

  // ----- what a long array becomes

  /** What stands at a position when gaps are single. */
  function Placed(cs: seq<Json>, j: nat): (x: Json)
    requires j < |cs|
  {
    if Keep(cs, j) then cs[j] else Marker(1)
  }

  lemma {:induction false} SingleScan(cs: seq<Json>, i: nat)
    requires i <= |cs| && SingleGaps(cs)
    ensures var (out, count) := Scan(cs, i);
      && |out| + count == i && count <= 1 && (count == 1 ==> i > 0 && !Keep(cs, i - 1))
      && forall j :: 0 <= j < |out| ==> out[j] == Placed(cs, j)
  {
    if i > 0 {
      SingleScan(cs, i - 1);
      ShortCount(cs, i);
    }
  }

  lemma {:induction false} LengthAtMost(cs: seq<Json>, i: nat, j: nat)
    requires i <= j <= |cs|
    ensures Length(cs, j) <= Length(cs, i) + j - i
    decreases j
  {
    if i < j {
      LengthAtMost(cs, i, j - 1);
      LengthNext(cs, j - 1);
    }
  }

  lemma GapShortens(cs: seq<Json>, j: nat)
    requires j < |cs| - 1 && BothDropped(cs, j)
    ensures |Shrunk(cs)| < |cs|
  {
    LengthAtMost(cs, 0, j + 1);
    LengthNext(cs, j + 1);
    LengthAtMost(cs, j + 2, |cs|);
  }

  /** A long array comes out as a given list of its length if and only if its gaps are single and
      the list has the kept elements and markers of one in their places. */
  lemma ShrunkIs(cs: seq<Json>, items: seq<Json>)
    requires |items| == |cs| > 5
    ensures Shrunk(cs) == items <==> SingleGaps(cs) && forall j :: 0 <= j < |cs| ==> items[j] == Placed(cs, j)
  {
    if SingleGaps(cs) {
      LastKept(cs);
      SingleScan(cs, |cs|);
    } else {
      var j: nat :| j < |cs| - 1 && BothDropped(cs, j);
      GapShortens(cs, j);
    }
  }

  // ----- exactly what is left as it is

  predicate AsIs(x: Json) {
    Compress(x) == x
  }

  lemma ArrayUnaltered(items: seq<Json>)
    requires forall i :: 0 <= i < |items| ==> (AsIs(items[i]) <==> Unaltered(items[i]))
    ensures AsIs(Arr(items)) <==> Unaltered(Arr(items))
  {
    var cs := Compressed(items);
    if |items| <= 5 {
      assert Compress(Arr(items)) == Arr(cs);
      assert cs == items <==> forall i :: 0 <= i < |items| ==> AsIs(items[i]);
    } else {
      LongMeaning(items);
      ShrunkIs(cs, items);
      GapsSame(items);
      forall i | 0 <= i < |items|
        ensures items[i] == Placed(cs, i) <==> if Keep(items, i) then Unaltered(items[i]) else items[i] == Marker(1)
      {
        KeepSame(items, i);
      }
    }
  }

  lemma ObjectUnaltered(f: map<string, Json>)
    requires forall k :: k in f ==> (AsIs(f[k]) <==> Unaltered(f[k]))
    ensures AsIs(Obj(f)) <==> Unaltered(Obj(f))
  {
    var g := map k | k in f :: Compress(f[k]);
    assert Compress(Obj(f)) == Obj(g);
    assert g == f <==> forall k :: k in f ==> g[k] == f[k];
  }

  /** For every tree: compression leaves it as it is if and only if it is unaltered. */
  lemma {:induction false} UnalteredIff(node: Json)
    ensures Compress(node) == node <==> Unaltered(node)
    decreases node
  {
    match node {
      case Arr(items) =>
        forall i | 0 <= i < |items| ensures AsIs(items[i]) <==> Unaltered(items[i]) { UnalteredIff(items[i]); }
        ArrayUnaltered(items);
      case Obj(f) =>
        forall k | k in f ensures AsIs(f[k]) <==> Unaltered(f[k]) { UnalteredIff(f[k]); }
        ObjectUnaltered(f);
      case _ =>
    }
  }

  // ----- the flag

  lemma LongChanged(items: seq<Json>)
    requires |items| > 5
    ensures Changed(Arr(items)) <==> Drops(Arr(items))
  {
    forall i | 0 <= i < |items| ensures Keep(Compressed(items), i) <==> Keep(items, i) { KeepSame(items, i); }
  }

  /** For every tree: the flag is set if and only if something is dropped. */
  lemma {:induction false} ChangedIff(node: Json)
    ensures Changed(node) <==> Drops(node)
    decreases node
  {
    match node {
      case Arr(items) =>
        if |items| > 5 {
          LongChanged(items);
        } else {
          forall i | 0 <= i < |items| ensures Changed(items[i]) <==> Drops(items[i]) { ChangedIff(items[i]); }
        }
      case Obj(f) =>
        forall k | k in f ensures Changed(f[k]) <==> Drops(f[k]) { ChangedIff(f[k]); }
      case _ =>
    }
  }

  /** Where nothing is dropped a tree is altered if and only if the alteration is hidden in a long array. */
  lemma {:induction false} UndroppedIff(node: Json)
    requires !Drops(node)
    ensures !Unaltered(node) <==> Hidden(node)
    decreases node
  {
    match node {
      case Arr(items) =>
        if |items| > 5 {
          assert SingleGaps(items);
        } else {
          forall i | 0 <= i < |items| ensures !Unaltered(items[i]) <==> Hidden(items[i]) { UndroppedIff(items[i]); }
        }
      case Obj(f) =>
        forall k | k in f ensures !Unaltered(f[k]) <==> Hidden(f[k]) { UndroppedIff(f[k]); }
      case _ =>
    }
  }

  /** For every tree: the flag says whether compression changes it if and only if something is
      dropped and the tree is altered, or nothing is dropped and nothing is hidden. */
  lemma FlagIff(node: Json)
    ensures (Changed(node) <==> Compress(node) != node) <==> if Drops(node) then !Unaltered(node) else !Hidden(node)
  {
    ChangedIff(node);
    UnalteredIff(node);
    if !Drops(node) { UndroppedIff(node); }
  }

  /** The text handed on is the compressed one if and only if something is dropped or nothing is hidden. */
  lemma OutputIff(node: Json)
    ensures (if Changed(node) then Compress(node) else node) == Compress(node) <==> Drops(node) || !Hidden(node)
  {
    ChangedIff(node);
    UnalteredIff(node);
    if !Drops(node) { UndroppedIff(node); }
  }

  // ----- both ways it goes wrong

  lemma SixAltered(z: Json)
    requires !ContainsError(z) && z != Marker(1)
    ensures !Unaltered(Arr([z, z, z, z, z, z]))
  {
    var items := [z, z, z, z, z, z];
    assert !Keep(items, 2) && items[2] == z;
  }

  /** A long array without a dropped element hides the compression of an array inside it. */
  lemma FlagMisses(z: Json, e: Json)
    requires z.Num? && ContainsError(e)
    ensures var node := Arr([Arr([z, z, z, z, z, z]), z, e, e, z, z]); !Changed(node) && Compress(node) != node
  {
    var items := [Arr([z, z, z, z, z, z]), z, e, e, z, z];
    SixAltered(z);
    assert !Unaltered(items[0]);
    assert forall i :: 0 <= i < |items| ==> Keep(items, i);
    ChangedIff(Arr(items));
    UnalteredIff(Arr(items));
    UndroppedIff(Arr(items));
  }

  /** A lone marker of one is dropped and replaced by itself. */
  lemma FlagFalseAlarm(z: Json, e: Json)
    requires z.Num? && e.Str? && ContainsError(e)
    ensures var node := Arr([z, z, Marker(1), e, z, z]); Changed(node) && Compress(node) == node
  {
    var items := [z, z, Marker(1), e, z, z];
    MarkerHasNoError(1);
    ChangedIff(Arr(items));
    assert Keep(items, 0) && Keep(items, 1) && !Keep(items, 2) && Keep(items, 3) && Keep(items, 4) && Keep(items, 5);
    assert SingleGaps(items);
    UnalteredIff(Arr(items));
  }
}
