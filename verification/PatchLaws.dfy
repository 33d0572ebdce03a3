/** Laws of the patch engine at any depth: when insert and remove undo each
    other, what a move and its reverse restore, what an edit leaves alone, and
    where "replace" departs from section 4.3 of RFC 6902. */
module PatchLaws {
  import opened Text
  import opened Patches

  // ----- a single container

  lemma WithChildGet(n: Node, key: string, c: Node)
    requires Child(n, key).Some?
    ensures Child(WithChild(n, key, c), key) == Some(c)
    ensures WithChild(n, key, Child(n, key).value) == n
  {
    match n {
      case Dict(m) => assert m[key := m[key]] == m;
      case List(s) => assert s[Index(s, key).value := s[Index(s, key).value]] == s;
      case Record(sh, f) => assert f[sh.names[key] := f[sh.names[key]]] == f;
    }
  }

  lemma WithChildTwice(n: Node, key: string, a: Node, b: Node)
    requires Child(n, key).Some? && Child(WithChild(n, key, a), key).Some?
    ensures WithChild(WithChild(n, key, a), key, b) == WithChild(n, key, b)
  {
    match n {
      case Dict(m) => assert m[key := a][key := b] == m[key := b];
      case List(s) => assert s[Index(s, key).value := a][Index(s, key).value := b] == s[Index(s, key).value := b];
      case Record(sh, f) => assert f[sh.names[key] := a][sh.names[key] := b] == f[sh.names[key] := b];
    }
  }

  /** Putting `v` under `key` of container `p` and removing it again restores `p`:
      a fresh map key, an integer slice index (not the append mark), or a struct
      field that the removal lookup also finds and that was zero. */
  predicate PutUndoable(p: Node, key: string, v: Node) {
    match p
    case Dict(m) => key !in m
    case List(s) => Atoi(key).Some?
    case Record(sh, f) =>
      && key in sh.names && key in sh.strict && sh.strict[key] in f && sh.strict[key] in sh.zero
      && f[sh.strict[key]] == sh.zero[sh.strict[key]]
      && (sh.strict[key] != sh.names[key] ==> sh.names[key] in f && f[sh.names[key]] == v)
    case _ => false
  }

  lemma LeafPutDrop(p: Node, key: string, v: Node)
    requires EditAt(p, key, Put(v)).Some?
    ensures EditAt(EditAt(p, key, Put(v)).value, key, Drop) == Some(p) <==> PutUndoable(p, key, v)
  {
    match p {
      case Dict(m) =>
        if key !in m { assert m[key := v] - {key} == m; }
        else { assert key in m.Keys && key !in (m[key := v] - {key}).Keys; }
      case List(s) =>
        match Atoi(key) {
          case None =>
          case Some(i) =>
            var t := s[..i] + [v] + s[i..];
            assert t[..i] + t[i + 1..] == s;
        }
      case Record(sh, f) =>
        var a := sh.names[key];
        if key in sh.strict && sh.strict[key] in f && sh.strict[key] in sh.zero {
          var b := sh.strict[key];
          var g := f[a := v][b := sh.zero[b]];
          assert g == f <==> (g[a] == f[a] && g[b] == f[b]);
        }
    }
  }

  /** Removing the value under `key` and putting it back restores container `p`:
      always in maps and slices; in structs when removal clears the very field that
      reading finds, or a field that was zero already. */
  predicate DropUndoable(p: Node, key: string) {
    p.Record? && key in p.shape.names && key in p.shape.strict && p.shape.strict[key] in p.fields && p.shape.strict[key] in p.shape.zero ==>
      p.shape.strict[key] == p.shape.names[key] || p.fields[p.shape.strict[key]] == p.shape.zero[p.shape.strict[key]]
  }

  lemma LeafDropPut(p: Node, key: string)
    requires Child(p, key).Some? && EditAt(p, key, Drop).Some?
    ensures EditAt(EditAt(p, key, Drop).value, key, Put(Child(p, key).value)) == Some(p) <==> DropUndoable(p, key)
  {
    match p {
      case Dict(m) => assert (m - {key})[key := m[key]] == m;
      case List(s) =>
        var i := Index(s, key).value;
        var t := s[..i] + s[i + 1..];
        assert t[..i] + [s[i]] + t[i..] == s;
      case Record(sh, f) =>
        var a, b := sh.names[key], sh.strict[key];
        var g := f[b := sh.zero[b]][a := f[a]];
        assert g == f <==> g[b] == f[b];
    }
  }

  // ----- the same at any depth

  /** Editing below a path edits the container at its end and nothing above it. */
  lemma {:induction false} ParentOfEdit(t: Node, parts: seq<string>, e: Edit)
    requires parts != []
    ensures Apply(t, parts, e).Some? <==> Parent(t, parts).Some? && EditAt(Parent(t, parts).value, parts[|parts| - 1], e).Some?
    ensures Apply(t, parts, e).Some? ==>
      Parent(Apply(t, parts, e).value, parts) == EditAt(Parent(t, parts).value, parts[|parts| - 1], e)
    decreases |parts|
  {
    if !t.Nil? && |parts| > 1 {
      var c := Child(t, parts[0]);
      if c.Some? {
        ParentOfEdit(c.value, parts[1..], e);
        var c' := Apply(c.value, parts[1..], e);
        if c'.Some? { WithChildGet(t, parts[0], c'.value); }
      }
    }
  }

  /** Two edits in a row at one path give back the tree exactly when they give
      back the container at the end of the path. */
  lemma {:induction false} EditTwice(t: Node, parts: seq<string>, e: Edit, f: Edit)
    requires parts != [] && Apply(t, parts, e).Some?
    ensures Parent(t, parts).Some? && EditAt(Parent(t, parts).value, parts[|parts| - 1], e).Some?
    ensures var p, k := Parent(t, parts).value, parts[|parts| - 1];
      Apply(Apply(t, parts, e).value, parts, f) == Some(t) <==> EditAt(EditAt(p, k, e).value, k, f) == Some(p)
    decreases |parts|
  {
    if |parts| > 1 {
      var k, c := parts[0], Child(t, parts[0]).value;
      var c1 := Apply(c, parts[1..], e).value;
      EditTwice(c, parts[1..], e, f);
      WithChildGet(t, k, c1);
      WithChildGet(t, k, c);
      var r := Apply(c1, parts[1..], f);
      if r.Some? {
        WithChildTwice(t, k, c1, r.value);
        WithChildGet(t, k, r.value);
      }
    }
  }

  /** Put then remove at the same path restores the tree if and only if the
      container admits it. */
  lemma PutDropIff(t: Node, parts: seq<string>, v: Node)
    requires parts != [] && Apply(t, parts, Put(v)).Some?
    ensures Parent(t, parts).Some?
    ensures Apply(Apply(t, parts, Put(v)).value, parts, Drop) == Some(t)
       <==> PutUndoable(Parent(t, parts).value, parts[|parts| - 1], v)
  {
    EditTwice(t, parts, Put(v), Drop);
    LeafPutDrop(Parent(t, parts).value, parts[|parts| - 1], v);
  }

  /** Remove then put back at the same path restores the tree if and only if the
      container admits it. */
  lemma DropPutIff(t: Node, parts: seq<string>)
    requires parts != [] && Get(t, parts).Some? && Apply(t, parts, Drop).Some?
    ensures Apply(Apply(t, parts, Drop).value, parts, Put(Get(t, parts).value)) == Some(t)
       <==> DropUndoable(Parent(t, parts).value, parts[|parts| - 1])
  {
    EditTwice(t, parts, Drop, Put(Get(t, parts).value));
    LeafDropPut(Parent(t, parts).value, parts[|parts| - 1]);
  }

  /** What was put is found again, unless it was appended with the "-" mark. */
  lemma PutGet(t: Node, parts: seq<string>, v: Node)
    requires parts != [] && Apply(t, parts, Put(v)).Some?
    ensures Parent(t, parts).Some?
    ensures Get(Apply(t, parts, Put(v)).value, parts) == Some(v)
       <==> !(Parent(t, parts).value.List? && Atoi(parts[|parts| - 1]).None?)
  {
    ParentOfEdit(t, parts, Put(v));
  }

  /** Moving there and back restores the document, whatever shifts the two steps cause. */
  lemma MoveBack(t: Node, from: seq<string>, to: seq<string>)
    requires from != [] && to != [] && Move(t, from, to).ok
    requires DropUndoable(Parent(t, from).value, from[|from| - 1])
    requires var mid := Apply(t, from, Drop).value;
      Parent(mid, to).Some? && PutUndoable(Parent(mid, to).value, to[|to| - 1], Get(t, from).value)
    ensures Move(Move(t, from, to).doc, to, from) == Outcome(t, true)
  {
    var v := Get(t, from).value;
    var mid := Apply(t, from, Drop).value;
    PutDropIff(mid, to, v);
    PutGet(mid, to, v);
    DropPutIff(t, from);
  }

  // ----- what an edit leaves alone

  /** Where a path part leads in a container; "0", "00" and "+0" are one slot. */
  function Slot(n: Node, key: string): (r: string) {
    match n
    case List(s) => (match Index(s, key) case Some(i) => Digits(i) case None => key)
    case Record(sh, f) => if key in sh.names then sh.names[key] else key
    case _ => key
  }

  /** Inside the edited container: the sibling under `q` is found under `q'` after the edit.
      Map keys and struct fields stay; list positions from the edit on shift by one. */
  predicate Sibling(n: Node, key: string, e: Edit, q: string, q': string) {
    match n
    case Dict(_) => q == q' && q != key
    case Record(sh, _) =>
      var found := if e.Put? then sh.names else sh.strict;
      q == q' && (q in sh.names && key in found ==> sh.names[q] != found[key])
    case List(s) =>
      (match (Atoi(q), Atoi(q'))
       case (Some(j), Some(j')) =>
         if e.Put? then
           var i := if Atoi(key).Some? then Atoi(key).value else |s|;
           j' == if j < i then j else j + 1
         else
           Atoi(key).Some? && j != Atoi(key).value && j' == if j < Atoi(key).value then j else j - 1
       case _ => false)
    case _ => false
  }

  lemma SiblingKept(n: Node, key: string, e: Edit, q: string, q': string)
    requires EditAt(n, key, e).Some? && Sibling(n, key, e, q, q')
    ensures Child(EditAt(n, key, e).value, q') == Child(n, q)
  {
    match n {
      case Dict(_) =>
      case Record(_, _) =>
      case List(s) => ShiftedKept(s, key, e, q, q');
    }
  }

  lemma ShiftedKept(s: seq<Node>, key: string, e: Edit, q: string, q': string)
    requires EditAt(List(s), key, e).Some? && Sibling(List(s), key, e, q, q')
    ensures Child(EditAt(List(s), key, e).value, q') == Child(List(s), q)
  {
    var j, j' := Atoi(q).value, Atoi(q').value;
    var r := EditAt(List(s), key, e).value.items;
    assert (0 <= j < |s| <==> 0 <= j' < |r|) && (0 <= j < |s| ==> r[j'] == s[j]);
  }

  /** The value at path `q` is off the edited spine `p` and is found at `q'` after the edit. */
  predicate Tracks(n: Node, p: seq<string>, e: Edit, q: seq<string>, q': seq<string>)
    decreases |p|
  {
    && p != [] && q != [] && q' != []
    && if |p| == 1 then Sibling(n, p[0], e, q[0], q'[0]) && q[1..] == q'[1..]
       else if Child(n, q[0]).None? || Slot(n, p[0]) != Slot(n, q[0]) then q == q'
       else q[0] == q'[0] && Tracks(Child(n, q[0]).value, p[1..], e, q[1..], q'[1..])
  }

  lemma OtherSlot(n: Node, p: string, q: string, c: Node)
    requires Child(n, p).Some?
    ensures Child(n, q).None? || Slot(n, p) != Slot(n, q) ==> Child(WithChild(n, p, c), q) == Child(n, q)
    ensures Child(n, q).Some? && Slot(n, p) == Slot(n, q) ==> Child(WithChild(n, p, c), q) == Some(c) && Child(n, p) == Child(n, q)
  {
    if n.List? && Child(n, q).Some? && Slot(n, p) == Slot(n, q) {
      DigitsRoundTrip(Index(n.items, p).value);
      DigitsRoundTrip(Index(n.items, q).value);
    }
  }

  /** Everything off the edited spine is untouched: branches above the container, and the
      siblings within it, shifted by one behind an inserted or removed list element. */
  lemma {:induction false} EditFrame(t: Node, p: seq<string>, e: Edit, q: seq<string>, q': seq<string>)
    requires Tracks(t, p, e, q, q') && Apply(t, p, e).Some?
    ensures Get(Apply(t, p, e).value, q') == Get(t, q)
    decreases |p|
  {
    var t' := Apply(t, p, e).value;
    GetStep(t, q);
    GetStep(t', q');
    if |p| == 1 {
      SiblingKept(t, p[0], e, q[0], q'[0]);
    } else {
      var c := Child(t, p[0]).value;
      OtherSlot(t, p[0], q[0], Apply(c, p[1..], e).value);
      if Child(t, q[0]).Some? && Slot(t, p[0]) == Slot(t, q[0]) {
        EditFrame(c, p[1..], e, q[1..], q'[1..]);
      }
    }
  }

  lemma GetStep(t: Node, q: seq<string>)
    requires q != []
    ensures Get(t, q) == if t.Nil? || Child(t, q[0]).None? then None else Get(Child(t, q[0]).value, q[1..])
  {
  }

  // ----- replace

  /** Section 4.3 of RFC 6902: the target must exist and is overwritten. */
  function RfcReplaceAt(n: Node, key: string, v: Node): (r: Option<Node>) {
    if Child(n, key).Some? then Some(WithChild(n, key, v)) else None
  }

  /** Where the two part: a missing map key is added, and at a slice position, the end
      included, the value is inserted. */
  predicate ReplacesAsRfc(n: Node, key: string) {
    && !(n.Dict? && key !in n.entries)
    && !(n.List? && (key == "-" || (Atoi(key).Some? && 0 <= Atoi(key).value <= |n.items|)))
  }

  lemma LeafReplace(n: Node, key: string, v: Node)
    ensures EditAt(n, key, Put(v)) == RfcReplaceAt(n, key, v) <==> ReplacesAsRfc(n, key)
  {
    if n.List? && Atoi(key).Some? && 0 <= Atoi(key).value < |n.items| {
      var i := Atoi(key).value;
      assert |n.items[..i] + [v] + n.items[i..]| != |n.items[i := v]|;
    }
  }

  function RfcReplace(n: Node, parts: seq<string>, v: Node): (r: Option<Node>)
    requires parts != []
    decreases |parts|
  {
    if n.Nil? then None
    else if |parts| == 1 then RfcReplaceAt(n, parts[0], v)
    else match Child(n, parts[0])
      case None => None
      case Some(c) =>
        match RfcReplace(c, parts[1..], v)
        case None => None
        case Some(c') => Some(WithChild(n, parts[0], c'))
  }

  /** The reference: it succeeds exactly where a value is found, the value is then `v`, and
      replacing it by the old one gives the tree back. */
  lemma {:induction false} RfcReplaceMeaning(t: Node, parts: seq<string>, v: Node)
    requires parts != []
    ensures RfcReplace(t, parts, v).Some? <==> !t.Nil? && Get(t, parts).Some?
    ensures RfcReplace(t, parts, v).Some? ==>
      && Get(RfcReplace(t, parts, v).value, parts) == Some(v)
      && RfcReplace(RfcReplace(t, parts, v).value, parts, Get(t, parts).value) == Some(t)
    decreases |parts|
  {
    GetStep(t, parts);
    if !t.Nil? && Child(t, parts[0]).Some? {
      var c := Child(t, parts[0]).value;
      WithChildGet(t, parts[0], c);
      if |parts| == 1 {
        WithChildGet(t, parts[0], v);
        WithChildTwice(t, parts[0], v, c);
      } else {
        RfcReplaceMeaning(c, parts[1..], v);
        GetStep(c, parts[1..]);
        if RfcReplace(c, parts[1..], v).Some? {
          var c' := RfcReplace(c, parts[1..], v).value;
          WithChildGet(t, parts[0], c');
          WithChildTwice(t, parts[0], c', c);
          GetStep(WithChild(t, parts[0], c'), parts);
        }
      }
    }
  }

  /** At any depth the source's "replace" is the RFC's if and only if the container is missing
      or replaces as the RFC says. */
  lemma {:induction false} ReplaceAgreesIff(t: Node, parts: seq<string>, v: Node)
    requires parts != []
    ensures Apply(t, parts, Put(v)) == RfcReplace(t, parts, v) <==>
      (Parent(t, parts).Some? ==> ReplacesAsRfc(Parent(t, parts).value, parts[|parts| - 1]))
    decreases |parts|
  {
    if !t.Nil? && |parts| == 1 {
      LeafReplace(t, parts[0], v);
    } else if !t.Nil? && Child(t, parts[0]).Some? {
      var c := Child(t, parts[0]).value;
      ReplaceAgreesIff(c, parts[1..], v);
      var a, b := Apply(c, parts[1..], Put(v)), RfcReplace(c, parts[1..], v);
      if a.Some? && b.Some? {
        WithChildGet(t, parts[0], a.value);
        WithChildGet(t, parts[0], b.value);
      }
    }
  }

  // ----- moves that fail

  /** The container takes a value under `key`. */
  predicate Takes(p: Node, key: string) {
    match p
    case Dict(_) => true
    case List(s) => key == "-" || (Atoi(key).Some? && 0 <= Atoi(key).value <= |s|)
    case Record(sh, f) => key in sh.names && sh.names[key] in f
    case _ => false
  }

  /** Removing what is read under `key` fails or changes nothing: a struct field that the
      removal lookup does not find, or finds zero. */
  predicate Clings(p: Node, key: string) {
    p.Record? &&
    var sh, f := p.shape, p.fields;
    !(key in sh.strict && sh.strict[key] in f && sh.strict[key] in sh.zero) || f[sh.strict[key]] == sh.zero[sh.strict[key]]
  }

  lemma TakesIff(p: Node, key: string, v: Node)
    ensures EditAt(p, key, Put(v)).Some? <==> Takes(p, key)
  {
  }

  lemma LeafClings(p: Node, key: string)
    requires Child(p, key).Some?
    ensures EditAt(p, key, Drop).None? || EditAt(p, key, Drop) == Some(p) <==> Clings(p, key)
  {
    match p {
      case Dict(m) => assert key in m.Keys && key !in (m - {key}).Keys;
      case List(s) => assert |s[..Index(s, key).value] + s[Index(s, key).value + 1..]| != |s|;
      case Record(sh, f) =>
        if key in sh.strict && sh.strict[key] in f && sh.strict[key] in sh.zero {
          var b := sh.strict[key];
          assert f[b := sh.zero[b]] == f <==> f[b := sh.zero[b]][b] == f[b];
        }
    }
  }

  lemma {:induction false} DropIdle(t: Node, parts: seq<string>)
    requires parts != [] && Apply(t, parts, Drop).Some?
    ensures Parent(t, parts).Some?
    ensures Apply(t, parts, Drop) == Some(t) <==>
      EditAt(Parent(t, parts).value, parts[|parts| - 1], Drop) == Parent(t, parts)
    decreases |parts|
  {
    if |parts| > 1 {
      var c := Child(t, parts[0]).value;
      DropIdle(c, parts[1..]);
      WithChildGet(t, parts[0], c);
      WithChildGet(t, parts[0], Apply(c, parts[1..], Drop).value);
    }
  }

  /** A move fails if and only if its source is not found, its removal fails, or the document
      without it has no container at the target or one that refuses the value. */
  lemma MoveFailsIff(t: Node, from: seq<string>, to: seq<string>)
    requires from != [] && to != []
    ensures !Move(t, from, to).ok <==>
      || Get(t, from).None?
      || Apply(t, from, Drop).None?
      || var mid := Apply(t, from, Drop).value; Parent(mid, to).None? || !Takes(Parent(mid, to).value, to[|to| - 1])
  {
    if Get(t, from).Some? && Apply(t, from, Drop).Some? {
      var mid := Apply(t, from, Drop).value;
      ParentOfEdit(mid, to, Put(Get(t, from).value));
      if Parent(mid, to).Some? { TakesIff(Parent(mid, to).value, to[|to| - 1], Get(t, from).value); }
    }
  }

  /** A failed move leaves the document as it was if and only if its source is not found or
      clings to its container; every other failed move has lost its source. */
  lemma FailedMoveIff(t: Node, from: seq<string>, to: seq<string>)
    requires from != [] && to != [] && !Move(t, from, to).ok
    ensures Move(t, from, to).doc == t <==>
      Get(t, from).None? || Clings(Parent(t, from).value, from[|from| - 1])
  {
    if Get(t, from).Some? {
      ParentOfEdit(t, from, Drop);
      LeafClings(Parent(t, from).value, from[|from| - 1]);
      if Apply(t, from, Drop).Some? { DropIdle(t, from); }
    }
  }

  /** Such a move, on a map: the value under "a" moved below a missing "b". */
  lemma FailedMoveLoses()
    ensures exists t: Node, from, to :: from != [] && to != [] && !Move(t, from, to).ok && Move(t, from, to).doc != t
  {
    var t := Dict(map["a" := Scalar("1")]);
    assert "b" !in t.entries && "a" in t.entries;
    assert Parent(t, ["a"]) == Some(t);
    assert Get(t, ["a"]) == Some(Scalar("1"));
    var mid := Dict(t.entries - {"a"});
    assert Edited(t, ["a"], Drop) == Outcome(mid, true);
    assert Apply(mid, ["b", "c"], Put(Scalar("1"))) == None;
    assert !Move(t, ["a"], ["b", "c"]).ok && Move(t, ["a"], ["b", "c"]).doc == mid;
    assert "a" in t.entries && "a" !in mid.entries;
  }

  // ----- the same as operations on path strings

  function PathText(parts: seq<string>): (s: string) {
    "/" + Join(parts, '/')
  }

  /** Parts without a slash that do not spell the root. */
  predicate Plain(parts: seq<string>) {
    parts != [] && parts != [""] && forall p :: p in parts ==> '/' !in p
  }

  lemma PathReads(parts: seq<string>)
    requires Plain(parts)
    ensures PathParts(PathText(parts)) == parts
  {
    assert PathText(parts)[1..] == Join(parts, '/');
    SplitJoin(parts, '/');
  }

  /** A path may leave its leading slash out. */
  lemma BarePathReads(parts: seq<string>)
    requires Plain(parts) && parts[0] != ""
    ensures PathParts(Join(parts, '/')) == parts
  {
    var s := Join(parts, '/');
    assert parts[0] in parts && parts[0][0] in parts[0];
    assert s[0] == parts[0][0];
    SplitJoin(parts, '/');
  }

  lemma OneOp(doc: Node, op: PatchOp)
    ensures ApplyPatch(doc, [op]) == ApplyOp(doc, op)
  {
    assert [op][1..] == [];
  }

  lemma TwoOps(doc: Node, a: PatchOp, b: PatchOp)
    ensures ApplyPatch(doc, [a, b]) == if ApplyOp(doc, a).ok then ApplyOp(ApplyOp(doc, a).doc, b) else ApplyOp(doc, a)
  {
    assert [a, b][1..] == [b];
    OneOp(ApplyOp(doc, a).doc, b);
  }

  /** An operation of any other name than the six fails and leaves the document alone. */
  lemma UnknownOp(doc: Node, op: PatchOp)
    requires op.op !in {"add", "remove", "replace", "move", "copy", "test"}
    ensures ApplyOp(doc, op) == Outcome(doc, false)
  {
  }

  /** Adding, replacing and removing the whole document, and any write or test without a value, fail
      and leave it alone. */
  lemma RefusedOps(doc: Node, op: PatchOp)
    requires (op.op in {"add", "replace", "remove"} && op.path in {"", "/"}) || (op.op in {"add", "replace", "test"} && op.value.None?)
    ensures ApplyOp(doc, op) == Outcome(doc, false)
  {
    assert "/"[1..] == "";
  }

  /** "test" passes if and only if exactly that value is found, and changes nothing. */
  lemma TestOpIff(doc: Node, parts: seq<string>, v: Node)
    requires Plain(parts)
    ensures ApplyOp(doc, PatchOp("test", PathText(parts), "", Some(v))) == Outcome(doc, Get(doc, parts) == Some(v))
  {
    PathReads(parts);
  }

  function Add(parts: seq<string>, v: Node): (op: PatchOp) {
    PatchOp("add", PathText(parts), "", Some(v))
  }

  function Remove(parts: seq<string>): (op: PatchOp) {
    PatchOp("remove", PathText(parts), "", None)
  }

  lemma AddIsPut(doc: Node, parts: seq<string>, v: Node)
    requires Plain(parts)
    ensures ApplyOp(doc, Add(parts, v)) == Edited(doc, parts, Put(v))
  {
    PathReads(parts);
  }

  lemma RemoveIsDrop(doc: Node, parts: seq<string>)
    requires Plain(parts)
    ensures ApplyOp(doc, Remove(parts)) == Edited(doc, parts, Drop)
  {
    PathReads(parts);
  }

  /** "add" then "remove" of one path, as a patch, restores the document if and only if
      the container admits it. */
  lemma AddRemoveOps(doc: Node, parts: seq<string>, v: Node)
    requires Plain(parts) && Apply(doc, parts, Put(v)).Some?
    ensures Parent(doc, parts).Some?
    ensures ApplyPatch(doc, [Add(parts, v), Remove(parts)]) == Outcome(doc, true)
       <==> PutUndoable(Parent(doc, parts).value, parts[|parts| - 1], v)
  {
    AddIsPut(doc, parts, v);
    RemoveIsDrop(Apply(doc, parts, Put(v)).value, parts);
    TwoOps(doc, Add(parts, v), Remove(parts));
    PutDropIff(doc, parts, v);
  }

  /** "test" after "add" passes if and only if the value was not appended with "-". */
  lemma AddTestOps(doc: Node, parts: seq<string>, v: Node)
    requires Plain(parts) && Apply(doc, parts, Put(v)).Some?
    ensures Parent(doc, parts).Some?
    ensures ApplyPatch(doc, [Add(parts, v), PatchOp("test", PathText(parts), "", Some(v))]).ok
       <==> !(Parent(doc, parts).value.List? && Atoi(parts[|parts| - 1]).None?)
  {
    AddIsPut(doc, parts, v);
    PathReads(parts);
    TwoOps(doc, Add(parts, v), PatchOp("test", PathText(parts), "", Some(v)));
    PutGet(doc, parts, v);
  }

  /** "move" is "remove" then "add" of the value taken, failures and partial effects included;
      "copy" is "add" of the value found. */
  lemma MoveAndCopyOps(doc: Node, from: seq<string>, to: seq<string>, v: Node)
    requires Plain(from) && Plain(to) && Get(doc, from) == Some(v)
    ensures ApplyPatch(doc, [PatchOp("move", PathText(to), PathText(from), None)]) == ApplyPatch(doc, [Remove(from), Add(to, v)])
    ensures ApplyPatch(doc, [PatchOp("copy", PathText(to), PathText(from), None)]) == ApplyPatch(doc, [Add(to, v)])
  {
    PathReads(from);
    PathReads(to);
    OneOp(doc, PatchOp("move", PathText(to), PathText(from), None));
    OneOp(doc, PatchOp("copy", PathText(to), PathText(from), None));
    OneOp(doc, Add(to, v));
    AddIsPut(doc, to, v);
    RemoveIsDrop(doc, from);
    AddIsPut(Edited(doc, from, Drop).doc, to, v);
    TwoOps(doc, Remove(from), Add(to, v));
  }

  /** "replace" as an operation is the RFC's if and only if the container is missing or
      replaces as the RFC says. */
  lemma ReplaceOpIff(doc: Node, parts: seq<string>, v: Node)
    requires Plain(parts)
    ensures ApplyPatch(doc, [PatchOp("replace", PathText(parts), "", Some(v))])
         == (match RfcReplace(doc, parts, v) case Some(d) => Outcome(d, true) case None => Outcome(doc, false))
       <==> (Parent(doc, parts).Some? ==> ReplacesAsRfc(Parent(doc, parts).value, parts[|parts| - 1]))
  {
    PathReads(parts);
    OneOp(doc, PatchOp("replace", PathText(parts), "", Some(v)));
    ReplaceAgreesIff(doc, parts, v);
  }

  // ----- patches that fail

  /** A "move" that takes its value out and cannot put it in. */
  predicate Loses(doc: Node, op: PatchOp) {
    op.op == "move" && Get(doc, PathParts(op.from)).Some? &&
    !Clings(Parent(doc, PathParts(op.from)).value, PathParts(op.from)[|PathParts(op.from)| - 1])
  }

  /** A failing operation changes the document if and only if it is a move that loses its source. */
  lemma FailedOpIff(doc: Node, op: PatchOp)
    requires !ApplyOp(doc, op).ok
    ensures ApplyOp(doc, op).doc == doc <==> !Loses(doc, op)
    ensures Loses(doc, op) ==> Apply(doc, PathParts(op.from), Drop) == Some(ApplyOp(doc, op).doc)
  {
    if op.op == "move" {
      var from := PathParts(op.from);
      FailedMoveIff(doc, from, PathParts(op.path));
      if Get(doc, from).Some? {
        ParentOfEdit(doc, from, Drop);
        LeafClings(Parent(doc, from).value, from[|from| - 1]);
      }
    }
  }

  /** The operation a failing patch stops at. */
  function FailsAt(doc: Node, ops: seq<PatchOp>): (k: nat)
    requires !ApplyPatch(doc, ops).ok
    ensures k < |ops| && ApplyPatch(doc, ops[..k]).ok
    decreases |ops|
  {
    var first := ApplyOp(doc, ops[0]);
    if !first.ok then 0
    else
      var k := FailsAt(first.doc, ops[1..]);
      assert ops[..k + 1][1..] == ops[1..][..k];
      k + 1
  }

  lemma {:induction false} FailsAtOp(doc: Node, ops: seq<PatchOp>)
    requires !ApplyPatch(doc, ops).ok
    ensures var k := FailsAt(doc, ops);
      var last := ApplyOp(ApplyPatch(doc, ops[..k]).doc, ops[k]);
      !last.ok && ApplyPatch(doc, ops) == last
    decreases |ops|
  {
    var first := ApplyOp(doc, ops[0]);
    if first.ok {
      var k := FailsAt(first.doc, ops[1..]);
      FailsAtOp(first.doc, ops[1..]);
      assert ops[..k + 1][1..] == ops[1..][..k];
    }
  }

  /** A failing patch leaves the document as it was if and only if the operations before the
      failing one have no net effect and it loses nothing, or what it loses undoes their effect. */
  lemma FailedPatchIff(doc: Node, ops: seq<PatchOp>)
    requires !ApplyPatch(doc, ops).ok
    ensures var k := FailsAt(doc, ops);
      var before := ApplyPatch(doc, ops[..k]).doc;
      ApplyPatch(doc, ops).doc == doc <==>
        if Loses(before, ops[k]) then Apply(before, PathParts(ops[k].from), Drop) == Some(doc) else before == doc
  {
    var k := FailsAt(doc, ops);
    FailsAtOp(doc, ops);
    FailedOpIff(ApplyPatch(doc, ops[..k]).doc, ops[k]);
  }

  /** Tests followed by one operation that is not a move. */
  predicate Guarded(ops: seq<PatchOp>) {
    forall i :: 0 <= i < |ops| ==> ops[i].op != "move" && (i + 1 < |ops| ==> ops[i].op == "test")
  }

  /** Such patches, one-operation patches among them, are all or nothing on every document. */
  lemma {:induction false} GuardedAtomic(doc: Node, ops: seq<PatchOp>)
    requires Guarded(ops) && !ApplyPatch(doc, ops).ok
    ensures ApplyPatch(doc, ops).doc == doc
    decreases |ops|
  {
    if !ApplyOp(doc, ops[0]).ok {
      FailedOpIff(doc, ops[0]);
    } else {
      assert ops[1..] != [];
      assert Guarded(ops[1..]) && ops[0].op == "test";
      GuardedAtomic(doc, ops[1..]);
    }
  }
}
