/** Snapshots in the split layout (config/config_split.go:145-182): sections are stored in place
    before the main file that holds the checkpoint. What recovery makes of a crash in between,
    after any of the sections, and of any mixture of old and new item files. */
module TornStore {
  import opened Text
  import opened Patches
  import opened PatchLaws
  import opened Wals
  import opened Recovery
  import opened RecoveryLimits

  // ----- two steps

  /** The stored document is replaced and the old checkpoint is still in the main file. */
  function StoreDoc(s: State, doc: Node): (t: State) {
    s.(snap := s.snap.(doc := doc))
  }

  /** The main file follows, with the new checkpoint. */
  function StoreMain(s: State): (t: State) {
    s.(snap := s.snap.(checkpoint := LastId(s.log)), phase := Written, archived := History(s))
  }

  /** Both steps together are the snapshot stored whole. */
  lemma StoredWhole(s: State)
    ensures StoreMain(StoreDoc(s, s.mem)) == Next(s, WriteSnapshot)
  {
  }

  /** A crash between the two replays commits that are stored already: recovery gives memory
      back if and only if doing them twice is the same as doing them once. */
  lemma TornStoreIff(d0: Node, s: State)
    requires Inv(d0, s) && s.inflight == []
    ensures Recover(StoreDoc(s, s.mem)) == Outcome(s.mem, true)
       <==> ReplayAll(s.apply, s.snap.doc, Rest(s) + Rest(s)) == ReplayAll(s.apply, s.snap.doc, Rest(s))
  {
    RecoverExact(d0, s);
    ReplayConcat(s.apply, s.snap.doc, Rest(s), Rest(s));
  }

  /** One commit that appends, and a crash between the two steps: the element is there twice. */
  lemma TornStoreDoubles(items: seq<Node>, v: Node)
    ensures var s := Committed(Initial(ApplyPatch, List(items)), v, "c1");
      s.mem == List(items + [v]) && Next(StoreDoc(s, s.mem), Crash).mem == List(items + [v, v])
  {
    var c := Commit("c1", [AppendOp(v)]);
    CommittedIs(Initial(ApplyPatch, List(items)), items, v, "c1");
    AppendOpGrows(items + [v], v);
    ReplayOnly(ApplyPatch, List(items + [v]), c);
    assert [] + [c] == [c] && items + [v] + [v] == items + [v, v];
  }

  // ----- a crash after some of the sections

  /** Two documents of one struct type. */
  predicate Alike(x: Node, y: Node) {
    x.Record? && y.Record? && x.shape == y.shape && x.fields.Keys == y.fields.Keys
  }

  /** The fields in `stored` from `y`, the others from `x`. */
  function Mix(x: Node, y: Node, stored: set<string>): (m: Node)
    requires Alike(x, y)
    ensures Alike(x, m)
  {
    Record(x.shape, map k | k in x.fields :: if k in stored then y.fields[k] else x.fields[k])
  }

  predicate IsEdit(op: PatchOp) {
    op.op == "add" || op.op == "replace" || op.op == "remove" || op.op == "test"
  }

  /** An operation that works in one top-level field: an edit or test of the field or of something
      inside it, or a move or copy inside it. */
  predicate Inside(op: PatchOp) {
    var parts, from := PathParts(op.path), PathParts(op.from);
    if IsEdit(op) then parts != [""]
    else (op.op == "move" || op.op == "copy") && |parts| >= 2 && |from| >= 2 && from[0] == parts[0]
  }

  /** Such are all edits and tests but of the whole document, and all moves and copies from one place
      inside a field to another. */
  lemma InsideOps(parts: seq<string>, from: seq<string>, v: Node)
    requires Plain(parts) && Plain(from)
    ensures Inside(Add(parts, v)) && Inside(Remove(parts))
    ensures Inside(PatchOp("replace", PathText(parts), "", Some(v))) && Inside(PatchOp("test", PathText(parts), "", Some(v)))
    ensures |parts| >= 2 && |from| >= 2 && from[0] == parts[0] ==>
      Inside(PatchOp("move", PathText(parts), PathText(from), None)) && Inside(PatchOp("copy", PathText(parts), PathText(from), None))
  {
    PathReads(parts);
    PathReads(from);
  }

  /** The top-level field an operation works in; removing a whole field has its own lookup. */
  function FieldOf(shape: Shape, op: PatchOp): (r: Option<string>) {
    var parts := PathParts(op.path);
    var names := if op.op == "remove" && |parts| == 1 then shape.strict else shape.names;
    if parts != [] && parts[0] in names then Some(names[parts[0]]) else None
  }

  /** What the operation does to the value of that field. */
  function InField(shape: Shape, field: string, n: Node, op: PatchOp): (r: Outcome)
    requires Inside(op)
  {
    var rest, from := PathParts(op.path)[1..], PathParts(op.from)[1..];
    if op.op == "test" then Outcome(n, op.value.Some? && Get(n, rest) == op.value)
    else if op.op == "move" then Move(n, from, rest)
    else if op.op == "copy" then
      (match Get(n, from) case None => Outcome(n, false) case Some(v) => Edited(n, rest, Put(v)))
    else if op.op == "remove" then
      if rest != [] then Edited(n, rest, Drop)
      else if field in shape.zero then Outcome(shape.zero[field], true) else Outcome(n, false)
    else if op.value.None? then Outcome(n, false)
    else if rest != [] then Edited(n, rest, Put(op.value.value))
    else Outcome(op.value.value, true)
  }

  function WithField(x: Node, k: string, r: Outcome): (t: Outcome)
    requires x.Record?
  {
    Outcome(x.(fields := x.fields[k := r.doc]), r.ok)
  }

  function OnField(x: Node, field: Option<string>, op: PatchOp): (r: Outcome)
    requires x.Record? && Inside(op)
  {
    if field.None? || field.value !in x.fields then Outcome(x, false)
    else WithField(x, field.value, InField(x.shape, field.value, x.fields[field.value], op))
  }

  lemma SameField(x: Node, k: string)
    requires x.Record? && k in x.fields
    ensures x.(fields := x.fields[k := x.fields[k]]) == x
  {
    assert x.fields[k := x.fields[k]] == x.fields;
  }

  /** An edit inside a field is an edit of the value of that field. */
  lemma LocalEdit(x: Node, parts: seq<string>, e: Edit)
    requires x.Record? && |parts| >= 2
    ensures Child(x, parts[0]).None? ==> Edited(x, parts, e) == Outcome(x, false)
    ensures Child(x, parts[0]).Some? ==>
      var k := x.shape.names[parts[0]]; Edited(x, parts, e) == WithField(x, k, Edited(x.fields[k], parts[1..], e))
  {
    if Child(x, parts[0]).Some? { SameField(x, x.shape.names[parts[0]]); }
  }

  lemma LocalMove(x: Node, from: seq<string>, to: seq<string>)
    requires x.Record? && |from| >= 2 && |to| >= 2 && from[0] == to[0]
    ensures Child(x, to[0]).None? ==> Move(x, from, to) == Outcome(x, false)
    ensures Child(x, to[0]).Some? ==>
      var k := x.shape.names[to[0]]; Move(x, from, to) == WithField(x, k, Move(x.fields[k], from[1..], to[1..]))
  {
    GetStep(x, from);
    LocalEdit(x, from, Drop);
    if Child(x, to[0]).Some? {
      var k := x.shape.names[to[0]];
      SameField(x, k);
      var taken := Edited(x.fields[k], from[1..], Drop);
      var x' := x.(fields := x.fields[k := taken.doc]);
      if Get(x, from).Some? {
        LocalEdit(x', to, Put(Get(x, from).value));
        var put := Edited(taken.doc, to[1..], Put(Get(x, from).value));
        assert x'.fields[k := put.doc] == x.fields[k := put.doc];
      }
    }
  }

  lemma LocalCopy(x: Node, from: seq<string>, to: seq<string>)
    requires x.Record? && |from| >= 2 && |to| >= 2 && from[0] == to[0]
    ensures Child(x, to[0]).None? ==> Get(x, from).None?
    ensures Child(x, to[0]).Some? ==> Get(x, from) == Get(x.fields[x.shape.names[to[0]]], from[1..])
  {
    GetStep(x, from);
  }

  /** An edit of a whole field. */
  lemma LocalWhole(x: Node, op: PatchOp)
    requires x.Record? && Inside(op) && IsEdit(op) && |PathParts(op.path)| == 1
    ensures ApplyOp(x, op) == OnField(x, FieldOf(x.shape, op), op)
  {
    var parts := PathParts(op.path);
    assert parts == [parts[0]] && parts[1..] == [];
    GetStep(x, parts);
    if FieldOf(x.shape, op).Some? && FieldOf(x.shape, op).value in x.fields { SameField(x, FieldOf(x.shape, op).value); }
  }

  /** An operation in a field depends on that field and changes no other. */
  lemma Local(x: Node, op: PatchOp)
    requires x.Record? && Inside(op)
    ensures ApplyOp(x, op) == OnField(x, FieldOf(x.shape, op), op)
  {
    var parts, from := PathParts(op.path), PathParts(op.from);
    if |parts| == 1 {
      LocalWhole(x, op);
    } else {
      if Child(x, parts[0]).Some? { SameField(x, x.shape.names[parts[0]]); }
      if op.op == "move" {
        LocalMove(x, from, parts);
      } else if op.op == "copy" {
        LocalCopy(x, from, parts);
        if Get(x, from).Some? { LocalEdit(x, parts, Put(Get(x, from).value)); }
      } else if op.op == "test" {
        GetStep(x, parts);
      } else if op.op == "remove" {
        LocalEdit(x, parts, Drop);
      } else if op.value.Some? {
        LocalEdit(x, parts, Put(op.value.value));
      }
    }
  }

  predicate Works(shape: Shape, op: PatchOp, stored: set<string>) {
    FieldOf(shape, op).Some? && FieldOf(shape, op).value in stored
  }

  /** The operations inside the given fields. */
  function Only(shape: Shape, ops: seq<PatchOp>, stored: set<string>): (r: seq<PatchOp>) {
    if ops == [] then []
    else (if Works(shape, ops[0], stored) then [ops[0]] else []) + Only(shape, ops[1..], stored)
  }

  lemma StaysAlike(x: Node, op: PatchOp)
    requires x.Record? && Inside(op)
    ensures Alike(x, ApplyOp(x, op).doc)
  {
    Local(x, op);
  }

  lemma MixStored(x: Node, y: Node, stored: set<string>, op: PatchOp)
    requires Alike(x, y) && Inside(op) && Works(x.shape, op, stored)
    ensures Alike(ApplyOp(x, op).doc, ApplyOp(y, op).doc)
    ensures ApplyOp(Mix(x, y, stored), op) == Outcome(Mix(ApplyOp(x, op).doc, ApplyOp(y, op).doc, stored), ApplyOp(y, op).ok)
  {
    Local(x, op);
    Local(y, op);
    Local(Mix(x, y, stored), op);
    var k := FieldOf(x.shape, op).value;
    if k in x.fields { MixSet(x, y, stored, k, InField(x.shape, k, x.fields[k], op).doc, InField(x.shape, k, y.fields[k], op).doc); }
  }

  lemma MixSet(x: Node, y: Node, stored: set<string>, k: string, a: Node, b: Node)
    requires Alike(x, y) && k in x.fields && k in stored
    ensures var m := Mix(x, y, stored);
      Mix(x.(fields := x.fields[k := a]), y.(fields := y.fields[k := b]), stored) == Record(m.shape, m.fields[k := b])
  {
    var m := Mix(x.(fields := x.fields[k := a]), y.(fields := y.fields[k := b]), stored);
    assert m.fields == Mix(x, y, stored).fields[k := b];
  }

  lemma MixOther(x: Node, y: Node, stored: set<string>, op: PatchOp)
    requires Alike(x, y) && Inside(op) && !Works(x.shape, op, stored)
    ensures Alike(ApplyOp(x, op).doc, y)
    ensures ApplyOp(Mix(x, y, stored), op) == Outcome(Mix(ApplyOp(x, op).doc, y, stored), ApplyOp(x, op).ok)
  {
    var m := Mix(x, y, stored);
    Local(x, op);
    Local(m, op);
    assert ApplyOp(m, op).doc.fields == Mix(ApplyOp(x, op).doc, y, stored).fields;
  }

  predicate AllInside(ops: seq<PatchOp>) {
    forall i :: 0 <= i < |ops| ==> Inside(ops[i])
  }

  /** A patch on a mixture: the stored fields see it on top of `y`, the others on top of `x`. */
  lemma {:induction false} MixRun(x: Node, y: Node, stored: set<string>, ops: seq<PatchOp>)
    requires Alike(x, y) && AllInside(ops) && ApplyPatch(x, ops).ok
    ensures var r, q := ApplyPatch(Mix(x, y, stored), ops), ApplyPatch(y, Only(x.shape, ops, stored));
      && Alike(ApplyPatch(x, ops).doc, q.doc)
      && r.ok == q.ok && (r.ok ==> r.doc == Mix(ApplyPatch(x, ops).doc, q.doc, stored))
    decreases |ops|
  {
    if ops != [] {
      var op, rest := ops[0], ops[1..];
      StaysAlike(x, op);
      var x' := ApplyOp(x, op).doc;
      var tail := Only(x.shape, rest, stored);
      if Works(x.shape, op, stored) {
        MixStored(x, y, stored, op);
        assert ([op] + tail)[1..] == tail;
        if ApplyOp(y, op).ok {
          MixRun(x', ApplyOp(y, op).doc, stored, rest);
        } else {
          RunAlike(x', rest);
        }
      } else {
        MixOther(x, y, stored, op);
        assert [] + tail == tail;
        MixRun(x', y, stored, rest);
      }
    }
  }

  lemma {:induction false} RunAlike(x: Node, ops: seq<PatchOp>)
    requires x.Record? && AllInside(ops)
    ensures Alike(x, ApplyPatch(x, ops).doc)
    decreases |ops|
  {
    if ops != [] {
      StaysAlike(x, ops[0]);
      if ApplyOp(x, ops[0]).ok { RunAlike(ApplyOp(x, ops[0]).doc, ops[1..]); }
    }
  }

  /** Operations inside the given fields leave the others alone. */
  lemma {:induction false} OnlyTouches(y: Node, ops: seq<PatchOp>, stored: set<string>, k: string)
    requires y.Record? && AllInside(ops) && k in y.fields && k !in stored
    ensures var q := ApplyPatch(y, Only(y.shape, ops, stored)).doc; Alike(y, q) && q.fields[k] == y.fields[k]
    decreases |ops|
  {
    if ops != [] {
      var op, tail := ops[0], Only(y.shape, ops[1..], stored);
      if Works(y.shape, op, stored) {
        assert ([op] + tail)[1..] == tail;
        Local(y, op);
        if ApplyOp(y, op).ok { OnlyTouches(ApplyOp(y, op).doc, ops[1..], stored, k); }
      } else {
        assert [] + tail == tail;
        OnlyTouches(y, ops[1..], stored, k);
      }
    }
  }

  /** A crash after any of the sections were stored, on operations that each work in one top-level
      field: recovery gives memory back if and only if repeating the operations inside the
      stored sections, and no others, changes nothing. */
  lemma SectionsTornIff(d0: Node, s: State, stored: set<string>)
    requires Inv(d0, s) && s.apply == ApplyPatch && s.inflight == [] && s.snap.doc.Record? && AllInside(Flat(Rest(s)))
    ensures Alike(s.snap.doc, s.mem)
    ensures Recover(StoreDoc(s, Mix(s.snap.doc, s.mem, stored))) == Outcome(s.mem, true)
       <==> ApplyPatch(s.mem, Only(s.mem.shape, Flat(Rest(s)), stored)) == Outcome(s.mem, true)
  {
    var x, y, ops := s.snap.doc, s.mem, Flat(Rest(s));
    RecoverExact(d0, s);
    ReplayIsPatch(x, Rest(s));
    RunAlike(x, ops);
    ReplayIsPatch(Mix(x, y, stored), Rest(s));
    MixRun(x, y, stored, ops);
    MixSame(y, ops, stored);
  }

  lemma MixSame(y: Node, ops: seq<PatchOp>, stored: set<string>)
    requires y.Record? && AllInside(ops)
    ensures var q := ApplyPatch(y, Only(y.shape, ops, stored)).doc; Alike(y, q) && (Mix(y, q, stored) == y <==> q == y)
  {
    var q := ApplyPatch(y, Only(y.shape, ops, stored)).doc;
    OnlyAlike(y, ops, stored);
    forall k | k in y.fields && k !in stored ensures q.fields[k] == y.fields[k] { OnlyTouches(y, ops, stored, k); }
    assert Mix(y, q, stored).fields == q.fields;
  }

  lemma OnlyAlike(y: Node, ops: seq<PatchOp>, stored: set<string>)
    requires y.Record? && AllInside(ops)
    ensures Alike(y, ApplyPatch(y, Only(y.shape, ops, stored)).doc)
  {
    OnlyInside(y.shape, ops, stored);
    RunAlike(y, Only(y.shape, ops, stored));
  }

  lemma {:induction false} OnlyInside(shape: Shape, ops: seq<PatchOp>, stored: set<string>)
    requires AllInside(ops)
    ensures AllInside(Only(shape, ops, stored))
    decreases |ops|
  {
    if ops != [] { OnlyInside(shape, ops[1..], stored); }
  }

  /** Two sections that hold lists, and a commit that appends to both. */
  const TWO_LISTS := Shape(map["a" := "A", "b" := "B"], map["a" := "A", "b" := "B"], map["A" := List([]), "B" := List([])])

  function TwoLists(a: seq<Node>, b: seq<Node>): (x: Node) {
    Record(TWO_LISTS, map["A" := List(a), "B" := List(b)])
  }

  lemma AppendInField(x: Node, part: string, items: seq<Node>, v: Node)
    requires x.Record? && Plain([part, "-"]) && part in x.shape.names && x.shape.names[part] in x.fields && x.fields[x.shape.names[part]] == List(items)
    ensures ApplyOp(x, Add([part, "-"], v)) == Outcome(x.(fields := x.fields[x.shape.names[part] := List(items + [v])]), true)
    ensures Inside(Add([part, "-"], v)) && FieldOf(x.shape, Add([part, "-"], v)) == Some(x.shape.names[part])
  {
    var parts := [part, "-"];
    PathReads(parts);
    AddIsPut(x, parts, v);
    LocalEdit(x, parts, Put(v));
    var rest := parts[1..];
    assert |rest| == 1 && rest[0] == "-" && Atoi("-") == None;
    assert Apply(List(items), rest, Put(v)) == EditAt(List(items), "-", Put(v)) == Some(List(items + [v]));
  }

  lemma TwoListsSet(a: seq<Node>, b: seq<Node>, c: seq<Node>)
    ensures var x := TwoLists(a, b);
      x.(fields := x.fields["A" := List(c)]) == TwoLists(c, b) && x.(fields := x.fields["B" := List(c)]) == TwoLists(a, c)
  {
    assert TwoLists(a, b).fields["A" := List(c)] == TwoLists(c, b).fields;
    assert TwoLists(a, b).fields["B" := List(c)] == TwoLists(a, c).fields;
  }

  function AppendsBoth(u: Node, v: Node): (ops: seq<PatchOp>) {
    [Add(["a", "-"], u), Add(["b", "-"], v)]
  }

  lemma AppendBoth(a: seq<Node>, b: seq<Node>, u: Node, v: Node)
    ensures ApplyPatch(TwoLists(a, b), AppendsBoth(u, v)) == Outcome(TwoLists(a + [u], b + [v]), true)
  {
    AppendInField(TwoLists(a, b), "a", a, u);
    TwoListsSet(a, b, a + [u]);
    AppendInField(TwoLists(a + [u], b), "b", b, v);
    TwoListsSet(a + [u], b, b + [v]);
    TwoOps(TwoLists(a, b), Add(["a", "-"], u), Add(["b", "-"], v));
  }

  lemma MixFirst(a: seq<Node>, b: seq<Node>, c: seq<Node>, d: seq<Node>)
    ensures Alike(TwoLists(a, b), TwoLists(c, d)) && Mix(TwoLists(a, b), TwoLists(c, d), {"A"}) == TwoLists(c, b)
  {
    assert Mix(TwoLists(a, b), TwoLists(c, d), {"A"}).fields == TwoLists(c, b).fields;
  }

  lemma BothCommitted(a: seq<Node>, b: seq<Node>, u: Node, v: Node)
    ensures var s := Next(Next(Initial(ApplyPatch, TwoLists(a, b)), ApplyOps(AppendsBoth(u, v))), Append("c1"));
      && s.apply == ApplyPatch && s.mem == TwoLists(a + [u], b + [v]) && s.snap == Snapshot(TwoLists(a, b), "")
      && s.log == [Commit("c1", AppendsBoth(u, v))]
  {
    AppendBoth(a, b, u, v);
  }

  /** A commit that appends to both, and a crash when only the first section is stored: that one has
      its element twice and the other once. */
  lemma SectionDoubles(a: seq<Node>, b: seq<Node>, u: Node, v: Node)
    ensures var s := Next(Next(Initial(ApplyPatch, TwoLists(a, b)), ApplyOps(AppendsBoth(u, v))), Append("c1"));
      && s.mem == TwoLists(a + [u], b + [v]) && Alike(s.snap.doc, s.mem)
      && Next(StoreDoc(s, Mix(s.snap.doc, s.mem, {"A"})), Crash).mem == TwoLists(a + [u, u], b + [v])
  {
    BothCommitted(a, b, u, v);
    MixFirst(a, b, a + [u], b + [v]);
    var s := Next(Next(Initial(ApplyPatch, TwoLists(a, b)), ApplyOps(AppendsBoth(u, v))), Append("c1"));
    CrashReplays(s, TwoLists(a + [u], b), Commit("c1", AppendsBoth(u, v)));
    AppendTwice(a, b, u, v);
  }

  lemma AppendTwice(a: seq<Node>, b: seq<Node>, u: Node, v: Node)
    ensures ApplyPatch(TwoLists(a + [u], b), AppendsBoth(u, v)).doc == TwoLists(a + [u, u], b + [v])
  {
    AppendBoth(a + [u], b, u, v);
    assert a + [u] + [u] == a + [u, u];
  }

  lemma CrashReplays(s: State, doc: Node, c: Commit)
    requires s.apply == ApplyPatch && s.log == [c] && s.snap.checkpoint == ""
    ensures Next(StoreDoc(s, doc), Crash).mem == ApplyPatch(doc, c.ops).doc
  {
    ReplayOnly(ApplyPatch, doc, c);
  }

  // ----- items of map sections: any mixture is safe

  /** A value added, replaced or removed under a key of a map held in a top-level field. */
  predicate Keyed(x: Node, op: PatchOp) {
    && IsEdit(op) && op.op != "test" && (op.op != "remove" ==> op.value.Some?)
    && |PathParts(op.path)| == 2 && x.Record?
    && FieldOf(x.shape, op).Some? && FieldOf(x.shape, op).value in x.fields && x.fields[FieldOf(x.shape, op).value].Dict?
  }

  /** Registering or unregistering an item of a map section, as "/roles/" and an id, is such an edit. */
  lemma RegisterIsKeyed(x: Node, part: string, id: string, v: Node)
    requires x.Record? && Plain([part, id]) && part in x.shape.names && x.shape.names[part] in x.fields && x.fields[x.shape.names[part]].Dict?
    ensures Keyed(x, Add([part, id], v)) && Keyed(x, Remove([part, id]))
  {
    PathReads([part, id]);
  }

  predicate AllKeyed(x: Node, ops: seq<PatchOp>) {
    forall i :: 0 <= i < |ops| ==> Keyed(x, ops[i])
  }

  /** The item under a key of a map section. */
  function ItemAt(x: Node, field: string, key: string): (r: Option<Node>)
    requires x.Record?
  {
    if field in x.fields && x.fields[field].Dict? && key in x.fields[field].entries then Some(x.fields[field].entries[key]) else None
  }

  /** The same struct with maps in the same fields and equal values in the others. */
  predicate SameMaps(x: Node, y: Node) {
    Alike(x, y) && forall k :: k in x.fields ==> if x.fields[k].Dict? then y.fields[k].Dict? else x.fields[k] == y.fields[k]
  }

  lemma ItemsDecide(x: Node, y: Node)
    requires SameMaps(x, y) && forall f, k :: ItemAt(x, f, k) == ItemAt(y, f, k)
    ensures x == y
  {
    forall f | f in x.fields ensures x.fields[f] == y.fields[f] {
      if x.fields[f].Dict? {
        var a, b := x.fields[f].entries, y.fields[f].entries;
        forall k ensures k in a <==> k in b { assert ItemAt(x, f, k) == ItemAt(y, f, k); }
        forall k | k in a ensures a[k] == b[k] { assert ItemAt(x, f, k) == ItemAt(y, f, k); }
        assert a == b;
      }
    }
    assert x.fields == y.fields;
  }

  /** What the last operation on an item leaves there; nothing if none is on it. */
  function Left(shape: Shape, ops: seq<PatchOp>, field: string, key: string): (r: Option<Option<Node>>) {
    if ops == [] then None
    else
      var op := ops[|ops| - 1];
      var parts := PathParts(op.path);
      if FieldOf(shape, op) == Some(field) && parts[|parts| - 1] == key then Some(if op.op == "remove" then None else op.value)
      else Left(shape, ops[..|ops| - 1], field, key)
  }

  lemma KeyedStep(x: Node, op: PatchOp, field: string, key: string)
    requires Keyed(x, op)
    ensures ApplyOp(x, op).ok && SameMaps(x, ApplyOp(x, op).doc)
    ensures var parts := PathParts(op.path);
      ItemAt(ApplyOp(x, op).doc, field, key) ==
        if FieldOf(x.shape, op) == Some(field) && parts[|parts| - 1] == key then (if op.op == "remove" then None else op.value)
        else ItemAt(x, field, key)
  {
    Local(x, op);
    var rest := PathParts(op.path)[1..];
    assert |rest| == 1 && rest[0] == PathParts(op.path)[1];
  }

  lemma KeyedAlike(x: Node, y: Node, ops: seq<PatchOp>)
    requires SameMaps(x, y) && AllKeyed(x, ops)
    ensures AllKeyed(y, ops)
  {
    forall i | 0 <= i < |ops| ensures Keyed(y, ops[i]) { assert Keyed(x, ops[i]); }
  }

  lemma PatchSnoc(x: Node, init: seq<PatchOp>, op: PatchOp)
    requires ApplyPatch(x, init).ok
    ensures ApplyPatch(x, init + [op]) == ApplyOp(ApplyPatch(x, init).doc, op)
  {
    PatchConcat(x, init, [op]);
    OneOp(ApplyPatch(x, init).doc, op);
  }

  /** The item after one more keyed edit. */
  lemma KeyedSnoc(x: Node, init: seq<PatchOp>, op: PatchOp, field: string, key: string)
    requires ApplyPatch(x, init).ok && SameMaps(x, ApplyPatch(x, init).doc) && Keyed(x, op)
    ensures ApplyPatch(x, init + [op]).ok && SameMaps(x, ApplyPatch(x, init + [op]).doc)
    ensures var parts := PathParts(op.path);
      ItemAt(ApplyPatch(x, init + [op]).doc, field, key) ==
        if FieldOf(x.shape, op) == Some(field) && parts[|parts| - 1] == key then (if op.op == "remove" then None else op.value)
        else ItemAt(ApplyPatch(x, init).doc, field, key)
  {
    PatchSnoc(x, init, op);
    KeyedStep(ApplyPatch(x, init).doc, op, field, key);
  }

  lemma LeftSnoc(shape: Shape, init: seq<PatchOp>, op: PatchOp, field: string, key: string)
    ensures var parts := PathParts(op.path);
      Left(shape, init + [op], field, key) ==
        if FieldOf(shape, op) == Some(field) && parts[|parts| - 1] == key then Some(if op.op == "remove" then None else op.value)
        else Left(shape, init, field, key)
  {
    assert (init + [op])[..|init|] == init;
  }

  /** Keyed edits never fail, and the last one on an item decides it. */
  lemma {:induction false} KeyedRun(x: Node, ops: seq<PatchOp>, field: string, key: string)
    requires x.Record? && AllKeyed(x, ops)
    ensures ApplyPatch(x, ops).ok && SameMaps(x, ApplyPatch(x, ops).doc)
    ensures ItemAt(ApplyPatch(x, ops).doc, field, key) ==
      match Left(x.shape, ops, field, key) case Some(left) => left case None => ItemAt(x, field, key)
    decreases |ops|
  {
    if ops != [] {
      var init, op := ops[..|ops| - 1], ops[|ops| - 1];
      assert ops == init + [op] && AllKeyed(x, init) && Keyed(x, op);
      KeyedRun(x, init, field, key);
      KeyedSnoc(x, init, op, field, key);
      LeftSnoc(x.shape, init, op, field, key);
    }
  }

  /** Every item of `m` is that of `x` or that of `y`. */
  ghost predicate ItemwiseMix(x: Node, y: Node, m: Node) {
    SameMaps(x, m) && y.Record? && forall f, k :: ItemAt(m, f, k) == ItemAt(x, f, k) || ItemAt(m, f, k) == ItemAt(y, f, k)
  }

  lemma {:induction false} LeftGrows(shape: Shape, pre: seq<PatchOp>, post: seq<PatchOp>, field: string, key: string)
    requires Left(shape, pre + post, field, key).None?
    ensures Left(shape, pre, field, key).None?
    decreases |post|
  {
    if post == [] {
      assert pre + post == pre;
    } else {
      var init, op := post[..|post| - 1], post[|post| - 1];
      assert pre + post == pre + init + [op];
      LeftSnoc(shape, pre + init, op, field, key);
      LeftGrows(shape, pre, init, field, key);
    }
  }

  /** From any mixture of the document and what a part of the edits made of it, all edits lead to
      the same document. */
  lemma KeyedFromMix(x: Node, m: Node, pre: seq<PatchOp>, post: seq<PatchOp>)
    requires x.Record? && AllKeyed(x, pre + post) && ItemwiseMix(x, ApplyPatch(x, pre).doc, m)
    ensures ApplyPatch(m, pre + post) == ApplyPatch(x, pre + post)
  {
    var ops := pre + post;
    var r, y := ApplyPatch(m, ops), ApplyPatch(x, ops);
    KeyedAlike(x, m, ops);
    KeyedRun(x, ops, "", "");
    KeyedRun(m, ops, "", "");
    forall f, k ensures ItemAt(r.doc, f, k) == ItemAt(y.doc, f, k) { MixedItem(x, m, pre, post, f, k); }
    ItemsDecide(r.doc, y.doc);
  }

  lemma MixedItem(x: Node, m: Node, pre: seq<PatchOp>, post: seq<PatchOp>, f: string, k: string)
    requires x.Record? && AllKeyed(x, pre + post) && AllKeyed(m, pre + post) && ItemwiseMix(x, ApplyPatch(x, pre).doc, m)
    ensures ApplyPatch(m, pre + post).doc.Record? && ApplyPatch(x, pre + post).doc.Record?
    ensures ItemAt(ApplyPatch(m, pre + post).doc, f, k) == ItemAt(ApplyPatch(x, pre + post).doc, f, k)
  {
    var ops := pre + post;
    assert ItemAt(m, f, k) == ItemAt(x, f, k) || ItemAt(m, f, k) == ItemAt(ApplyPatch(x, pre).doc, f, k);
    assert forall i :: 0 <= i < |pre| ==> ops[i] == pre[i];
    KeyedRun(x, ops, f, k);
    KeyedRun(m, ops, f, k);
    KeyedRun(x, pre, f, k);
    if Left(x.shape, ops, f, k).None? {
      LeftGrows(x.shape, pre, post, f, k);
    }
  }

  /** When all commits add, replace or remove items of map sections, as in registering a role, a
      crash between any two item files recovers memory: every mixture of old and new items is safe. */
  lemma ItemsTornSafe(d0: Node, s: State, mixed: Node)
    requires Inv(d0, s) && s.apply == ApplyPatch && s.inflight == [] && s.snap.doc.Record? && AllKeyed(s.snap.doc, Flat(Rest(s)))
    requires ItemwiseMix(s.snap.doc, s.mem, mixed)
    ensures Recover(StoreDoc(s, mixed)) == Outcome(s.mem, true)
  {
    var ops := Flat(Rest(s));
    RecoverExact(d0, s);
    ReplayIsPatch(s.snap.doc, Rest(s));
    ReplayIsPatch(mixed, Rest(s));
    assert ops + [] == ops;
    KeyedFromMix(s.snap.doc, mixed, ops, []);
  }

  // ----- the same for a rollback

  /** A rollback whose document is stored and whose checkpoint is not: recovery gives the document
      before the rollback if and only if the kept commits can be repeated before the log. */
  lemma TornRollbackIff(d0: Node, s: State, id: string)
    requires Inv(d0, s) && Enabled(s, RollbackWrite(id))
    ensures Recover(StoreDoc(s, Next(s, RollbackWrite(id)).mem)) == Outcome(s.mem, true)
       <==> ReplayAll(s.apply, s.snap.doc, UpTo(s.log, id) + s.log) == ReplayAll(s.apply, s.snap.doc, s.log)
  {
    var keep := UpTo(s.log, id);
    RecoverExact(d0, s);
    UpToSplits(s, id);
    ReplayConcat(s.apply, s.snap.doc, keep, s.log[|keep|..]);
    ReplayConcat(s.apply, s.snap.doc, keep, s.log);
  }

  lemma {:induction false} FlatConcat(a: seq<Commit>, b: seq<Commit>)
    ensures Flat(a + b) == Flat(a) + Flat(b)
    decreases |a|
  {
    if a == [] {
      assert a + b == b;
    } else {
      FlatConcat(a[1..], b);
      assert (a + b)[0] == a[0] && (a + b)[1..] == a[1..] + b;
    }
  }

  /** With commits on items of map sections, a crash between any two item files of a rollback
      recovers the document before it. */
  lemma ItemsTornRollback(d0: Node, s: State, id: string, mixed: Node)
    requires Inv(d0, s) && Enabled(s, RollbackWrite(id)) && s.apply == ApplyPatch
    requires s.snap.doc.Record? && AllKeyed(s.snap.doc, Flat(s.log))
    requires ItemwiseMix(s.snap.doc, Next(s, RollbackWrite(id)).mem, mixed)
    ensures Recover(StoreDoc(s, mixed)) == Outcome(s.mem, true)
  {
    var keep := UpTo(s.log, id);
    RecoverExact(d0, s);
    UpToSplits(s, id);
    FlatConcat(keep, s.log[|keep|..]);
    ReplayIsPatch(s.snap.doc, s.log);
    ReplayIsPatch(mixed, s.log);
    ReplayIsPatch(s.snap.doc, keep);
    KeyedFromMix(s.snap.doc, mixed, Flat(keep), Flat(s.log[|keep|..]));
  }
}
