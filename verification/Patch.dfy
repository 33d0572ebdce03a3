/** The patch engine of config/patch.go on value trees: path navigation, insert
    and remove at any depth, and the six operations. */
module Patches {
  import opened Text

  /** A configuration value. Non-nil pointers are transparent, as navigate follows them. */
  datatype Node =
    | Nil
    | Scalar(text: string)
    | Dict(entries: map<string, Node>)
    | List(items: seq<Node>)
    | Record(shape: Shape, fields: map<string, Node>)

  /** What reflection knows of a struct type: the field a path part names (by name, tag
      or normalised name), the field it names for removal (name or tag only), and zero values. */
  datatype Shape = Shape(names: map<string, string>, strict: map<string, string>, zero: map<string, Node>)

  datatype PatchOp = PatchOp(op: string, path: string, from: string, value: Option<Node>)

  /** A patch stops at its first failing operation and keeps what was done before. */
  datatype Outcome = Outcome(doc: Node, ok: bool)

  datatype Edit = Put(value: Node) | Drop

  // ----- one level

  function Index(items: seq<Node>, key: string): (r: Option<nat>)
    ensures r.Some? ==> r.value < |items|
  {
    match Atoi(key)
    case Some(i) => if 0 <= i < |items| then Some(i) else None
    case None => None
  }

  function Child(n: Node, key: string): (r: Option<Node>) {
    match n
    case Dict(m) => if key in m then Some(m[key]) else None
    case List(s) => (match Index(s, key) case Some(i) => Some(s[i]) case None => None)
    case Record(sh, f) => if key in sh.names && sh.names[key] in f then Some(f[sh.names[key]]) else None
    case _ => None
  }

  function WithChild(n: Node, key: string, c: Node): (r: Node)
    requires Child(n, key).Some?
  {
    match n
    case Dict(m) => Dict(m[key := c])
    case List(s) => List(s[Index(s, key).value := c])
    case Record(sh, f) => Record(sh, f[sh.names[key] := c])
  }

  /** setLeaf and the leaf step of applyRemove. */
  function EditAt(n: Node, key: string, e: Edit): (r: Option<Node>) {
    match (n, e)
    case (Dict(m), Put(v)) => Some(Dict(m[key := v]))
    case (Dict(m), Drop) => Some(Dict(m - {key}))
    case (List(s), Put(v)) =>
      (match Atoi(key)
       case None => if key == "-" then Some(List(s + [v])) else None
       case Some(i) => if 0 <= i <= |s| then Some(List(s[..i] + [v] + s[i..])) else None)
    case (List(s), Drop) =>
      (match Index(s, key) case Some(i) => Some(List(s[..i] + s[i + 1..])) case None => None)
    case (Record(sh, f), Put(v)) =>
      if key in sh.names && sh.names[key] in f then Some(Record(sh, f[sh.names[key] := v])) else None
    case (Record(sh, f), Drop) =>
      if key in sh.strict && sh.strict[key] in f && sh.strict[key] in sh.zero
      then Some(Record(sh, f[sh.strict[key] := sh.zero[sh.strict[key]]])) else None
    case _ => None
  }

  // ----- any depth

  /** The container that holds the last part of a path. */
  function Parent(n: Node, parts: seq<string>): (r: Option<Node>)
    requires parts != []
  {
    if n.Nil? then None
    else if |parts| == 1 then Some(n)
    else match Child(n, parts[0])
      case Some(c) => Parent(c, parts[1..])
      case None => None
  }

  function Get(n: Node, parts: seq<string>): (r: Option<Node>) {
    if parts == [] then Some(n)
    else match Parent(n, parts)
      case Some(p) => Child(p, parts[|parts| - 1])
      case None => None
  }

  function Apply(n: Node, parts: seq<string>, e: Edit): (r: Option<Node>)
    requires parts != []
    decreases |parts|
  {
    if n.Nil? then None
    else if |parts| == 1 then EditAt(n, parts[0], e)
    else match Child(n, parts[0])
      case None => None
      case Some(c) =>
        match Apply(c, parts[1..], e)
        case None => None
        case Some(c') => Some(WithChild(n, parts[0], c'))
  }

  // ----- operations

  function PathParts(path: string): (parts: seq<string>) {
    Split(if path != "" && path[0] == '/' then path[1..] else path, '/')
  }

  /** A failing edit leaves the document as it was. */
  function Edited(doc: Node, parts: seq<string>, e: Edit): (r: Outcome)
    requires parts != []
  {
    match Apply(doc, parts, e)
    case Some(d) => Outcome(d, true)
    case None => Outcome(doc, false)
  }

  function ApplyOp(doc: Node, op: PatchOp): (r: Outcome) {
    var parts := PathParts(op.path);
    var root := parts == [""];
    if op.op == "add" || op.op == "replace" then
      if root || op.value.None? then Outcome(doc, false) else Edited(doc, parts, Put(op.value.value))
    else if op.op == "remove" then
      if root then Outcome(doc, false) else Edited(doc, parts, Drop)
    else if op.op == "test" then
      Outcome(doc, op.value.Some? && Get(doc, if root then [] else parts) == op.value)
    else if op.op == "move" then
      Move(doc, PathParts(op.from), parts)
    else if op.op == "copy" then
      (match Get(doc, PathParts(op.from))
       case None => Outcome(doc, false)
       case Some(v) => Edited(doc, parts, Put(v)))
    else Outcome(doc, false)
  }

  /** Takes the value out, then puts it in; if the second half fails the first is kept. */
  function Move(doc: Node, from: seq<string>, to: seq<string>): (r: Outcome)
    requires from != [] && to != []
  {
    match Get(doc, from)
    case None => Outcome(doc, false)
    case Some(v) =>
      var taken := Edited(doc, from, Drop);
      if !taken.ok then taken else Edited(taken.doc, to, Put(v))
  }

  function ApplyPatch(doc: Node, ops: seq<PatchOp>): (r: Outcome)
    decreases |ops|
  {
    if ops == [] then Outcome(doc, true)
    else
      var first := ApplyOp(doc, ops[0]);
      if first.ok then ApplyPatch(first.doc, ops[1..]) else first
  }

  lemma {:induction false} PatchConcat(doc: Node, a: seq<PatchOp>, b: seq<PatchOp>)
    requires ApplyPatch(doc, a).ok
    ensures ApplyPatch(doc, a + b) == ApplyPatch(ApplyPatch(doc, a).doc, b)
    decreases |a|
  {
    if a == [] {
      assert a + b == b;
    } else {
      assert (a + b)[1..] == a[1..] + b;
      PatchConcat(ApplyOp(doc, a[0]).doc, a[1..], b);
    }
  }

  // ----- the loops of the source

  /** navigate: a cursor moved part by part. */
  method Navigate(v: Node, parts: seq<string>) returns (parent: Option<Node>, key: string)
    requires parts != []
    ensures parent == Parent(v, parts)
    ensures parent.Some? ==> key == parts[|parts| - 1]
  {
    var curr := v;
    var i := 0;
    while i < |parts|
      invariant 0 <= i < |parts|
      invariant Parent(v, parts) == Parent(curr, parts[i..])
      decreases |parts| - i
    {
      if curr.Nil? {
        return None, "";
      }
      if i == |parts| - 1 {
        return Some(curr), parts[i];
      }
      var c := Child(curr, parts[i]);
      if c.None? {
        return None, "";
      }
      assert parts[i..][1..] == parts[i + 1..];
      curr := c.value;
      i := i + 1;
    }
  }

  /** A document patched in place. */
  class Target {
    var doc: Node

    constructor (d: Node)
      ensures doc == d
    {
      doc := d;
    }

    method Run(ops: seq<PatchOp>) returns (ok: bool)
      modifies this
      ensures Outcome(doc, ok) == ApplyPatch(old(doc), ops)
    {
      for i := 0 to |ops|
        invariant ApplyPatch(old(doc), ops) == ApplyPatch(doc, ops[i..])
      {
        var r := ApplyOp(doc, ops[i]);
        doc := r.doc;
        assert ops[i..][1..] == ops[i + 1..];
        if !r.ok {
          return false;
        }
      }
      ok := true;
    }
  }
}
