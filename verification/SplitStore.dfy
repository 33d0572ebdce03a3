/** Section files of a split configuration (config/config_split.go:65-116, 184-254):
    one array file, or a directory with one file per item. */
module SplitStore {
  import opened Text

  datatype Item = Item(id: string, body: string)

  /** What is at a section's path; a directory file is None when it does not decode. */
  datatype Entry = Missing | ArrayFile(items: seq<Item>) | Folder(files: map<string, Option<Item>>)

  const COUNT_SPLIT_THRESHOLD := 20

  predicate HasSuffix(s: string, t: string) {
    |s| >= |t| && s[|s| - |t|..] == t
  }

  function LowerChar(c: char): (r: char) {
    if 'A' <= c <= 'Z' then c + ' ' else c
  }

  function ToLower(s: string): (r: string) {
    seq(|s|, i requires 0 <= i < |s| => LowerChar(s[i]))
  }

  function NameOf(id: string): (n: string)
    ensures HasSuffix(n, ".json") && n[..|n| - 5] == id
  {
    id + ".json"
  }

  predicate Prunable(name: string) {
    HasSuffix(name, ".json")
  }

  predicate Loadable(name: string) {
    HasSuffix(ToLower(name), ".json")
  }

  lemma PrunableLoadable(name: string)
    requires Prunable(name)
    ensures Loadable(name)
  {
    var n := |name| - 5;
    assert forall i :: 0 <= i < 5 ==> name[n + i] == name[n..][i];
    assert ToLower(name)[n..] == ".json";
  }

  /** A file is loaded if and only if its name ends in ".json" in any mixture of cases. */
  lemma LoadableIff(name: string)
    ensures Loadable(name) <==>
      && |name| >= 5
      && var e := name[|name| - 5..];
      e[0] == '.' && e[1] in {'j', 'J'} && e[2] in {'s', 'S'} && e[3] in {'o', 'O'} && e[4] in {'n', 'N'}
  {
    if |name| >= 5 {
      var n := |name| - 5;
      var l := ToLower(name)[n..];
      assert forall i :: 0 <= i < 5 ==> l[i] == LowerChar(name[n..][i]);
      assert l == ".json" <==> l[0] == '.' && l[1] == 'j' && l[2] == 's' && l[3] == 'o' && l[4] == 'n';
    }
  }

  /** The last item with a given id. */
  function LastWith(items: seq<Item>, id: string): (r: Option<Item>) {
    if items == [] then None
    else if items[|items| - 1].id == id then Some(items[|items| - 1])
    else LastWith(items[..|items| - 1], id)
  }

  ghost predicate Unique(items: seq<Item>) {
    (forall i :: 0 <= i < |items| ==> items[i].id != "") && forall i, j :: 0 <= i < j < |items| ==> items[i].id != items[j].id
  }

  /** The directory after a write: one file per written id, holding the last item with
      that id; other ".json" files are gone and everything else stays. */
  ghost predicate Written(before: map<string, Option<Item>>, items: seq<Item>, after: map<string, Option<Item>>) {
    forall n {:trigger n in after} ::
      if Prunable(n) then
        var it := LastWith(items, n[..|n| - 5]);
        (n in after <==> it.Some? && n != ".json") && (n in after ==> after[n] == it)
      else (n in after <==> n in before) && (n in after ==> after[n] == before[n])
  }

  class Section {
    var entry: Entry

    /** Writes the items. The array form turns into a directory above twenty items. A
        directory cannot replace an array file, nor an array file a directory that still
        holds files: then nothing is written. */
    method Write(directory: bool, items: seq<Item>) returns (ok: bool)
      modifies this
      ensures var dir := directory || |items| > 20;
        && (ok <==> if dir then !old(entry).ArrayFile? else !(old(entry).Folder? && old(entry).files != map[]))
        && (!ok ==> entry == old(entry))
        && (ok && !dir ==> entry == ArrayFile(items))
        && (ok && dir ==> entry.Folder? && Written(if old(entry).Folder? then old(entry).files else map[], items, entry.files))
    {
      if !directory && |items| <= COUNT_SPLIT_THRESHOLD {
        if entry.Folder? && entry.files != map[] {
          return false;
        }
        entry := ArrayFile(items);
        return true;
      }
      if entry.ArrayFile? {
        return false;
      }
      var files := if entry.Folder? then entry.files else map[];
      ghost var before := files;
      var current: set<string> := {};
      for i := 0 to |items|
        invariant forall id :: id in current <==> id != "" && LastWith(items[..i], id).Some?
        invariant WrittenSoFar(before, items[..i], files)
      {
        var it := items[i];
        assert items[..i + 1][..i] == items[..i];
        if it.id == "" {
          continue;
        }
        current := current + {it.id};
        WrittenNext(before, items[..i], files, it);
        assert items[..i + 1] == items[..i] + [it];
        files := files[NameOf(it.id) := Some(it)];
      }
      assert items[..|items|] == items;
      files := Prune(before, items, files, current);
      entry := Folder(files);
      ok := true;
    }

    /** Appends the stored items to the target, directory files in some order. */
    method Load(target: seq<Item>) returns (r: seq<Item>)
      ensures entry.Missing? ==> r == target
      ensures entry.ArrayFile? ==> r == target + entry.items
      ensures entry.Folder? ==> exists names :: Lists(entry.files, names) && r == target + Contents(entry.files, names)
    {
      match entry {
        case Missing => r := target;
        case ArrayFile(items) => r := target + items;
        case Folder(files) =>
          r := target;
          var todo := set n | n in files && Loadable(n) && files[n].Some?;
          ghost var names: seq<string> := [];
          while todo != {}
            invariant todo <= files.Keys && forall n :: n in todo ==> Loadable(n) && files[n].Some?
            invariant forall n :: n in names ==> n in files && Loadable(n) && files[n].Some? && n !in todo
            invariant forall i, j :: 0 <= i < j < |names| ==> names[i] != names[j]
            invariant forall n :: n in files && Loadable(n) && files[n].Some? ==> n in todo || n in names
            invariant r == target + Contents(files, names)
            decreases todo
          {
            var n :| n in todo;
            todo := todo - {n};
            r := r + [files[n].value];
            names := names + [n];
          }
          assert Lists(files, names);
      }
    }
  }

  /** Between the two loops of a write: written files are in place, nothing is pruned. */
  ghost predicate WrittenSoFar(before: map<string, Option<Item>>, items: seq<Item>, files: map<string, Option<Item>>) {
    forall n {:trigger n in files} ::
      if Prunable(n) && n != ".json" && LastWith(items, n[..|n| - 5]).Some? then n in files && files[n] == LastWith(items, n[..|n| - 5])
      else (n in files <==> n in before) && (n in files ==> files[n] == before[n])
  }

  lemma WrittenNext(before: map<string, Option<Item>>, items: seq<Item>, files: map<string, Option<Item>>, it: Item)
    requires WrittenSoFar(before, items, files) && it.id != ""
    ensures WrittenSoFar(before, items + [it], files[NameOf(it.id) := Some(it)])
  {
    NamesApart(it.id);
    assert (items + [it])[..|items|] == items;
    forall n ensures LastWith(items + [it], n) == if n == it.id then Some(it) else LastWith(items, n) {
    }
  }

  lemma NamesApart(id: string)
    requires id != ""
    ensures NameOf(id) != ".json" && forall n :: Prunable(n) && n[..|n| - 5] == id ==> n == NameOf(id)
  {
    forall n | Prunable(n) && n[..|n| - 5] == id ensures n == NameOf(id) {
      assert n == n[..|n| - 5] + n[|n| - 5..];
    }
  }

  method Prune(ghost before: map<string, Option<Item>>, ghost items: seq<Item>, files: map<string, Option<Item>>, current: set<string>)
    returns (r: map<string, Option<Item>>)
    requires forall id :: id in current <==> id != "" && LastWith(items, id).Some?
    requires WrittenSoFar(before, items, files)
    ensures Written(before, items, r)
  {
    r := files;
    var todo := files.Keys;
    while todo != {}
      invariant todo <= files.Keys
      invariant forall n :: n in r <==> n in files && (n in todo || !Prunable(n) || n[..|n| - 5] in current)
      invariant forall n :: n in r ==> r[n] == files[n]
      decreases todo
    {
      var n :| n in todo;
      todo := todo - {n};
      if Prunable(n) && n[..|n| - 5] !in current {
        r := r - {n};
      }
    }
    Pruned(before, items, files, current, r);
  }

  lemma Pruned(before: map<string, Option<Item>>, items: seq<Item>, files: map<string, Option<Item>>, current: set<string>, r: map<string, Option<Item>>)
    requires forall id :: id in current <==> id != "" && LastWith(items, id).Some?
    requires WrittenSoFar(before, items, files)
    requires forall n :: n in r <==> n in files && (!Prunable(n) || n[..|n| - 5] in current)
    requires forall n :: n in r ==> r[n] == files[n]
    ensures Written(before, items, r)
  {
    forall n | Prunable(n) ensures n[..|n| - 5] == "" <==> n == ".json" {
      assert n == n[..|n| - 5] + n[|n| - 5..];
    }
  }

  /** `names` lists, each once, the files a load reads. */
  ghost predicate Lists(files: map<string, Option<Item>>, names: seq<string>) {
    && (forall i, j :: 0 <= i < j < |names| ==> names[i] != names[j])
    && (forall n :: n in names <==> n in files && Loadable(n) && files[n].Some?)
  }

  function Contents(files: map<string, Option<Item>>, names: seq<string>): (r: seq<Item>)
    requires forall n :: n in names ==> n in files && files[n].Some?
    ensures |r| == |names|
  {
    seq(|names|, i requires 0 <= i < |names| => assert names[i] in names; files[names[i]].value)
  }

  // ----- round trip

  lemma {:induction false} LastWithUnique(items: seq<Item>, i: nat)
    requires Unique(items) && i < |items|
    ensures LastWith(items, items[i].id) == Some(items[i])
    decreases |items|
  {
    if i < |items| - 1 { LastWithUnique(items[..|items| - 1], i); }
  }

  lemma {:induction false} LastWithMember(items: seq<Item>, id: string)
    requires LastWith(items, id).Some?
    ensures LastWith(items, id).value in items && LastWith(items, id).value.id == id
    decreases |items|
  {
    if items[|items| - 1].id != id { LastWithMember(items[..|items| - 1], id); }
  }

  /** A file that a load reads but a write does not prune: its suffix is ".json" only
      when case is ignored. */
  predicate Stray(files: map<string, Option<Item>>, n: string) {
    n in files && Loadable(n) && !Prunable(n) && files[n].Some?
  }

  /** Whatever the directory held before, writing then loading gives exactly the written
      items if and only if it held no stray file. */
  lemma RoundTripIff(before: map<string, Option<Item>>, items: seq<Item>, after: map<string, Option<Item>>, names: seq<string>)
    requires Unique(items) && Written(before, items, after) && Lists(after, names)
    ensures multiset(Contents(after, names)) == multiset(items) <==> forall n :: !Stray(before, n)
  {
    if forall n :: !Stray(before, n) {
      ReadBack(before, items, after, names);
    } else {
      var n :| Stray(before, n);
      TooMany(before, items, after, names, n);
    }
  }

  /** Without stray files every file a load reads holds the item it is named after. */
  lemma ReadFile(before: map<string, Option<Item>>, items: seq<Item>, after: map<string, Option<Item>>, n: string)
    requires Written(before, items, after) && n in after && Loadable(n) && after[n].Some? && !Stray(before, n)
    ensures after[n].value in items && n == NameOf(after[n].value.id)
  {
    assert Prunable(n);
    LastWithMember(items, n[..|n| - 5]);
    assert n == n[..|n| - 5] + n[|n| - 5..];
  }

  lemma ReadBack(before: map<string, Option<Item>>, items: seq<Item>, after: map<string, Option<Item>>, names: seq<string>)
    requires Unique(items) && Written(before, items, after) && Lists(after, names)
    requires forall n :: !Stray(before, n)
    ensures multiset(Contents(after, names)) == multiset(items)
  {
    var r := Contents(after, names);
    forall i | 0 <= i < |names| ensures r[i] in items && names[i] == NameOf(r[i].id) {
      assert names[i] in names;
      ReadFile(before, items, after, names[i]);
    }
    forall i | 0 <= i < |items| ensures items[i] in r {
      FoundBack(before, items, after, names, i);
    }
    SameDistinct(r, items);
  }

  lemma FoundBack(before: map<string, Option<Item>>, items: seq<Item>, after: map<string, Option<Item>>, names: seq<string>, i: nat)
    requires Unique(items) && Written(before, items, after) && Lists(after, names) && i < |items|
    ensures items[i] in Contents(after, names)
  {
    WrittenFile(before, items, after, i);
    var n := NameOf(items[i].id);
    assert n in names;
    var k :| 0 <= k < |names| && names[k] == n;
    assert Contents(after, names)[k] == items[i];
  }

  lemma WrittenFile(before: map<string, Option<Item>>, items: seq<Item>, after: map<string, Option<Item>>, i: nat)
    requires Unique(items) && Written(before, items, after) && i < |items|
    ensures var n := NameOf(items[i].id); n in after && after[n] == Some(items[i]) && Loadable(n)
  {
    var n := NameOf(items[i].id);
    NamesApart(items[i].id);
    LastWithUnique(items, i);
    PrunableLoadable(n);
    assert n in after;
  }

  lemma {:induction false} SameDistinct(r: seq<Item>, items: seq<Item>)
    requires forall i, j :: 0 <= i < j < |r| ==> r[i] != r[j]
    requires forall i, j :: 0 <= i < j < |items| ==> items[i] != items[j]
    requires forall x :: x in r <==> x in items
    ensures multiset(r) == multiset(items)
  {
    forall x ensures multiset(r)[x] == multiset(items)[x] {
      DistinctCount(r, x);
      DistinctCount(items, x);
    }
  }

  lemma {:induction false} DistinctCount(s: seq<Item>, x: Item)
    requires forall i, j :: 0 <= i < j < |s| ==> s[i] != s[j]
    ensures multiset(s)[x] == if x in s then 1 else 0
    decreases |s|
  {
    if s != [] {
      var n := |s| - 1;
      DistinctCount(s[..n], x);
      assert s == s[..n] + [s[n]];
    }
  }

  ghost function OwnNames(items: seq<Item>, k: nat): (s: set<string>)
    requires k <= |items|
  {
    set i | 0 <= i < k :: NameOf(items[i].id)
  }

  lemma TooMany(before: map<string, Option<Item>>, items: seq<Item>, after: map<string, Option<Item>>, names: seq<string>, n: string)
    requires Unique(items) && Written(before, items, after) && Lists(after, names) && Stray(before, n)
    ensures multiset(Contents(after, names)) != multiset(items)
  {
    assert n in after && n in names;
    var own := OwnNames(items, |items|);
    forall m | m in own ensures m in names && m != n {
      var i :| 0 <= i < |items| && m == NameOf(items[i].id);
      WrittenFile(before, items, after, i);
    }
    NamesCount(items, |items|);
    SetInSeq(own + {n}, names);
    assert |multiset(Contents(after, names))| == |names| && |multiset(items)| == |items|;
  }

  lemma {:induction false} NamesCount(items: seq<Item>, k: nat)
    requires Unique(items) && k <= |items|
    ensures |OwnNames(items, k)| == k
    decreases k
  {
    if k == 0 {
      assert OwnNames(items, k) == {};
    } else {
      NamesCount(items, k - 1);
      var last := NameOf(items[k - 1].id);
      assert OwnNames(items, k) == OwnNames(items, k - 1) + {last};
      NotOwned(items, k - 1);
    }
  }

  lemma NotOwned(items: seq<Item>, k: nat)
    requires Unique(items) && k < |items|
    ensures NameOf(items[k].id) !in OwnNames(items, k)
  {
    forall i | 0 <= i < k ensures NameOf(items[i].id) != NameOf(items[k].id) { NamesDiffer(items[i].id, items[k].id); }
  }

  lemma NamesDiffer(a: string, b: string)
    requires a != b
    ensures NameOf(a) != NameOf(b)
  {
    assert NameOf(a)[..|NameOf(a)| - 5] == a;
  }

  lemma {:induction false} SetInSeq(s: set<string>, names: seq<string>)
    requires forall x :: x in s ==> x in names
    ensures |s| <= |names|
    decreases |names|
  {
    if names != [] {
      var n := |names| - 1;
      SetInSeq(s - {names[n]}, names[..n]);
    }
  }
}
