/** Which JSON counts as an error (core/context_manager.go:778-801), said on the text itself, and
    that compression keeps every element that does. */
module JsonErrors {
  import opened Text
  import opened JsonCompress
  import opened JsonRecompress

  // ----- spelling

  predicate LowerLetter(c: char) {
    'a' <= c <= 'z'
  }

  /** The characters that spell a lower-case letter: itself, its capital, and the two others that
      Unicode lowers to a Latin letter, the dotted capital I and the Kelvin sign. */
  predicate Spells(c: char, l: char) {
    c == l || c as int + 32 == l as int || (l == 'i' && c == '\U{130}') || (l == 'k' && c == '\U{212a}')
  }

  /** The word stands at position `i`, in any mixture of cases. */
  predicate SpelledAt(s: string, w: string, i: int) {
    0 <= i <= |s| - |w| && forall j :: 0 <= j < |w| ==> Spells(s[i + j], w[j])
  }

  predicate Spelled(s: string, w: string) {
    exists i :: 0 <= i <= |s| && SpelledAt(s, w, i)
  }

  lemma LowerSpells(s: string, i: nat, l: char)
    requires i < |s| && LowerLetter(l)
    ensures Lower(s)[i] == l <==> Spells(s[i], l)
  {
  }

  lemma WordIff(s: string, w: string, i: int)
    requires forall j :: 0 <= j < |w| ==> LowerLetter(w[j])
    ensures WordAt(Lower(s), w, i) <==> SpelledAt(s, w, i)
  {
    var l := Lower(s);
    if 0 <= i <= |s| - |w| {
      forall j | 0 <= j < |w| ensures l[i..i + |w|][j] == w[j] <==> Spells(s[i + j], w[j]) {
        assert l[i..i + |w|][j] == l[i + j];
        LowerSpells(s, i + j, w[j]);
      }
    }
  }

  lemma ContainsIff(s: string, w: string)
    requires forall j :: 0 <= j < |w| ==> LowerLetter(w[j])
    ensures ContainsWord(Lower(s), w) <==> Spelled(s, w)
  {
    forall i ensures WordAt(Lower(s), w, i) <==> SpelledAt(s, w, i) { WordIff(s, w, i); }
  }

  /** A text is an error if and only if it spells one of five words somewhere. */
  lemma ErrorTextIff(s: string)
    ensures ErrorText(s) <==>
      Spelled(s, "error") || Spelled(s, "fail") || Spelled(s, "exception") || Spelled(s, "fatal") || Spelled(s, "panic")
  {
    ContainsIff(s, "error");
    ContainsIff(s, "fail");
    ContainsIff(s, "exception");
    ContainsIff(s, "fatal");
    ContainsIff(s, "panic");
  }

  /** A key is an error if and only if it spells one of three. */
  lemma ErrorKeyIff(k: string)
    ensures ErrorKey(k) <==> Spelled(k, "error") || Spelled(k, "fail") || Spelled(k, "exception")
  {
    ContainsIff(k, "error");
    ContainsIff(k, "fail");
    ContainsIff(k, "exception");
  }

  /** A word in any mixture of cases is found wherever it stands. */
  lemma SpelledInside(a: string, word: string, b: string, w: string)
    requires |word| == |w| && forall j :: 0 <= j < |w| ==> Spells(word[j], w[j])
    ensures Spelled(a + word + b, w)
  {
    var s := a + word + b;
    forall j | 0 <= j < |w| ensures Spells(s[|a| + j], w[j]) { assert s[|a| + j] == word[j]; }
    assert SpelledAt(s, w, |a|);
  }

  // ----- trees

  /** A text that spells one of the words, or a key that does, at any depth. */
  predicate Mentions(node: Json) {
    match node
    case Str(s) => Spelled(s, "error") || Spelled(s, "fail") || Spelled(s, "exception") || Spelled(s, "fatal") || Spelled(s, "panic")
    case Obj(f) => exists k :: k in f && (Spelled(k, "error") || Spelled(k, "fail") || Spelled(k, "exception") || Mentions(f[k]))
    case Arr(items) => exists i :: 0 <= i < |items| && Mentions(items[i])
    case _ => false
  }

  /** For every tree: the error test answers whether a text or key spells one of its words. */
  lemma {:induction false} ContainsErrorIff(node: Json)
    ensures ContainsError(node) <==> Mentions(node)
    decreases node
  {
    match node {
      case Str(s) => ErrorTextIff(s);
      case Arr(items) =>
        forall i | 0 <= i < |items| ensures ContainsError(items[i]) <==> Mentions(items[i]) { ContainsErrorIff(items[i]); }
      case Obj(f) =>
        forall k | k in f
          ensures ErrorKey(k) || ContainsError(f[k]) <==> Spelled(k, "error") || Spelled(k, "fail") || Spelled(k, "exception") || Mentions(f[k])
        {
          ErrorKeyIff(k);
          ContainsErrorIff(f[k]);
        }
      case _ =>
    }
  }

  // ----- case does not matter

  /** The same character up to the case of an ASCII letter. */
  predicate SameLetter(a: char, b: char) {
    a == b || (LowerLetter(a) && b as int + 32 == a as int) || (LowerLetter(b) && a as int + 32 == b as int)
  }

  predicate SameText(s: string, t: string) {
    |s| == |t| && forall i :: 0 <= i < |s| ==> SameLetter(s[i], t[i])
  }

  lemma SameLower(s: string, t: string)
    requires SameText(s, t)
    ensures Lower(s) == Lower(t)
  {
    forall i | 0 <= i < |s| ensures Lower(s)[i] == Lower(t)[i] { assert SameLetter(s[i], t[i]); }
  }

  /** How the keys of the object at each path are written anew. */
  type Recase = (seq<string>, string) -> string

  ghost predicate KeysMatch(f: map<string, Json>, g: map<string, Json>, c: Recase, path: seq<string>) {
    && (forall k :: k in f ==> c(path, k) in g && SameText(k, c(path, k)))
    && (forall m :: m in g ==> exists k :: k in f && m == c(path, k))
  }

  /** The same tree up to the case of ASCII letters, in texts and in keys, at every place. */
  ghost predicate SameTree(x: Json, y: Json, c: Recase, path: seq<string>)
    decreases x
  {
    match x
    case Str(s) => y.Str? && SameText(s, y.s)
    case Arr(a) => y.Arr? && |a| == |y.items| && forall i :: 0 <= i < |a| ==> SameTree(a[i], y.items[i], c, path + [Digits(i)])
    case Obj(f) => y.Obj? && KeysMatch(f, y.fields, c, path) && forall k :: k in f ==> SameTree(f[k], y.fields[c(path, k)], c, path + [k])
    case _ => x == y
  }

  predicate ErrorEntry(f: map<string, Json>, k: string) {
    k in f && (ErrorKey(k) || ContainsError(f[k]))
  }

  lemma ObjectError(f: map<string, Json>)
    ensures ContainsError(Obj(f)) <==> exists k :: ErrorEntry(f, k)
  {
    var x := Obj(f);
    if ContainsError(x) {
      var k :| k in x.fields && (ErrorKey(k) || ContainsError(x.fields[k]));
      assert ErrorEntry(f, k);
    }
    if k :| ErrorEntry(f, k) {
      assert k in x.fields && (ErrorKey(k) || ContainsError(x.fields[k]));
    }
  }

  lemma ObjectBlind(f: map<string, Json>, g: map<string, Json>, c: Recase, path: seq<string>)
    requires KeysMatch(f, g, c, path) && forall k :: k in f ==> (ContainsError(f[k]) <==> ContainsError(g[c(path, k)]))
    ensures ContainsError(Obj(f)) <==> ContainsError(Obj(g))
  {
    ObjectError(f);
    ObjectError(g);
    forall k | k in f ensures ErrorEntry(f, k) <==> ErrorEntry(g, c(path, k)) { SameLower(k, c(path, k)); }
    if m :| ErrorEntry(g, m) {
      var k :| k in f && m == c(path, k);
      assert ErrorEntry(f, k);
    }
  }

  /** Changing the case of letters anywhere changes no answer of the error test. */
  lemma {:induction false} CaseBlind(x: Json, y: Json, c: Recase, path: seq<string>)
    requires SameTree(x, y, c, path)
    ensures ContainsError(x) <==> ContainsError(y)
    decreases x
  {
    match x {
      case Str(s) => SameLower(s, y.s);
      case Arr(a) =>
        forall i | 0 <= i < |a| ensures ContainsError(a[i]) <==> ContainsError(y.items[i]) {
          CaseBlind(a[i], y.items[i], c, path + [Digits(i)]);
        }
      case Obj(f) =>
        forall k | k in f ensures ContainsError(f[k]) <==> ContainsError(y.fields[c(path, k)]) {
          CaseBlind(f[k], y.fields[c(path, k)], c, path + [k]);
        }
        ObjectBlind(f, y.fields, c, path);
      case _ =>
    }
  }

  // ----- what compression keeps

  /** In every long array the two elements at either end, and every element that mentions an error
      at any depth, stand in the output, compressed. */
  lemma ErrorsStand(items: seq<Json>, i: nat)
    requires |items| > 5 && i < |items| && (i < 2 || i >= |items| - 2 || Mentions(items[i]))
    ensures Compress(Arr(items)).Arr? && Compress(items[i]) in Compress(Arr(items)).items
  {
    var cs := Compressed(items);
    LongMeaning(items);
    ContainsErrorIff(items[i]);
    ErrorsPreserved(items[i]);
    KeptAgain(cs, i, Length(cs, i));
  }

  /** An element in the middle that mentions no error stands for itself only as part of a count. */
  lemma OthersCounted(items: seq<Json>, i: nat)
    requires |items| > 5 && 2 <= i < |items| - 2
    ensures Keep(Compressed(items), i) <==> Mentions(items[i])
  {
    ContainsErrorIff(items[i]);
    ErrorsPreserved(items[i]);
  }

  /** A shouted error is one. */
  lemma Shouted(x: Json)
    ensures Mentions(Str("ERROR: disk full"))
    ensures var e := Str("ERROR: disk full"); e in Compress(Arr([x, x, e, x, x, x])).items
  {
    assert SpelledAt("ERROR: disk full", "error", 0);
    var e := Str("ERROR: disk full");
    var items := [x, x, e, x, x, x];
    ErrorsStand(items, 2);
  }
}
