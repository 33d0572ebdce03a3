/** The string functions the source takes from Go's strings and strconv packages. */
module Text {

  datatype Option<+T> = None | Some(value: T)

  /** strings.Split with a one-character separator: never empty. */
  function Split(s: string, sep: char): (r: seq<string>)
    ensures r != []
  {
    if s == "" then [""]
    else
      var r := Split(s[1..], sep);
      if s[0] == sep then [""] + r else [[s[0]] + r[0]] + r[1..]
  }

  /** strings.Join with a one-character separator. */
  function Join(parts: seq<string>, sep: char): (s: string) {
    if parts == [] then ""
    else if |parts| == 1 then parts[0]
    else parts[0] + [sep] + Join(parts[1..], sep)
  }

  lemma {:induction false} SplitPrefix(p: string, s: string, sep: char)
    requires sep !in p
    ensures Split(p + [sep] + s, sep) == [p] + Split(s, sep)
  {
    var t := p + [sep] + s;
    if p == "" {
      assert t[0] == sep && t[1..] == s;
    } else {
      SplitPrefix(p[1..], s, sep);
      assert t[1..] == p[1..] + [sep] + s;
      assert t[0] == p[0];
      assert [p[0]] + p[1..] == p;
      assert ([p[1..]] + Split(s, sep))[1..] == Split(s, sep);
    }
  }

  lemma {:induction false} SplitPlain(p: string, sep: char)
    requires sep !in p
    ensures Split(p, sep) == [p]
  {
    if p != "" {
      SplitPlain(p[1..], sep);
      assert [p[0]] + p[1..] == p;
    }
  }

  /** Splitting undoes joining when no part holds the separator. */
  lemma {:induction false} SplitJoin(parts: seq<string>, sep: char)
    requires parts != [] && forall p :: p in parts ==> sep !in p
    ensures Split(Join(parts, sep), sep) == parts
    decreases |parts|
  {
    if |parts| == 1 {
      SplitPlain(parts[0], sep);
      assert parts == [parts[0]];
    } else {
      SplitJoin(parts[1..], sep);
      SplitPrefix(parts[0], Join(parts[1..], sep), sep);
      assert parts == [parts[0]] + parts[1..];
    }
  }

  predicate IsDigit(c: char) {
    '0' <= c <= '9'
  }

  function Digits(n: nat): (s: string)
    ensures s != "" && forall c :: c in s ==> IsDigit(c)
  {
    var d := ['0' + (n % 10) as char];
    if n < 10 then d else Digits(n / 10) + d
  }

  function DigitsValue(s: string): (n: nat)
    requires forall c :: c in s ==> IsDigit(c)
  {
    if s == "" then 0
    else
      var c := s[|s| - 1];
      assert c in s && IsDigit(c);
      10 * DigitsValue(s[..|s| - 1]) + (c as int - '0' as int)
  }

  const INT64_LIMIT: nat := 0x8000_0000_0000_0000

  /** strconv.Atoi on a 64-bit platform: an optional sign, at least one digit,
      and a value that fits. */
  function Atoi(s: string): (r: Option<int>)
  {
    var signed := s != "" && (s[0] == '-' || s[0] == '+');
    var body := if signed then s[1..] else s;
    if body == "" || exists c :: c in body && !IsDigit(c) then None
    else
      var n := DigitsValue(body);
      if signed && s[0] == '-' then
        var m := -(n as int);
        if n <= INT64_LIMIT then Some(m) else None
      else if n < INT64_LIMIT then Some(n) else None
  }

  lemma {:induction false} DigitsRoundTrip(n: nat)
    ensures DigitsValue(Digits(n)) == n
  {
    var d := ['0' + (n % 10) as char];
    if n >= 10 {
      DigitsRoundTrip(n / 10);
      assert (Digits(n / 10) + d)[..|Digits(n / 10)|] == Digits(n / 10);
    } else {
      assert d[..0] == "";
    }
  }

  lemma AtoiDigits(n: nat)
    requires n < INT64_LIMIT
    ensures Atoi(Digits(n)) == Some(n)
  {
    DigitsRoundTrip(n);
    assert Digits(n)[0] in Digits(n);
  }

  predicate AllDigits(s: string) {
    s != "" && forall c :: c in s ==> IsDigit(c)
  }

  /** What a text of digits, with a sign or without, stands for. */
  ghost predicate StandsFor(s: string, v: int) {
    || (AllDigits(s) && v == DigitsValue(s))
    || (s != "" && s[0] == '+' && AllDigits(s[1..]) && v == DigitsValue(s[1..]))
    || (s != "" && s[0] == '-' && AllDigits(s[1..]) && -v == DigitsValue(s[1..]))
  }

  /** Atoi reads a text as `v` if and only if the text stands for `v` and `v` fits in 64 bits. */
  lemma AtoiIff(s: string, v: int)
    ensures Atoi(s) == Some(v) <==> StandsFor(s, v) && -(INT64_LIMIT as int) <= v < INT64_LIMIT
  {
    if AllDigits(s) { assert IsDigit(s[0]) by { assert s[0] in s; } }
  }

  /** A character that is neither a digit nor a sign makes a text no number. */
  lemma AtoiRejects(s: string, c: char)
    requires c in s && !IsDigit(c) && c != '+' && c != '-'
    ensures Atoi(s).None?
  {
    if s[0] == '+' || s[0] == '-' { assert c in s[1..]; }
  }

  /** Every character but the separator is in some part. */
  lemma {:induction false} SplitCovers(s: string, sep: char, c: char) returns (i: nat)
    requires c in s && c != sep
    ensures i < |Split(s, sep)| && c in Split(s, sep)[i]
  {
    var r := Split(s[1..], sep);
    if s[0] == sep {
      assert c in s[1..];
      i := SplitCovers(s[1..], sep, c);
      i := i + 1;
    } else if s[0] == c {
      i := 0;
    } else {
      assert c in s[1..];
      i := SplitCovers(s[1..], sep, c);
    }
  }
}
