/** Parsing of cron expressions (core/cron_parser.go:40-139): what it accepts, and
    exactly which well-formed expressions it reads back as the values they denote;
    the step is added in 64-bit arithmetic and can wrap around. */
module CronParse {
  import opened Text
  import opened Cron

  // ----- specification

  /** Every step-th value from lo up to hi. */
  function Steps(lo: int, hi: int, step: int): (s: set<int>)
    requires step > 0
    decreases hi - lo
  {
    if lo > hi then {} else {lo} + Steps(lo + step, hi, step)
  }

  lemma {:induction false} StepsBounds(lo: int, hi: int, step: int)
    requires step > 0
    ensures forall v :: v in Steps(lo, hi, step) ==> lo <= v <= hi
    ensures lo <= hi ==> lo in Steps(lo, hi, step)
    decreases hi - lo
  {
    if lo <= hi { StepsBounds(lo + step, hi, step); }
  }

  function Turns(lo: int, step: int, k: nat): (v: int) {
    lo + k * step
  }

  /** `v` is a whole number of steps from `lo`. */
  ghost predicate OnGrid(lo: int, step: int, v: int) {
    exists k: nat :: Turns(lo, step, k) == v
  }

  lemma GridNext(lo: int, next: int, step: int, v: int)
    requires step > 0 && next == lo + step
    ensures OnGrid(lo, step, v) <==> v == lo || OnGrid(next, step, v)
    ensures OnGrid(lo, step, v) ==> v >= lo
  {
    assert Turns(lo, step, 0) == lo;
    if OnGrid(lo, step, v) {
      var k: nat :| Turns(lo, step, k) == v;
      assert k * step >= 0;
      if k > 0 {
        assert k * step == (k - 1) * step + step;
        assert Turns(next, step, k - 1) == v;
      }
    }
    if OnGrid(next, step, v) {
      var k: nat :| Turns(next, step, k) == v;
      assert (k + 1) * step == k * step + step;
      assert Turns(lo, step, k + 1) == v;
    }
  }

  /** They are the values up to the end of the range at a whole number of steps from its start. */
  lemma {:induction false} StepsIff(lo: int, hi: int, step: int, v: int)
    requires step > 0
    ensures v in Steps(lo, hi, step) <==> v <= hi && OnGrid(lo, step, v)
    decreases hi - lo
  {
    GridNext(lo, lo + step, step, v);
    if lo <= hi { StepsIff(lo + step, hi, step, v); }
  }

  lemma {:induction false} StepsOfOne(lo: int, hi: int)
    ensures Steps(lo, hi, 1) == Full(lo, hi)
    decreases hi - lo
  {
    if lo <= hi {
      StepsOfOne(lo + 1, hi);
      assert forall v :: v in Full(lo, hi) <==> v == lo || v in Full(lo + 1, hi);
    }
  }

  // ----- the step loop in 64-bit arithmetic

  /** The ranges of the five fields lie between 0 and 59. */
  predicate FieldRange(min: int, max: int) {
    0 <= min <= max <= 59
  }

  /** The sum of a 64-bit integer and a positive one, as Go computes it. */
  function Wrap(x: int): (r: int) {
    if x >= INT64_LIMIT then x - 2 * INT64_LIMIT else x
  }

  /** The step from `lo` stays below 2^63. */
  predicate Fits(lo: int, step: int) {
    lo + step < INT64_LIMIT
  }

  /** Where the loop variable can be: a wrapping step takes it to the bottom of the
      64-bit range and the next one back to just below where it was. */
  predicate OnPath(v: int, hi: int, step: int) {
    var k := INT64_LIMIT - step;
    v < INT64_LIMIT && (v >= 0 || (k <= hi && (-k <= v || 0 <= v + INT64_LIMIT <= hi)))
  }

  function Rounds(v: int, hi: int, step: int): (n: nat)
    requires 0 <= hi <= 59 && 0 < step < INT64_LIMIT && OnPath(v, hi, step)
  {
    var k := INT64_LIMIT - step;
    if v > hi then 0
    else if k > hi then hi - v + 1
    else if v >= -k then 2 * (v + k) + 2
    else 2 * (v + INT64_LIMIT) + 3
  }

  /** The values the loop sets from `v` on. */
  function Stepped(v: int, hi: int, step: int): (s: set<int>)
    requires 0 <= hi <= 59 && 0 < step < INT64_LIMIT && OnPath(v, hi, step)
    decreases Rounds(v, hi, step)
  {
    if v > hi then {} else {v} + Stepped(Wrap(v + step), hi, step)
  }

  lemma {:induction false} SteppedFits(lo: int, hi: int, step: int)
    requires 0 <= lo && 0 <= hi <= 59 && 0 < step < INT64_LIMIT && OnPath(lo, hi, step)
    requires lo <= hi ==> Fits(lo, step)
    ensures Stepped(lo, hi, step) == Steps(lo, hi, step)
    decreases hi - lo
  {
    if lo <= hi { SteppedFits(lo + step, hi, step); }
  }

  /** The loop sets the values the range denotes if and only if its first step does not wrap;
      when it wraps, it also sets a value below every range. */
  lemma SteppedIff(lo: int, hi: int, step: int)
    requires 0 <= lo <= hi <= 59 && 0 < step < INT64_LIMIT
    ensures lo in Stepped(lo, hi, step)
    ensures Stepped(lo, hi, step) == Steps(lo, hi, step) <==> Fits(lo, step)
    ensures !Fits(lo, step) ==> Wrap(lo + step) in Stepped(lo, hi, step) && Wrap(lo + step) < 0
  {
    if Fits(lo, step) {
      SteppedFits(lo, hi, step);
    } else {
      StepsBounds(lo, hi, step);
      assert Wrap(lo + step) in Stepped(Wrap(lo + step), hi, step);
    }
  }

  /** From `lo` down to zero in jumps of `gap`. */
  function Ladder(lo: int, gap: int): (s: set<int>)
    requires gap > 0
    decreases lo + 1
  {
    if lo < 0 then {} else {lo} + Ladder(lo - gap, gap)
  }

  lemma {:induction false} LadderOfTwo(lo: int, m: int)
    requires 0 <= m
    ensures m in Ladder(lo, 2) <==> m <= lo && m % 2 == lo % 2
    decreases lo + 1
  {
    if lo >= 0 { LadderOfTwo(lo - 2, m); }
  }

  /** What a wrapping step sets in the field: not upwards from the start, but downwards by
      twice the distance of the step from 2^63. */
  lemma {:induction false} WrappedValues(lo: int, hi: int, step: int, x: int)
    requires 0 <= hi <= 59 && 0 < step < INT64_LIMIT && INT64_LIMIT - step <= hi && step - INT64_LIMIT <= lo <= hi
    requires 0 <= x
    ensures x in Stepped(lo, hi, step) <==> x in Ladder(lo, 2 * (INT64_LIMIT - step))
    decreases lo + INT64_LIMIT
  {
    var k := INT64_LIMIT - step;
    var far := Wrap(lo + step);
    if lo >= k {
      assert far == lo - k - INT64_LIMIT && Wrap(far + step) == lo - 2 * k;
      assert Stepped(far, hi, step) == {far} + Stepped(lo - 2 * k, hi, step);
      WrappedValues(lo - 2 * k, hi, step, x);
    } else {
      assert far == lo + step > hi;
      assert Stepped(far, hi, step) == {};
      assert Ladder(lo - 2 * k, 2 * k) == {};
    }
  }

  // ----- parts and fields

  /** The parts before and after the first `c`. */
  function Cut(s: string, c: char): (r: Option<(string, string)>)
    ensures r.None? <==> c !in s
  {
    if s == "" then None
    else if s[0] == c then Some(("", s[1..]))
    else match Cut(s[1..], c)
      case None => None
      case Some((a, b)) => Some(([s[0]] + a, b))
  }

  function InRange(v: Option<int>, lo: int, hi: int): (r: Option<int>)
    ensures r.Some? <==> v.Some? && lo <= v.value <= hi
    ensures r.Some? ==> r == v
  {
    if v.Some? && lo <= v.value <= hi then v else None
  }

  /** The bounds a range denotes: all, from-to, or a single value. */
  function Bounds(text: string, min: int, max: int): (r: Option<(int, int)>)
    ensures r.Some? && min <= max ==> min <= r.value.0 <= r.value.1 <= max
  {
    if text == "*" then Some((min, max))
    else match Cut(text, '-')
      case Some((a, b)) =>
        var lo := InRange(Atoi(a), min, max);
        var hi := InRange(Atoi(b), min, max);
        if lo.None? || hi.None? || hi.value < lo.value then None else Some((lo.value, hi.value))
      case None =>
        var v := InRange(Atoi(text), min, max);
        if v.None? then None else Some((v.value, v.value))
  }

  /** One comma-separated part: a range and an optional step. */
  function PartBounds(part: string, min: int, max: int): (r: Option<(int, int, int)>)
    requires FieldRange(min, max)
    ensures r.Some? ==> min <= r.value.0 <= r.value.1 <= max && 0 < r.value.2 < INT64_LIMIT
  {
    var (range, step) := match Cut(part, '/') case Some((a, b)) => (a, Atoi(b)) case None => (part, Some(1));
    if step.None? || step.value <= 0 then None
    else match Bounds(range, min, max)
      case None => None
      case Some((lo, hi)) => Some((lo, hi, step.value))
  }

  function PartValues(part: string, min: int, max: int): (r: Option<set<int>>)
    requires FieldRange(min, max)
  {
    match PartBounds(part, min, max)
    case None => None
    case Some((lo, hi, step)) => Some(Stepped(lo, hi, step))
  }

  /** An accepted part whose step does not wrap. */
  predicate PartFits(part: string, min: int, max: int)
    requires FieldRange(min, max)
  {
    PartBounds(part, min, max).Some? ==> Fits(PartBounds(part, min, max).value.0, PartBounds(part, min, max).value.2)
  }

  predicate FieldFits(expr: string, min: int, max: int)
    requires FieldRange(min, max)
  {
    expr == "*" || forall part :: part in Split(expr, ',') ==> PartFits(part, min, max)
  }

  function PartsValues(parts: seq<string>, min: int, max: int): (r: Option<set<int>>)
    requires FieldRange(min, max)
    decreases |parts|
  {
    if parts == [] then Some({})
    else
      var n := |parts| - 1;
      var rest := PartsValues(parts[..n], min, max);
      var last := PartValues(parts[n], min, max);
      if rest.None? || last.None? then None else Some(rest.value + last.value)
  }

  function FieldValues(expr: string, min: int, max: int): (r: Option<set<int>>)
    requires FieldRange(min, max)
  {
    if expr == "*" then Some(Full(min, max)) else PartsValues(Split(expr, ','), min, max)
  }

  predicate IsSpace(c: char) {
    '\t' <= c <= '\r' || c == ' ' || c == '\U{85}' || c == '\U{a0}' || c == '\U{1680}' || '\U{2000}' <= c <= '\U{200a}'
    || c == '\U{2028}' || c == '\U{2029}' || c == '\U{202f}' || c == '\U{205f}' || c == '\U{3000}'
  }

  predicate Word(w: string) {
    w != "" && forall c :: c in w ==> !IsSpace(c)
  }

  /** strings.Fields; `word` is the word being read. */
  function Fields(word: string, s: string): (r: seq<string>)
    decreases |s|
  {
    var done := if word == "" then [] else [word];
    if s == "" then done
    else if IsSpace(s[0]) then done + Fields("", s[1..])
    else Fields(word + [s[0]], s[1..])
  }

  function ParseSchedule(expr: string): (r: Option<Schedule>) {
    var f := Fields("", expr);
    if |f| != 5 then None
    else
      var minute, hour, day, month, weekday :=
        FieldValues(f[0], 0, 59), FieldValues(f[1], 0, 23), FieldValues(f[2], 1, 31), FieldValues(f[3], 1, 12), FieldValues(f[4], 0, 6);
      if minute.None? || hour.None? || day.None? || month.None? || weekday.None? then None
      else Some(Schedule(minute.value, hour.value, day.value, month.value, weekday.value, f[2] != "*", f[4] != "*"))
  }

  // ----- the loops of the source

  method ParsePart(part: string, min: int, max: int, values: set<int>) returns (r: Option<set<int>>)
    requires FieldRange(min, max)
    ensures r == match PartValues(part, min, max) case None => None case Some(s) => Some(values + s)
  {
    var step := 1;
    var range := part;
    var slash := Cut(part, '/');
    if slash.Some? {
      var n := Atoi(slash.value.1);
      if n.None? || n.value <= 0 {
        return None;
      }
      step := n.value;
      range := slash.value.0;
    }
    var bounds := Bounds(range, min, max);
    if bounds.None? {
      return None;
    }
    var (lo, hi) := bounds.value;
    var acc := AddSteps(lo, hi, step, values);
    r := Some(acc);
  }

  method AddSteps(lo: int, hi: int, step: int, values: set<int>) returns (acc: set<int>)
    requires 0 <= lo <= hi <= 59 && 0 < step < INT64_LIMIT
    ensures acc == values + Stepped(lo, hi, step)
  {
    var v := lo;
    acc := values;
    while v <= hi
      invariant OnPath(v, hi, step)
      invariant acc + Stepped(v, hi, step) == values + Stepped(lo, hi, step)
      decreases Rounds(v, hi, step)
    {
      acc := acc + {v};
      v := Wrap(v + step);
    }
    assert acc == acc + Stepped(v, hi, step);
  }

  method ParseField(expr: string, min: int, max: int) returns (r: Option<set<int>>)
    requires FieldRange(min, max)
    ensures r == FieldValues(expr, min, max)
  {
    var values: set<int> := {};
    if expr == "*" {
      StepsOfOne(min, max);
      var v := min;
      while v <= max
        invariant values + Steps(v, max, 1) == Full(min, max)
        decreases max - v
      {
        values := values + {v};
        v := v + 1;
      }
      return Some(values);
    }
    var parts := Split(expr, ',');
    for i := 0 to |parts|
      invariant PartsValues(parts[..i], min, max) == Some(values)
    {
      assert parts[..i + 1][..i] == parts[..i];
      var next := ParsePart(parts[i], min, max, values);
      if next.None? {
        FailedPart(parts, i, min, max);
        return None;
      }
      values := next.value;
    }
    assert parts[..|parts|] == parts;
    r := Some(values);
  }

  lemma {:induction false} FailedPart(parts: seq<string>, i: nat, min: int, max: int)
    requires FieldRange(min, max) && i < |parts| && PartValues(parts[i], min, max).None?
    ensures PartsValues(parts, min, max).None?
    decreases |parts|
  {
    if i < |parts| - 1 { FailedPart(parts[..|parts| - 1], i, min, max); }
  }

  // ----- soundness: what an accepted expression guarantees

  lemma PartOkIff(part: string, min: int, max: int)
    requires FieldRange(min, max) && PartValues(part, min, max).Some?
    ensures FieldOk(PartValues(part, min, max).value, min, max) <==> PartFits(part, min, max)
    ensures Meets(PartValues(part, min, max).value, min, max)
  {
    var (lo, hi, step) := PartBounds(part, min, max).value;
    SteppedIff(lo, hi, step);
    StepsBounds(lo, hi, step);
  }

  lemma {:induction false} PartsOkIff(parts: seq<string>, min: int, max: int)
    requires FieldRange(min, max) && parts != [] && PartsValues(parts, min, max).Some?
    ensures Meets(PartsValues(parts, min, max).value, min, max)
    ensures FieldOk(PartsValues(parts, min, max).value, min, max) <==> forall part :: part in parts ==> PartFits(part, min, max)
    decreases |parts|
  {
    var n := |parts| - 1;
    PartOkIff(parts[n], min, max);
    assert parts == parts[..n] + [parts[n]];
    if n > 0 { PartsOkIff(parts[..n], min, max); }
  }

  lemma FieldSoundIff(expr: string, min: int, max: int)
    requires FieldRange(min, max) && FieldValues(expr, min, max).Some?
    ensures FieldOk(FieldValues(expr, min, max).value, min, max) <==> FieldFits(expr, min, max)
    ensures Meets(FieldValues(expr, min, max).value, min, max)
  {
    if expr == "*" {
      assert min in Full(min, max);
    } else {
      PartsOkIff(Split(expr, ','), min, max);
    }
  }

  /** An accepted expression gives fields that meet their ranges, full ones where unrestricted;
      they stay within their ranges if and only if no step wraps. */
  lemma ParseSoundIff(expr: string)
    ensures ParseSchedule(expr).Some? ==> Accepted(ParseSchedule(expr).value)
    ensures ParseSchedule(expr).Some? ==>
      var f := Fields("", expr);
      |f| == 5 && (Parsed(ParseSchedule(expr).value) <==>
        FieldFits(f[0], 0, 59) && FieldFits(f[1], 0, 23) && FieldFits(f[2], 1, 31) && FieldFits(f[3], 1, 12) && FieldFits(f[4], 0, 6))
  {
    var f := Fields("", expr);
    if ParseSchedule(expr).Some? {
      FieldSoundIff(f[0], 0, 59);
      FieldSoundIff(f[1], 0, 23);
      FieldSoundIff(f[2], 1, 31);
      FieldSoundIff(f[3], 1, 12);
      FieldSoundIff(f[4], 0, 6);
    }
  }

  // ----- what is rejected

  /** A character that no cron expression uses. */
  predicate Foreign(c: char) {
    !IsSpace(c) && !IsDigit(c) && c !in "*+-/,"
  }

  lemma {:induction false} CutJoins(s: string, c: char)
    ensures Cut(s, c).Some? ==> s == Cut(s, c).value.0 + [c] + Cut(s, c).value.1
  {
    if s != "" {
      CutJoins(s[1..], c);
      assert s == [s[0]] + s[1..];
    }
  }

  lemma ForeignBounds(text: string, c: char, min: int, max: int)
    requires c in text && Foreign(c)
    ensures Bounds(text, min, max).None?
  {
    CutJoins(text, '-');
    if Cut(text, '-').Some? {
      var (a, b) := Cut(text, '-').value;
      if c in a { AtoiRejects(a, c); } else { assert c in b; AtoiRejects(b, c); }
    } else {
      AtoiRejects(text, c);
    }
  }

  lemma ForeignPart(part: string, c: char, min: int, max: int)
    requires c in part && Foreign(c) && FieldRange(min, max)
    ensures PartValues(part, min, max).None?
  {
    CutJoins(part, '/');
    if Cut(part, '/').Some? {
      var (a, b) := Cut(part, '/').value;
      if c in a { ForeignBounds(a, c, min, max); } else { assert c in b; AtoiRejects(b, c); }
    } else {
      ForeignBounds(part, c, min, max);
    }
  }

  lemma ForeignField(expr: string, c: char, min: int, max: int)
    requires c in expr && Foreign(c) && FieldRange(min, max)
    ensures FieldValues(expr, min, max).None?
  {
    var i := SplitCovers(expr, ',', c);
    ForeignPart(Split(expr, ',')[i], c, min, max);
    FailedPart(Split(expr, ','), i, min, max);
  }

  lemma {:induction false} FieldsCover(word: string, s: string, c: char) returns (i: nat)
    requires !IsSpace(c) && (c in word || c in s)
    ensures i < |Fields(word, s)| && c in Fields(word, s)[i]
    decreases |s|
  {
    if s == "" {
      i := 0;
    } else if IsSpace(s[0]) {
      if c in word {
        i := 0;
      } else {
        i := FieldsCover("", s[1..], c);
        if word != "" { i := i + 1; }
      }
    } else {
      i := FieldsCover(word + [s[0]], s[1..], c);
    }
  }

  /** An expression with a character that cron does not use, such as a letter, is rejected. */
  lemma ForeignRejected(expr: string, c: char)
    requires c in expr && Foreign(c)
    ensures ParseSchedule(expr).None?
  {
    var i := FieldsCover("", expr, c);
    var f := Fields("", expr);
    if |f| == 5 {
      if i == 0 { ForeignField(f[0], c, 0, 59); }
      else if i == 1 { ForeignField(f[1], c, 0, 23); }
      else if i == 2 { ForeignField(f[2], c, 1, 31); }
      else if i == 3 { ForeignField(f[3], c, 1, 12); }
      else { ForeignField(f[4], c, 0, 6); }
    }
  }

  /** Names of weekdays are. */
  lemma NamesRejected()
    ensures ParseSchedule("0 9 * * MON").None?
  {
    assert "0 9 * * MON"[8] == 'M';
    ForeignRejected("0 9 * * MON", 'M');
  }

  // ----- completeness: which well-formed expressions read back as what they denote

  datatype Range = All | FromTo(lo: nat, hi: nat) | One(v: nat)
  datatype Item = Item(range: Range, step: Option<nat>)

  predicate ItemOk(it: Item, min: int, max: int) {
    && FieldRange(min, max)
    && (it.range.FromTo? ==> min <= it.range.lo <= it.range.hi <= max)
    && (it.range.One? ==> min <= it.range.v <= max)
    && (it.step.Some? ==> 1 <= it.step.value < INT64_LIMIT)
  }

  function Denotes(it: Item, min: int, max: int): (s: set<int>)
    requires ItemOk(it, min, max)
  {
    var step := if it.step.Some? then it.step.value else 1;
    match it.range
    case All => Steps(min, max, step)
    case FromTo(lo, hi) => Steps(lo, hi, step)
    case One(v) => Steps(v, v, step)
  }

  /** The step of a well-formed item, taken from the start of its range, does not wrap. */
  predicate ItemFits(it: Item, min: int) {
    it.step.Some? ==> Fits(match it.range case All => min case FromTo(lo, _) => lo case One(v) => v, it.step.value)
  }

  predicate AllFit(items: seq<Item>, min: int) {
    forall it :: it in items ==> ItemFits(it, min)
  }

  function RangeText(r: Range): (s: string) {
    match r
    case All => "*"
    case FromTo(lo, hi) => Digits(lo) + "-" + Digits(hi)
    case One(v) => Digits(v)
  }

  function ItemText(it: Item): (s: string) {
    if it.step.Some? then RangeText(it.range) + "/" + Digits(it.step.value) else RangeText(it.range)
  }

  lemma {:induction false} CutAt(a: string, c: char, b: string)
    requires c !in a
    ensures Cut(a + [c] + b, c) == Some((a, b))
  {
    var s := a + [c] + b;
    if a == "" {
      assert s[0] == c && s[1..] == b;
    } else {
      assert s[0] == a[0] && s[1..] == a[1..] + [c] + b;
      CutAt(a[1..], c, b);
      assert [a[0]] + a[1..] == a;
    }
  }

  lemma RangeReads(r: Range, min: int, max: int)
    requires ItemOk(Item(r, None), min, max)
    ensures Bounds(RangeText(r), min, max) == Some(match r case All => (min, max) case FromTo(lo, hi) => (lo, hi) case One(v) => (v, v))
  {
    match r {
      case All =>
      case FromTo(lo, hi) =>
        CutAt(Digits(lo), '-', Digits(hi));
        AtoiDigits(lo);
        AtoiDigits(hi);
        assert RangeText(r)[|Digits(lo)|] == '-';
      case One(v) =>
        AtoiDigits(v);
        assert Digits(v)[0] in Digits(v);
    }
  }

  lemma RangeWord(r: Range)
    ensures '/' !in RangeText(r) && ',' !in RangeText(r) && Word(RangeText(r))
  {
    forall c | c in RangeText(r) ensures c != '/' && c != ',' && !IsSpace(c) {
      assert c == '*' || c == '-' || IsDigit(c);
    }
  }

  lemma ItemReads(it: Item, min: int, max: int)
    requires ItemOk(it, min, max)
    ensures PartValues(ItemText(it), min, max).Some?
    ensures PartFits(ItemText(it), min, max) <==> ItemFits(it, min)
    ensures ItemFits(it, min) ==> PartValues(ItemText(it), min, max) == Some(Denotes(it, min, max))
    ensures ',' !in ItemText(it) && Word(ItemText(it))
  {
    RangeReads(it.range, min, max);
    RangeWord(it.range);
    if it.step.Some? {
      CutAt(RangeText(it.range), '/', Digits(it.step.value));
      AtoiDigits(it.step.value);
    }
    var (lo, hi, step) := PartBounds(ItemText(it), min, max).value;
    SteppedIff(lo, hi, step);
  }

  function Texts(items: seq<Item>): (r: seq<string>)
    ensures |r| == |items|
  {
    seq(|items|, i requires 0 <= i < |items| => ItemText(items[i]))
  }

  function AllDenote(items: seq<Item>, min: int, max: int): (s: set<int>)
    requires forall it :: it in items ==> ItemOk(it, min, max)
    decreases |items|
  {
    if items == [] then {}
    else AllDenote(items[..|items| - 1], min, max) + Denotes(items[|items| - 1], min, max)
  }

  lemma PartsSnoc(parts: seq<string>, part: string, min: int, max: int)
    requires FieldRange(min, max)
    ensures PartsValues(parts + [part], min, max) ==
      var rest, last := PartsValues(parts, min, max), PartValues(part, min, max);
      if rest.None? || last.None? then None else Some(rest.value + last.value)
  {
    assert (parts + [part])[..|parts|] == parts;
  }

  /** One more item. */
  lemma PartsReadNext(items: seq<Item>, it: Item, min: int, max: int)
    requires FieldRange(min, max) && ItemOk(it, min, max) && PartsValues(Texts(items), min, max).Some?
    ensures PartsValues(Texts(items + [it]), min, max).Some?
    ensures ItemFits(it, min) ==> PartsValues(Texts(items + [it]), min, max) == Some(PartsValues(Texts(items), min, max).value + Denotes(it, min, max))
  {
    assert Texts(items + [it]) == Texts(items) + [ItemText(it)];
    PartsSnoc(Texts(items), ItemText(it), min, max);
    ItemReads(it, min, max);
  }

  lemma {:induction false} PartsRead(items: seq<Item>, min: int, max: int)
    requires forall it :: it in items ==> ItemOk(it, min, max)
    requires FieldRange(min, max)
    ensures PartsValues(Texts(items), min, max).Some?
    ensures AllFit(items, min) ==> PartsValues(Texts(items), min, max) == Some(AllDenote(items, min, max))
    decreases |items|
  {
    if items != [] {
      var init, it := items[..|items| - 1], items[|items| - 1];
      assert items == init + [it] && ItemOk(it, min, max);
      PartsRead(init, min, max);
      PartsReadNext(init, it, min, max);
    }
  }

  lemma {:induction false} AllDenoteOk(items: seq<Item>, min: int, max: int)
    requires forall it :: it in items ==> ItemOk(it, min, max)
    ensures AllDenote(items, min, max) <= Full(min, max)
    decreases |items|
  {
    if items != [] {
      var it := items[|items| - 1];
      assert ItemOk(it, min, max);
      var step := if it.step.Some? then it.step.value else 1;
      AllDenoteOk(items[..|items| - 1], min, max);
      match it.range {
        case All => StepsBounds(min, max, step);
        case FromTo(lo, hi) => StepsBounds(lo, hi, step);
        case One(v) => StepsBounds(v, v, step);
      }
    }
  }

  function FieldText(items: seq<Item>): (s: string) {
    Join(Texts(items), ',')
  }

  lemma {:induction false} JoinWords(words: seq<string>, sep: char)
    requires words != [] && !IsSpace(sep)
    requires forall w :: w in words ==> Word(w)
    ensures Word(Join(words, sep))
    decreases |words|
  {
    assert Word(words[0]);
    if |words| > 1 { JoinWords(words[1..], sep); }
  }

  lemma TextsFit(items: seq<Item>, min: int, max: int)
    requires forall it :: it in items ==> ItemOk(it, min, max)
    requires FieldRange(min, max)
    ensures forall t :: t in Texts(items) ==> ',' !in t && Word(t)
    ensures (forall t :: t in Texts(items) ==> PartFits(t, min, max)) <==> AllFit(items, min)
  {
    var texts := Texts(items);
    forall i | 0 <= i < |items|
      ensures texts[i] == ItemText(items[i]) && ',' !in texts[i] && Word(texts[i]) && (PartFits(texts[i], min, max) <==> ItemFits(items[i], min))
    {
      ItemReads(items[i], min, max);
    }
  }

  /** A field written as a list of items is accepted, and reads back as the union of what
      they denote if and only if no step wraps. */
  lemma FieldReadsIff(items: seq<Item>, min: int, max: int)
    requires items != [] && forall it :: it in items ==> ItemOk(it, min, max)
    ensures FieldRange(min, max) && Word(FieldText(items)) && FieldValues(FieldText(items), min, max).Some?
    ensures FieldValues(FieldText(items), min, max) == Some(AllDenote(items, min, max)) <==> AllFit(items, min)
  {
    assert ItemOk(items[0], min, max);
    var texts := Texts(items);
    TextsFit(items, min, max);
    SplitJoin(texts, ',');
    JoinWords(texts, ',');
    PartsRead(items, min, max);
    if FieldText(items) == "*" {
      StarReads(texts, min, max);
    }
    assert FieldValues(FieldText(items), min, max) == PartsValues(texts, min, max);
    PartsOkIff(texts, min, max);
    AllDenoteOk(items, min, max);
  }

  /** The short cut for a field of one star agrees with the general loop. */
  lemma StarReads(texts: seq<string>, min: int, max: int)
    requires FieldRange(min, max) && Join(texts, ',') == "*" && Split("*", ',') == texts
    ensures PartsValues(texts, min, max) == Some(Full(min, max))
  {
    SplitPlain("*", ',');
    ItemReads(Item(All, None), min, max);
    assert texts[..0] == [];
    StepsOfOne(min, max);
    assert {} + Full(min, max) == Full(min, max);
  }

  lemma {:induction false} FieldsWord(word: string, w: string, s: string)
    requires forall c :: c in w ==> !IsSpace(c)
    ensures Fields(word, w + s) == Fields(word + w, s)
    decreases |w|
  {
    if w == "" {
      assert w + s == s && word + w == word;
    } else {
      assert (w + s)[0] == w[0] && (w + s)[1..] == w[1..] + s;
      FieldsWord(word + [w[0]], w[1..], s);
      assert word + [w[0]] + w[1..] == word + w;
    }
  }

  lemma {:induction false} FieldsJoin(words: seq<string>)
    requires forall w :: w in words ==> Word(w)
    ensures Fields("", Join(words, ' ')) == words
    decreases |words|
  {
    if words != [] {
      var w := words[0];
      assert Word(w);
      if |words| == 1 {
        FieldsWord("", w, "");
        assert w + "" == w && "" + w == w;
        assert words == [w];
      } else {
        var rest := Join(words[1..], ' ');
        FieldsWord("", w, " " + rest);
        assert w + [' '] + rest == w + (" " + rest) && "" + w == w;
        assert (" " + rest)[0] == ' ' && (" " + rest)[1..] == rest;
        FieldsJoin(words[1..]);
        assert words == [w] + words[1..];
      }
    }
  }

  /** A whole expression of well-formed items is accepted, and reads back as the schedule
      they denote if and only if no step wraps. */
  lemma ParseReadsIff(mi: seq<Item>, ho: seq<Item>, da: seq<Item>, mo: seq<Item>, we: seq<Item>)
    requires mi != [] && ho != [] && da != [] && mo != [] && we != []
    requires forall it :: it in mi ==> ItemOk(it, 0, 59)
    requires forall it :: it in ho ==> ItemOk(it, 0, 23)
    requires forall it :: it in da ==> ItemOk(it, 1, 31)
    requires forall it :: it in mo ==> ItemOk(it, 1, 12)
    requires forall it :: it in we ==> ItemOk(it, 0, 6)
    ensures var r := ParseSchedule(Join([FieldText(mi), FieldText(ho), FieldText(da), FieldText(mo), FieldText(we)], ' '));
      && r.Some?
      && (r == Some(Schedule(AllDenote(mi, 0, 59), AllDenote(ho, 0, 23), AllDenote(da, 1, 31), AllDenote(mo, 1, 12), AllDenote(we, 0, 6),
                             FieldText(da) != "*", FieldText(we) != "*"))
          <==> AllFit(mi, 0) && AllFit(ho, 0) && AllFit(da, 1) && AllFit(mo, 1) && AllFit(we, 0))
  {
    var f := [FieldText(mi), FieldText(ho), FieldText(da), FieldText(mo), FieldText(we)];
    FieldReadsIff(mi, 0, 59);
    FieldReadsIff(ho, 0, 23);
    FieldReadsIff(da, 1, 31);
    FieldReadsIff(mo, 1, 12);
    FieldReadsIff(we, 0, 6);
    FiveFields(f, Join(f, ' '));
  }

  /** The minute field 59/9223372036854775807 denotes minute 59 and is read as every odd minute. */
  lemma WrappedMinute()
    ensures var it := Item(One(59), Some(INT64_LIMIT - 1));
      && ItemOk(it, 0, 59) && Denotes(it, 0, 59) == {59}
      && FieldValues(FieldText([it]), 0, 59) == Some(Stepped(59, 59, INT64_LIMIT - 1))
    ensures forall m :: 0 <= m <= 59 ==> (m in Stepped(59, 59, INT64_LIMIT - 1) <==> m % 2 == 1)
  {
    OddMinutes();
    var it := Item(One(59), Some(INT64_LIMIT - 1));
    assert Steps(59 + (INT64_LIMIT - 1), 59, INT64_LIMIT - 1) == {};
    OneItem(it, 0, 59);
  }

  lemma OddMinutes()
    ensures forall m :: 0 <= m <= 59 ==> (m in Stepped(59, 59, INT64_LIMIT - 1) <==> m % 2 == 1)
  {
    forall m | 0 <= m <= 59 ensures m in Stepped(59, 59, INT64_LIMIT - 1) <==> m % 2 == 1 {
      WrappedValues(59, 59, INT64_LIMIT - 1, m);
      LadderOfTwo(59, m);
    }
  }

  /** A field of one item with a step is what the step loop sets. */
  lemma OneItem(it: Item, min: int, max: int)
    requires ItemOk(it, min, max) && it.step.Some? && it.range.One?
    ensures FieldValues(FieldText([it]), min, max) == Some(Stepped(it.range.v, it.range.v, it.step.value))
  {
    ItemReads(it, min, max);
    var t := ItemText(it);
    RangeReads(it.range, min, max);
    RangeWord(it.range);
    CutAt(RangeText(it.range), '/', Digits(it.step.value));
    AtoiDigits(it.step.value);
    assert PartValues(t, min, max) == Some(Stepped(it.range.v, it.range.v, it.step.value));
    SplitPlain(t, ',');
    var ts := [t];
    assert Texts([it]) == ts && ts[..0] == [];
    assert t[|RangeText(it.range)|] == '/';
    var v := Stepped(it.range.v, it.range.v, it.step.value);
    assert PartsValues(ts, min, max) == Some({} + v);
    assert {} + v == v;
    assert FieldText([it]) == t;
  }

  /** The code points of the white space of Unicode. */
  lemma SpaceIff(c: char)
    ensures IsSpace(c) <==> c as int in {9, 10, 11, 12, 13, 32, 0x85, 0xa0, 0x1680, 0x2000, 0x2001, 0x2002, 0x2003, 0x2004, 0x2005, 0x2006,
                                         0x2007, 0x2008, 0x2009, 0x200a, 0x2028, 0x2029, 0x202f, 0x205f, 0x3000}
  {
  }

  /** White space of any kind, one or more. */
  predicate Gap(g: string) {
    g != "" && Blank(g)
  }

  predicate Blank(g: string) {
    forall i :: 0 <= i < |g| ==> IsSpace(g[i])
  }

  lemma {:induction false} FieldsGap(word: string, g: string, s: string)
    requires Blank(g)
    ensures Fields(word, g + s) == if g == "" then Fields(word, s) else (if word == "" then [] else [word]) + Fields("", s)
    decreases |g|
  {
    if g == "" {
      assert g + s == s;
    } else {
      assert (g + s)[0] == g[0] && (g + s)[1..] == g[1..] + s;
      FieldsGap("", g[1..], s);
    }
  }

  /** Words with gaps of any kind after each of them. */
  function Spaced(words: seq<string>, gaps: seq<string>): (s: string)
    requires |gaps| == |words|
  {
    if words == [] then "" else words[0] + gaps[0] + Spaced(words[1..], gaps[1..])
  }

  /** Fields are told apart by gaps of any kind and length. */
  lemma {:induction false} FieldsSpaced(lead: string, words: seq<string>, gaps: seq<string>)
    requires |gaps| == |words| && (forall w :: w in words ==> Word(w)) && (forall g :: g in gaps ==> Gap(g))
    requires lead == "" || Gap(lead)
    ensures Fields("", lead + Spaced(words, gaps)) == words
    decreases |words|
  {
    FieldsGap("", lead, Spaced(words, gaps));
    if words != [] {
      var w, g, rest := words[0], gaps[0], Spaced(words[1..], gaps[1..]);
      assert Word(w) && Gap(g);
      FieldsWord("", w, g + rest);
      assert w + (g + rest) == Spaced(words, gaps) && "" + w == w;
      FieldsGap(w, g, rest);
      FieldsSpaced("", words[1..], gaps[1..]);
      assert "" + rest == rest;
      assert words == [w] + words[1..];
    }
  }

  /** How an expression is spaced does not matter. */
  lemma SpacingIrrelevant(lead: string, words: seq<string>, gaps: seq<string>)
    requires |gaps| == |words| && (forall w :: w in words ==> Word(w)) && (forall g :: g in gaps ==> Gap(g))
    requires lead == "" || Gap(lead)
    ensures ParseSchedule(lead + Spaced(words, gaps)) == ParseSchedule(Join(words, ' '))
  {
    FieldsSpaced(lead, words, gaps);
    FieldsJoin(words);
  }

  /** Any other number of fields than five is rejected. */
  lemma WrongCountRejected(lead: string, words: seq<string>, gaps: seq<string>)
    requires |gaps| == |words| != 5 && (forall w :: w in words ==> Word(w)) && (forall g :: g in gaps ==> Gap(g))
    requires lead == "" || Gap(lead)
    ensures ParseSchedule(lead + Spaced(words, gaps)).None?
  {
    FieldsSpaced(lead, words, gaps);
  }

  lemma FiveFields(f: seq<string>, expr: string)
    requires |f| == 5 && expr == Join(f, ' ')
    requires Word(f[0]) && Word(f[1]) && Word(f[2]) && Word(f[3]) && Word(f[4])
    ensures Fields("", expr) == f
  {
    FieldsJoin(f);
  }
}
