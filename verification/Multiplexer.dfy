/** The request/response multiplexer of client/client.go:192-319: one reader, many
    callers, timeouts and reader death, as interleaved steps over shared state. */
module Multiplexer {
  import opened Text

  // ----- ids and their rendering

  /** The id of a response line as decoded: a whole number, a string, none, or
      anything else with the text it prints as. */
  datatype JsonId = Absent | Whole(n: int) | Quoted(s: string) | Unusual(text: string)
  datatype Line = Line(id: JsonId, body: string)

  function StripZeros(s: string): (r: string)
    ensures r <= s
  {
    if s != "" && s[|s| - 1] == '0' then StripZeros(s[..|s| - 1]) else s
  }

  /** A decoded number printed with %v: plain digits below a million, and from there
      on a mantissa with an exponent. */
  function RenderFloat(n: nat): (s: string) {
    var d := Digits(n);
    if n < 1_000_000 then d
    else
      var frac := StripZeros(d[1..]);
      d[..1] + (if frac == "" then "" else "." + frac) + "e+" + (if |d| - 1 < 10 then "0" else "") + Digits(|d| - 1)
  }

  function Rendered(id: JsonId): (s: string) {
    match id
    case Absent => "<nil>"
    case Whole(n) => if n < 0 then "-" + RenderFloat(-n) else RenderFloat(n)
    case Quoted(s) => s
    case Unusual(t) => t
  }

  /** The key a request id is stored under. */
  function Key(id: nat): (s: string) {
    Digits(id)
  }

  lemma DigitsInjective(a: nat, b: nat)
    requires Digits(a) == Digits(b)
    ensures a == b
  {
    DigitsRoundTrip(a);
    DigitsRoundTrip(b);
  }

  lemma LargeHasExponent(n: nat)
    requires n >= 1_000_000
    ensures 'e' in RenderFloat(n)
  {
  }

  function Zeros(n: nat): (s: string) {
    seq(n, _ => '0')
  }

  /** What is stripped are zeros, and all of them at the end. */
  lemma {:induction false} StripMeaning(s: string)
    ensures |StripZeros(s)| <= |s| && s == StripZeros(s) + Zeros(|s| - |StripZeros(s)|)
    ensures StripZeros(s) != "" ==> StripZeros(s)[|StripZeros(s)| - 1] != '0'
  {
    if s != "" && s[|s| - 1] == '0' {
      var t := s[..|s| - 1];
      StripMeaning(t);
      assert s == t + "0";
      assert Zeros(|t| - |StripZeros(t)|) + "0" == Zeros(|s| - |StripZeros(t)|);
    } else {
      assert s + Zeros(0) == s;
    }
  }

  /** From a million on the mantissa is the digits of the number with the `k` trailing zeros left out,
      a point after the first, and the exponent, in at least two digits, counts the digits after it. */
  lemma RenderMeaning(n: nat, first: string, frac: string, k: nat)
    requires n >= 1_000_000 && |first| == 1 && Digits(n) == first + (frac + Zeros(k)) && (frac != "" ==> frac[|frac| - 1] != '0')
    ensures var e := |frac| + k;
      RenderFloat(n) == first + (if frac == "" then "" else "." + frac) + "e+" + (if e <= 9 then "0" else "") + Digits(e)
  {
    var d := Digits(n);
    StripAll(frac, k);
    HeadTail(d, first, frac + Zeros(k));
  }

  lemma HeadTail(d: string, first: string, rest: string)
    requires |first| == 1 && d == first + rest
    ensures d[..1] == first && d[1..] == rest && |d| - 1 == |rest|
  {
  }

  lemma {:induction false} StripAll(frac: string, k: nat)
    requires frac != "" ==> frac[|frac| - 1] != '0'
    ensures StripZeros(frac + Zeros(k)) == frac
    decreases k
  {
    var s := frac + Zeros(k);
    if k > 0 {
      assert s[..|s| - 1] == frac + Zeros(k - 1);
      StripAll(frac, k - 1);
    } else {
      assert s == frac;
    }
  }

  /** A numeric response id selects a request if and only if it is that number and the
      number is below a million. */
  lemma NumericMatchIff(n: int, id: nat)
    ensures Rendered(Whole(n)) == Key(id) <==> n == id && id < 1_000_000
  {
    assert forall c :: c in Key(id) ==> IsDigit(c);
    if n < 0 {
      assert Rendered(Whole(n))[0] == '-';
      assert Key(id)[0] in Key(id);
    } else if n >= 1_000_000 {
      LargeHasExponent(n);
      assert 'e' !in Key(id);
    } else if Digits(n) == Digits(id) {
      DigitsInjective(n, id);
    }
  }

  // ----- state

  datatype Answer = Got(line: nat) | Dead | Cancelled | NotWritten
  datatype Phase = New | Registered | Waiting | Finishing(answer: Answer) | Returned(answer: Answer)
  datatype Message = Data(line: nat) | Failure
  datatype Reader = Reading | Probing | Sending(id: nat) | Draining | Closed

  /** `lines` is everything read so far; `pending` maps keys to calls; each call has a
      channel with room for one message. */
  datatype State = State(nextID: nat, calls: map<nat, Phase>, chan: map<nat, seq<Message>>, pending: map<string, nat>,
                         lines: seq<Line>, reader: Reader)

  datatype Step =
    | Begin                     // SendRequest takes the next id
    | Register(id: nat)         // makes its channel and stores it
    | Write(id: nat, ok: bool)
    | Receive(id: nat)
    | SeeDone(id: nat)
    | Cancel(id: nat)
    | Deregister(id: nat)       // the deferred delete
    | Read(line: Line)
    | Probe                     // looks the key up
    | Send                      // non-blocking send to the channel found
    | Die                       // the scanner ends
    | Drain(key: string)        // wakes one pending call
    | Close

  predicate Is(s: State, id: nat, p: Phase) {
    id in s.calls && s.calls[id] == p
  }

  function LastKey(s: State): (k: string)
    requires s.lines != []
  {
    Rendered(s.lines[|s.lines| - 1].id)
  }

  predicate Enabled(s: State, step: Step) {
    match step
    case Begin => !s.reader.Closed?
    case Register(id) => Is(s, id, New)
    case Write(id, _) => Is(s, id, Registered)
    case Receive(id) => Is(s, id, Waiting) && id in s.chan && s.chan[id] != []
    case SeeDone(id) => Is(s, id, Waiting) && s.reader.Closed?
    case Cancel(id) => Is(s, id, Waiting)
    case Deregister(id) => id in s.calls && s.calls[id].Finishing?
    case Read(_) => s.reader.Reading?
    case Probe => s.reader.Probing? && s.lines != []
    case Send => s.reader.Sending? && s.lines != []
    case Die => s.reader.Reading?
    case Drain(key) => s.reader.Draining? && key in s.pending
    case Close => s.reader.Draining?
  }

  /** A non-blocking send: lost if the channel is full. */
  function Offer(chan: map<nat, seq<Message>>, id: nat, m: Message): (r: map<nat, seq<Message>>) {
    if id in chan && chan[id] == [] then chan[id := [m]] else chan
  }

  function Next(s: State, step: Step): (t: State)
    requires Enabled(s, step)
  {
    match step
    case Begin => s.(nextID := s.nextID + 1, calls := s.calls[s.nextID + 1 := New])
    case Register(id) => s.(calls := s.calls[id := Registered], chan := s.chan[id := []], pending := s.pending[Key(id) := id])
    case Write(id, ok) => s.(calls := s.calls[id := if ok then Waiting else Finishing(NotWritten)])
    case Receive(id) =>
      var a := match s.chan[id][0] case Data(n) => Got(n) case Failure => Dead;
      s.(calls := s.calls[id := Finishing(a)], chan := s.chan[id := s.chan[id][1..]])
    case SeeDone(id) => s.(calls := s.calls[id := Finishing(Dead)])
    case Cancel(id) => s.(calls := s.calls[id := Finishing(Cancelled)])
    case Deregister(id) => s.(calls := s.calls[id := Returned(s.calls[id].answer)], pending := s.pending - {Key(id)})
    case Read(line) => s.(lines := s.lines + [line], reader := Probing)
    case Probe => s.(reader := if LastKey(s) in s.pending then Sending(s.pending[LastKey(s)]) else Reading)
    case Send => s.(chan := Offer(s.chan, s.reader.id, Data(|s.lines| - 1)), reader := Reading)
    case Die => s.(reader := Draining)
    case Drain(key) => s.(chan := Offer(s.chan, s.pending[key], Failure))
    case Close => s.(reader := Closed)
  }

  function Initial(): (s: State) {
    State(0, map[], map[], map[], [], Reading)
  }

  // ----- safety

  /** Line `n` carries, rendered, the id of call `id`. */
  ghost predicate Own(s: State, id: nat, n: nat) {
    n < |s.lines| && Rendered(s.lines[n].id) == Key(id)
  }

  ghost predicate InChannel(s: State, id: nat, n: nat) {
    id in s.chan && s.chan[id] == [Data(n)]
  }

  ghost predicate Taken(s: State, id: nat, n: nat) {
    id in s.calls && (s.calls[id] == Finishing(Got(n)) || s.calls[id] == Returned(Got(n)))
  }

  ghost predicate CallsOk(s: State) {
    && (forall id :: id in s.calls ==> id <= s.nextID)
    && (forall id :: id in s.chan ==> id in s.calls && !s.calls[id].New? && |s.chan[id]| <= 1)
    && (forall id :: id in s.calls && !s.calls[id].New? ==> id in s.chan)
  }

  ghost predicate Open(s: State, id: nat) {
    id in s.calls && !s.calls[id].New? && !s.calls[id].Returned?
  }

  /** The pending map holds exactly the calls between registration and their delete. */
  ghost predicate PendingOk(s: State) {
    && (forall k :: k in s.pending ==> k == Key(s.pending[k]) && Open(s, s.pending[k]))
    && (forall id :: Open(s, id) ==> Key(id) in s.pending)
  }

  ghost predicate DeliveryOk(s: State) {
    && (forall id, n :: InChannel(s, id, n) || Taken(s, id, n) ==> Own(s, id, n))
    && (s.reader.Sending? ==> s.lines != [] && s.reader.id in s.chan && LastKey(s) == Key(s.reader.id))
    && (s.reader.Probing? ==> s.lines != [])
  }

  /** No line is delivered twice, and the line being dispatched not yet at all. */
  ghost predicate OnceOk(s: State) {
    && (forall id, n :: InChannel(s, id, n) ==> !Taken(s, id, n))
    && (s.reader.Probing? || s.reader.Sending? ==> s.lines != [] && Undelivered(s, |s.lines| - 1))
  }

  ghost predicate Undelivered(s: State, n: nat) {
    forall id :: !InChannel(s, id, n) && !Taken(s, id, n)
  }

  ghost predicate Inv(s: State) {
    CallsOk(s) && PendingOk(s) && DeliveryOk(s) && OnceOk(s)
  }

  lemma KeysDiffer(a: nat, b: nat)
    ensures Key(a) == Key(b) <==> a == b
  {
    if Key(a) == Key(b) { DigitsInjective(a, b); }
  }

  lemma CallStepKeeps(s: State, step: Step)
    requires Inv(s) && Enabled(s, step)
    requires step.Begin? || step.Register? || step.Write? || step.Receive? || step.SeeDone? || step.Cancel? || step.Deregister?
    ensures CallsOk(Next(s, step))
  {
  }

  lemma RegisterPending(s: State, id: nat)
    requires CallsOk(s) && PendingOk(s) && Enabled(s, Register(id))
    ensures PendingOk(Next(s, Register(id)))
  {
    var t := Next(s, Register(id));
    forall x ensures Key(x) == Key(id) <==> x == id { KeysDiffer(x, id); }
    forall x | Open(t, x) ensures Key(x) in t.pending {
      if x != id { assert Open(s, x); }
    }
    forall k | k in t.pending && k != Key(id) ensures k == Key(t.pending[k]) && Open(t, t.pending[k]) {
      assert k in s.pending && Open(s, s.pending[k]);
    }
  }

  lemma DeregisterPending(s: State, id: nat)
    requires CallsOk(s) && PendingOk(s) && Enabled(s, Deregister(id))
    ensures PendingOk(Next(s, Deregister(id)))
  {
    var t := Next(s, Deregister(id));
    forall x ensures Key(x) == Key(id) <==> x == id { KeysDiffer(x, id); }
    forall x | Open(t, x) ensures Key(x) in t.pending {
      if x != id { assert Open(s, x); }
    }
    forall k | k in t.pending ensures k == Key(t.pending[k]) && Open(t, t.pending[k]) {
      assert k in s.pending && Open(s, s.pending[k]);
    }
  }

  lemma CallStepPending(s: State, step: Step)
    requires CallsOk(s) && PendingOk(s) && Enabled(s, step)
    requires step.Begin? || step.Register? || step.Write? || step.Receive? || step.SeeDone? || step.Cancel? || step.Deregister?
    ensures PendingOk(Next(s, step))
  {
    if step.Register? {
      RegisterPending(s, step.id);
    } else if step.Deregister? {
      DeregisterPending(s, step.id);
    } else {
      forall id ensures Open(Next(s, step), id) <==> Open(s, id) {
      }
    }
  }

  lemma ReceiveDelivers(s: State, id: nat)
    requires Inv(s) && Enabled(s, Receive(id))
    ensures DeliveryOk(Next(s, Receive(id))) && OnceOk(Next(s, Receive(id)))
  {
    var t := Next(s, Receive(id));
    forall x, n | InChannel(t, x, n) ensures InChannel(s, x, n) {
    }
    forall x, n | Taken(t, x, n) ensures Taken(s, x, n) || (x == id && InChannel(s, id, n)) {
      if x == id { assert s.chan[id] == [s.chan[id][0]]; }
    }
    assert t.chan[id] == [];
  }

  lemma CallStepDelivers(s: State, step: Step)
    requires Inv(s) && Enabled(s, step)
    requires step.Begin? || step.Register? || step.Write? || step.Receive? || step.SeeDone? || step.Cancel? || step.Deregister?
    ensures DeliveryOk(Next(s, step)) && OnceOk(Next(s, step))
  {
    if step.Receive? {
      ReceiveDelivers(s, step.id);
    } else {
      var t := Next(s, step);
      forall id, n | InChannel(t, id, n) ensures InChannel(s, id, n) {
      }
      forall id, n | Taken(t, id, n) ensures Taken(s, id, n) {
      }
    }
  }

  lemma ReaderStepKeeps(s: State, step: Step)
    requires Inv(s) && Enabled(s, step)
    requires step.Read? || step.Probe? || step.Send? || step.Die? || step.Drain? || step.Close?
    ensures CallsOk(Next(s, step)) && PendingOk(Next(s, step))
  {
  }

  lemma SendDelivers(s: State)
    requires Inv(s) && Enabled(s, Send)
    ensures DeliveryOk(Next(s, Send)) && OnceOk(Next(s, Send))
  {
    var t := Next(s, Send);
    forall id, n | Taken(t, id, n) ensures Taken(s, id, n) {
    }
    forall id, n | InChannel(t, id, n) ensures InChannel(s, id, n) || (id == s.reader.id && n == |s.lines| - 1) {
    }
    forall id, n | Own(s, id, n) ensures Own(t, id, n) {
    }
  }

  lemma ReaderStepDelivers(s: State, step: Step)
    requires Inv(s) && Enabled(s, step)
    requires step.Read? || step.Probe? || step.Send? || step.Die? || step.Drain? || step.Close?
    ensures DeliveryOk(Next(s, step)) && OnceOk(Next(s, step))
  {
    if step.Send? {
      SendDelivers(s);
    } else {
      var t := Next(s, step);
      forall id, n | Taken(t, id, n) ensures Taken(s, id, n) {
      }
      forall id, n | InChannel(t, id, n) ensures InChannel(s, id, n) {
      }
      forall id, n | Own(s, id, n) ensures Own(t, id, n) {
      }
    }
  }

  lemma StepKeeps(s: State, step: Step)
    requires Inv(s) && Enabled(s, step)
    ensures Inv(Next(s, step))
  {
    if step.Read? || step.Probe? || step.Send? || step.Die? || step.Drain? || step.Close? {
      ReaderStepKeeps(s, step);
      ReaderStepDelivers(s, step);
    } else {
      CallStepKeeps(s, step);
      CallStepPending(s, step);
      CallStepDelivers(s, step);
    }
  }

  predicate CanRun(s: State, steps: seq<Step>)
    decreases |steps|
  {
    steps == [] || (Enabled(s, steps[0]) && CanRun(Next(s, steps[0]), steps[1..]))
  }

  function Ran(s: State, steps: seq<Step>): (t: State)
    requires CanRun(s, steps)
    decreases |steps|
  {
    if steps == [] then s else Ran(Next(s, steps[0]), steps[1..])
  }

  lemma {:induction false} RunKeeps(s: State, steps: seq<Step>)
    requires Inv(s) && CanRun(s, steps)
    ensures Inv(Ran(s, steps))
    decreases |steps|
  {
    if steps != [] {
      StepKeeps(s, steps[0]);
      RunKeeps(Next(s, steps[0]), steps[1..]);
    }
  }

  /** In every interleaving: a call only ever gets a line whose rendered id is its own,
      no line is given to two calls, and no channel holds more than one message. */
  lemma NoCrossedResponses(steps: seq<Step>)
    requires CanRun(Initial(), steps)
    ensures var t := Ran(Initial(), steps);
      && (forall id, n :: Taken(t, id, n) ==> Own(t, id, n))
      && (forall a, b, n :: Taken(t, a, n) && Taken(t, b, n) ==> a == b)
      && (forall id :: id in t.chan ==> |t.chan[id]| <= 1)
      && (forall k :: k in t.pending ==> t.pending[k] in t.calls && !t.calls[t.pending[k]].Returned? && k == Key(t.pending[k]))
  {
    RunKeeps(Initial(), steps);
    var t := Ran(Initial(), steps);
    forall a, b, n | Taken(t, a, n) && Taken(t, b, n) ensures a == b {
      assert Own(t, a, n) && Own(t, b, n);
      KeysDiffer(a, b);
    }
  }

  // ----- progress

  /** How far a call is from returning. */
  function Remaining(s: State, id: nat): (n: nat)
    requires id in s.calls
  {
    match s.calls[id]
    case New => 4
    case Registered => 3
    case Waiting => 2
    case Finishing(_) => 1
    case Returned(_) => 0
  }

  /** Once the reader is gone every unfinished call can take a step of its own that
      brings it closer to returning, without waiting for a timeout. */
  lemma DeadReaderReleases(s: State, id: nat) returns (step: Step)
    requires s.reader.Closed? && id in s.calls && !s.calls[id].Returned?
    ensures Enabled(s, step) && !step.Cancel?
    ensures id in Next(s, step).calls && Remaining(Next(s, step), id) < Remaining(s, id)
    ensures Next(s, step).reader.Closed?
  {
    match s.calls[id] {
      case New => step := Register(id);
      case Registered => step := Write(id, true);
      case Waiting => step := SeeDone(id);
      case Finishing(_) => step := Deregister(id);
    }
  }

  /** With the reader gone every step that can still happen brings exactly one call closer
      to returning, so every schedule comes to an end. */
  lemma ClosedStepsProgress(s: State, step: Step) returns (id: nat)
    requires s.reader.Closed? && Enabled(s, step)
    ensures Next(s, step).reader.Closed? && Next(s, step).calls.Keys == s.calls.Keys
    ensures id in s.calls && Remaining(Next(s, step), id) < Remaining(s, id)
    ensures forall x :: x in s.calls && x != id ==> Next(s, step).calls[x] == s.calls[x]
  {
    id := step.id;
    assert Next(s, step).calls.Keys == s.calls.Keys;
  }

  ghost predicate NoTimeout(steps: seq<Step>) {
    forall i :: 0 <= i < |steps| ==> !steps[i].Cancel?
  }

  /** Lets one call run to its return. */
  lemma {:induction false} ReturnOne(s: State, id: nat) returns (steps: seq<Step>)
    requires s.reader.Closed? && id in s.calls
    ensures CanRun(s, steps) && NoTimeout(steps)
    ensures var t := Ran(s, steps);
      && t.reader.Closed? && t.calls.Keys == s.calls.Keys && t.calls[id].Returned?
      && forall x :: x in s.calls && x != id ==> t.calls[x] == s.calls[x]
    decreases Remaining(s, id)
  {
    if s.calls[id].Returned? {
      steps := [];
    } else {
      var step := DeadReaderReleases(s, id);
      var moved := ClosedStepsProgress(s, step);
      var rest := ReturnOne(Next(s, step), id);
      steps := [step] + rest;
      assert steps[1..] == rest;
    }
  }

  lemma {:induction false} RunConcat(s: State, a: seq<Step>, b: seq<Step>)
    requires CanRun(s, a) && CanRun(Ran(s, a), b)
    ensures CanRun(s, a + b) && Ran(s, a + b) == Ran(Ran(s, a), b)
    decreases |a|
  {
    if a == [] {
      assert a + b == b;
    } else {
      assert (a + b)[1..] == a[1..] + b;
      RunConcat(Next(s, a[0]), a[1..], b);
    }
  }

  lemma {:induction false} ReturnAll(s: State, todo: set<nat>) returns (steps: seq<Step>)
    requires s.reader.Closed? && todo <= s.calls.Keys
    requires forall x :: x in s.calls && x !in todo ==> s.calls[x].Returned?
    ensures CanRun(s, steps) && NoTimeout(steps)
    ensures var t := Ran(s, steps); t.calls.Keys == s.calls.Keys && forall x :: x in t.calls ==> t.calls[x].Returned?
    decreases todo
  {
    if todo == {} {
      steps := [];
    } else {
      var id :| id in todo;
      var first := ReturnOne(s, id);
      var rest := ReturnAll(Ran(s, first), todo - {id});
      RunConcat(s, first, rest);
      steps := first + rest;
    }
  }

  /** From every state reached with the reader gone, all calls can return without a single
      timeout, and then nothing is left pending. */
  lemma DeadReaderDrains(before: seq<Step>) returns (after: seq<Step>)
    requires CanRun(Initial(), before) && Ran(Initial(), before).reader.Closed?
    ensures CanRun(Ran(Initial(), before), after) && NoTimeout(after)
    ensures var t := Ran(Ran(Initial(), before), after);
      (forall id :: id in t.calls ==> t.calls[id].Returned?) && t.pending == map[]
  {
    var s := Ran(Initial(), before);
    RunKeeps(Initial(), before);
    after := ReturnAll(s, s.calls.Keys);
    RunKeeps(s, after);
    var t := Ran(s, after);
    assert forall k :: k in t.pending ==> Open(t, t.pending[k]);
    assert t.pending.Keys == {};
  }

  // ----- delivery

  /** The response that echoes a waiting call's own number reaches it if and only if that
      number is below a million; beyond, the line is dropped and the call stays waiting. */
  lemma DeliveryIff(s: State, id: nat, body: string)
    requires Inv(s) && Is(s, id, Waiting) && id in s.chan && s.chan[id] == [] && s.reader.Reading?
    ensures var read := Next(s, Read(Line(Whole(id), body)));
      var probed := Next(read, Probe);
      && (probed.reader == Sending(id) <==> id < 1_000_000)
      && (id < 1_000_000 ==> Next(probed, Send).chan[id] == [Data(|s.lines|)])
      && (id >= 1_000_000 ==> probed == s.(lines := s.lines + [Line(Whole(id), body)]))
  {
    NumericMatchIff(id, id);
    var read := Next(s, Read(Line(Whole(id), body)));
    var k := LastKey(read);
    assert k == Rendered(Whole(id));
    if id >= 1_000_000 && k in s.pending {
      NumericMatchIff(id, s.pending[k]);
    }
    assert Key(id) in s.pending;
    KeysDiffer(id, s.pending[Key(id)]);
  }
}
