/** What a call of the multiplexer returns (client/client.go:229-319): its own response, the death of
    the reader, a timeout or a failed write, each exactly when that is what happened. */
module Responses {
  import opened Text
  import opened Multiplexer

  function AnswerOf(s: State, id: nat): (a: Option<Answer>) {
    if id in s.calls && (s.calls[id].Finishing? || s.calls[id].Returned?) then Some(s.calls[id].answer) else None
  }

  // ----- one step

  /** An answer is final. */
  lemma AnswerStays(s: State, step: Step, id: nat)
    requires CallsOk(s) && Enabled(s, step) && AnswerOf(s, id).Some?
    ensures AnswerOf(Next(s, step), id) == AnswerOf(s, id)
  {
  }

  /** Where an answer comes from: each kind from its own step and no other. */
  lemma AnsweredBy(s: State, step: Step, id: nat)
    requires CallsOk(s) && Enabled(s, step) && AnswerOf(s, id).None?
    ensures var a := AnswerOf(Next(s, step), id);
      && (a == Some(Cancelled) <==> step == Cancel(id))
      && (a == Some(NotWritten) <==> step == Write(id, false))
      && (a == Some(Dead) <==> step == SeeDone(id) || (step == Receive(id) && s.chan[id] == [Failure]))
      && (forall n :: a == Some(Got(n)) <==> step == Receive(id) && InChannel(s, id, n))
  {
    if step == Receive(id) { assert s.chan[id] == [s.chan[id][0]]; }
  }

  /** The first message in a channel stays there until its call takes it. */
  lemma FirstStays(s: State, step: Step, id: nat)
    requires CallsOk(s) && Enabled(s, step) && step != Receive(id) && id in s.chan && s.chan[id] != []
    ensures id in Next(s, step).chan && Next(s, step).chan[id] == s.chan[id]
  {
  }

  // ----- whole runs

  /** Over every run a call ends with a timeout if and only if its own timeout fired. */
  lemma {:induction false} CancelledFrom(s: State, steps: seq<Step>, id: nat)
    requires Inv(s) && CanRun(s, steps)
    ensures AnswerOf(Ran(s, steps), id) == Some(Cancelled) <==>
      AnswerOf(s, id) == Some(Cancelled) || (AnswerOf(s, id).None? && Cancel(id) in steps)
    decreases |steps|
  {
    if steps != [] {
      var t, rest := Next(s, steps[0]), steps[1..];
      StepKeeps(s, steps[0]);
      CancelledFrom(t, rest, id);
      assert steps == [steps[0]] + rest;
      if AnswerOf(s, id).Some? {
        AnswerStays(s, steps[0], id);
      } else {
        AnsweredBy(s, steps[0], id);
        if AnswerOf(t, id).Some? && AnswerOf(t, id) != Some(Cancelled) { NoLater(t, rest, id); }
      }
    }
  }

  /** An answered call takes none of the steps that answer. */
  lemma {:induction false} NoLater(s: State, steps: seq<Step>, id: nat)
    requires Inv(s) && CanRun(s, steps) && AnswerOf(s, id).Some?
    ensures Cancel(id) !in steps && Write(id, false) !in steps && Receive(id) !in steps && SeeDone(id) !in steps
    decreases |steps|
  {
    if steps != [] {
      StepKeeps(s, steps[0]);
      AnswerStays(s, steps[0], id);
      NoLater(Next(s, steps[0]), steps[1..], id);
      assert steps == [steps[0]] + steps[1..];
    }
  }

  lemma {:induction false} NotWrittenFrom(s: State, steps: seq<Step>, id: nat)
    requires Inv(s) && CanRun(s, steps)
    ensures AnswerOf(Ran(s, steps), id) == Some(NotWritten) <==>
      AnswerOf(s, id) == Some(NotWritten) || (AnswerOf(s, id).None? && Write(id, false) in steps)
    decreases |steps|
  {
    if steps != [] {
      var t, rest := Next(s, steps[0]), steps[1..];
      StepKeeps(s, steps[0]);
      NotWrittenFrom(t, rest, id);
      assert steps == [steps[0]] + rest;
      if AnswerOf(s, id).Some? {
        AnswerStays(s, steps[0], id);
      } else {
        AnsweredBy(s, steps[0], id);
        if AnswerOf(t, id).Some? && AnswerOf(t, id) != Some(NotWritten) { NoLater(t, rest, id); }
      }
    }
  }

  /** Some step of the run takes line `n` out of the channel of `id`. */
  ghost predicate Takes(s: State, steps: seq<Step>, id: nat, n: nat)
    requires CanRun(s, steps)
    decreases |steps|
  {
    steps != [] && ((steps[0] == Receive(id) && InChannel(s, id, n)) || Takes(Next(s, steps[0]), steps[1..], id, n))
  }

  lemma {:induction false} TakesReceives(s: State, steps: seq<Step>, id: nat, n: nat)
    requires CanRun(s, steps) && Takes(s, steps, id, n)
    ensures Receive(id) in steps
    decreases |steps|
  {
    if steps[0] != Receive(id) {
      TakesReceives(Next(s, steps[0]), steps[1..], id, n);
      assert steps == [steps[0]] + steps[1..];
    }
  }

  lemma {:induction false} GotFrom(s: State, steps: seq<Step>, id: nat, n: nat)
    requires Inv(s) && CanRun(s, steps)
    ensures AnswerOf(Ran(s, steps), id) == Some(Got(n)) <==>
      AnswerOf(s, id) == Some(Got(n)) || (AnswerOf(s, id).None? && Takes(s, steps, id, n))
    decreases |steps|
  {
    if steps != [] {
      var t, rest := Next(s, steps[0]), steps[1..];
      StepKeeps(s, steps[0]);
      GotFrom(t, rest, id, n);
      if AnswerOf(s, id).Some? {
        AnswerStays(s, steps[0], id);
      } else {
        AnsweredBy(s, steps[0], id);
        if AnswerOf(t, id).Some? {
          NoLater(t, rest, id);
          if Takes(t, rest, id, n) { TakesReceives(t, rest, id, n); }
        }
      }
    }
  }

  predicate Gone(s: State) {
    s.reader.Draining? || s.reader.Closed?
  }

  /** Failures are told only once the reader is gone. */
  ghost predicate DeadOk(s: State) {
    && (forall id :: id in s.calls && AnswerOf(s, id) == Some(Dead) ==> Gone(s))
    && (forall id :: id in s.chan && s.chan[id] == [Failure] ==> Gone(s))
  }

  lemma DeadStep(s: State, step: Step)
    requires Inv(s) && DeadOk(s) && Enabled(s, step)
    ensures DeadOk(Next(s, step)) && (Gone(s) ==> Gone(Next(s, step)))
  {
    var t := Next(s, step);
    forall id | id in t.calls && AnswerOf(t, id) == Some(Dead) ensures Gone(t) {
      if AnswerOf(s, id).Some? { AnswerStays(s, step, id); } else { AnsweredBy(s, step, id); }
    }
  }

  lemma {:induction false} DeadRun(s: State, steps: seq<Step>)
    requires Inv(s) && DeadOk(s) && CanRun(s, steps)
    ensures DeadOk(Ran(s, steps))
    decreases |steps|
  {
    if steps != [] {
      StepKeeps(s, steps[0]);
      DeadStep(s, steps[0]);
      DeadRun(Next(s, steps[0]), steps[1..]);
    }
  }

  /** Over every interleaving a call returns a timeout if and only if its own timeout fired, a failed
      write if and only if its own write failed, line `n` if and only if it took that line from its
      channel, and the reader's death only when the reader is gone. */
  lemma AnswersExplained(steps: seq<Step>, id: nat)
    requires CanRun(Initial(), steps)
    ensures var a := AnswerOf(Ran(Initial(), steps), id);
      && (a == Some(Cancelled) <==> Cancel(id) in steps)
      && (a == Some(NotWritten) <==> Write(id, false) in steps)
      && (forall n :: a == Some(Got(n)) <==> Takes(Initial(), steps, id, n))
      && (a == Some(Dead) ==> Gone(Ran(Initial(), steps)))
  {
    CancelledFrom(Initial(), steps, id);
    NotWrittenFrom(Initial(), steps, id);
    forall n ensures AnswerOf(Ran(Initial(), steps), id) == Some(Got(n)) <==> Takes(Initial(), steps, id, n) {
      GotFrom(Initial(), steps, id, n);
    }
    DeadRun(Initial(), steps);
  }

  // ----- the way of a response

  /** The steps can be taken from `s` and lead to `t`. */
  ghost predicate Leads(s: State, steps: seq<Step>, t: State) {
    CanRun(s, steps) && Ran(s, steps) == t
  }

  lemma LeadsFirst(s: State, step: Step, t: State, rest: seq<Step>, u: State)
    requires Enabled(s, step) && Next(s, step) == t && Leads(t, rest, u)
    ensures Leads(s, [step] + rest, u)
  {
    assert ([step] + rest)[1..] == rest;
  }

  lemma LeadsOne(s: State, step: Step, t: State)
    requires Enabled(s, step) && Next(s, step) == t
    ensures Leads(s, [step], t)
  {
    assert Leads(t, [], t);
    LeadsFirst(s, step, t, [], t);
  }

  lemma LeadsThen(s: State, a: seq<Step>, t: State, b: seq<Step>, u: State)
    requires Leads(s, a, t) && Leads(t, b, u)
    ensures Leads(s, a + b, u)
  {
    RunConcat(s, a, b);
  }

  /** Taking the only message empties the channel again. */
  lemma ReceiveEmpties(s: State, t: State, id: nat, m: Message)
    requires Is(t, id, Waiting) && id in s.chan && s.chan[id] == [] && t.chan == s.chan[id := [m]]
    ensures Enabled(t, Receive(id))
    ensures Next(t, Receive(id)) ==
      t.(calls := t.calls[id := Finishing(match m case Data(n) => Got(n) case Failure => Dead)], chan := s.chan)
  {
    assert [m][1..] == [];
    assert t.chan[id := []] == s.chan;
  }

  /** The next number is not pending. */
  lemma NextIsNew(s: State)
    requires Inv(s)
    ensures s.nextID + 1 !in s.calls && Key(s.nextID + 1) !in s.pending
  {
    var id := s.nextID + 1;
    if Key(id) in s.pending { KeysDiffer(s.pending[Key(id)], id); }
  }

  function Begun(s: State): (t: State) {
    var id := s.nextID + 1;
    s.(nextID := id, calls := s.calls[id := Registered], chan := s.chan[id := []], pending := s.pending[Digits(id) := id])
  }

  lemma CallBegins(s: State)
    requires Inv(s) && !s.reader.Closed?
    ensures Leads(s, [Begin, Register(s.nextID + 1)], Begun(s)) && Inv(Begun(s))
  {
    var id := s.nextID + 1;
    var s1 := Next(s, Begin);
    StepKeeps(s, Begin);
    StepKeeps(s1, Register(id));
    assert s1.calls[id := Registered] == s.calls[id := Registered];
    LeadsOne(s1, Register(id), Begun(s));
    LeadsFirst(s, Begin, s1, [Register(id)], Begun(s));
    assert [Begin] + [Register(id)] == [Begin, Register(id)];
  }

  /** As long as the reader is not gone a call can be begun, registered and written; it then waits,
      under the next number, with an empty channel. */
  lemma CallWaits(s: State) returns (t: State)
    requires Inv(s) && !s.reader.Closed?
    ensures var id := s.nextID + 1;
      && Leads(s, [Begin, Register(id), Write(id, true)], t) && Inv(t)
      && t == s.(nextID := id, calls := s.calls[id := Waiting], chan := s.chan[id := []], pending := s.pending[Digits(id) := id])
  {
    var id, b := s.nextID + 1, Begun(s);
    CallBegins(s);
    t := Next(b, Write(id, true));
    StepKeeps(b, Write(id, true));
    assert b.calls[id := Waiting] == s.calls[id := Waiting];
    LeadsOne(b, Write(id, true), t);
    LeadsThen(s, [Begin, Register(id)], b, [Write(id, true)], t);
    assert [Begin, Register(id)] + [Write(id, true)] == [Begin, Register(id), Write(id, true)];
  }

  /** A call whose write fails returns that. */
  lemma WriteFails(s: State)
    requires Inv(s) && !s.reader.Closed?
    ensures var id := s.nextID + 1;
      Leads(s, [Begin, Register(id), Write(id, false), Deregister(id)],
        s.(nextID := id, calls := s.calls[id := Returned(NotWritten)], chan := s.chan[id := []]))
  {
    var id, b := s.nextID + 1, Begun(s);
    CallBegins(s);
    NextIsNew(s);
    var s3 := Next(b, Write(id, false));
    var s4 := Next(s3, Deregister(id));
    assert s4.calls == s.calls[id := Returned(NotWritten)] && s4.pending == s.pending;
    LeadsOne(s3, Deregister(id), s4);
    LeadsFirst(b, Write(id, false), s3, [Deregister(id)], s4);
    LeadsThen(s, [Begin, Register(id)], b, [Write(id, false)] + [Deregister(id)], s4);
    assert [Begin, Register(id)] + ([Write(id, false)] + [Deregister(id)]) == [Begin, Register(id), Write(id, false), Deregister(id)];
  }

  /** A waiting call can time out at any moment, and returns that. */
  lemma TimesOut(s: State, id: nat)
    requires Inv(s) && Is(s, id, Waiting)
    ensures Leads(s, [Cancel(id), Deregister(id)], s.(calls := s.calls[id := Returned(Cancelled)], pending := s.pending - {Key(id)}))
  {
    var s1 := Next(s, Cancel(id));
    var s2 := Next(s1, Deregister(id));
    assert s2.calls == s.calls[id := Returned(Cancelled)];
    LeadsOne(s1, Deregister(id), s2);
    LeadsFirst(s, Cancel(id), s1, [Deregister(id)], s2);
    assert [Cancel(id)] + [Deregister(id)] == [Cancel(id), Deregister(id)];
  }

  /** A reader that ends without waking a waiting call closes the done channel, and the call returns
      the death through that. */
  lemma DoneReturnsDead(s: State, id: nat)
    requires Inv(s) && Is(s, id, Waiting) && s.reader.Reading?
    ensures Leads(s, [Die, Close, SeeDone(id), Deregister(id)],
      s.(calls := s.calls[id := Returned(Dead)], pending := s.pending - {Key(id)}, reader := Closed))
  {
    var s1 := Next(s, Die);
    var s2 := Next(s1, Close);
    var s3 := Next(s2, SeeDone(id));
    var s4 := Next(s3, Deregister(id));
    assert s4.calls == s.calls[id := Returned(Dead)];
    LeadsOne(s3, Deregister(id), s4);
    LeadsFirst(s2, SeeDone(id), s3, [Deregister(id)], s4);
    LeadsFirst(s1, Close, s2, [SeeDone(id)] + [Deregister(id)], s4);
    LeadsFirst(s, Die, s1, [Close] + ([SeeDone(id)] + [Deregister(id)]), s4);
    assert [Die] + ([Close] + ([SeeDone(id)] + [Deregister(id)])) == [Die, Close, SeeDone(id), Deregister(id)];
  }

  /** A line whose rendered id is that of a waiting call: read, looked up, sent and received, it is
      what the call returns, and nothing is left of the call but its answer. */
  lemma ResponseReturned(s: State, id: nat, line: Line)
    requires Inv(s) && Is(s, id, Waiting) && id in s.chan && s.chan[id] == [] && s.reader.Reading? && Rendered(line.id) == Key(id)
    ensures Leads(s, [Read(line), Probe, Send, Receive(id), Deregister(id)],
      s.(calls := s.calls[id := Returned(Got(|s.lines|))], lines := s.lines + [line], pending := s.pending - {Key(id)}))
  {
    var n := |s.lines|;
    var s1 := Next(s, Read(line));
    assert LastKey(s1) == Key(id) && Open(s, id);
    assert s.pending[Key(id)] == id by { KeysDiffer(s.pending[Key(id)], id); }
    var s2 := Next(s1, Probe);
    assert s2.reader == Sending(id);
    var s3 := Next(s2, Send);
    assert s3.chan == s.chan[id := [Data(n)]] && s3.calls == s.calls;
    ReceiveEmpties(s, s3, id, Data(n));
    var s4 := Next(s3, Receive(id));
    var s5 := Next(s4, Deregister(id));
    assert s5.calls == s.calls[id := Returned(Got(n))];
    assert Leads(s5, [], s5);
    LeadsFirst(s4, Deregister(id), s5, [], s5);
    LeadsFirst(s3, Receive(id), s4, [Deregister(id)], s5);
    LeadsFirst(s2, Send, s3, [Receive(id)] + [Deregister(id)], s5);
    LeadsFirst(s1, Probe, s2, [Send] + ([Receive(id)] + [Deregister(id)]), s5);
    LeadsFirst(s, Read(line), s1, [Probe] + ([Send] + ([Receive(id)] + [Deregister(id)])), s5);
    assert [Read(line)] + ([Probe] + ([Send] + ([Receive(id)] + [Deregister(id)]))) == [Read(line), Probe, Send, Receive(id), Deregister(id)];
  }

  /** The response that echoes the number of a waiting call below one million is returned by it. */
  lemma EchoReturned(s: State, id: nat, body: string)
    requires Inv(s) && Is(s, id, Waiting) && id in s.chan && s.chan[id] == [] && s.reader.Reading? && id < 1_000_000
    ensures var steps := [Read(Line(Whole(id), body)), Probe, Send, Receive(id), Deregister(id)];
      && CanRun(s, steps) && Is(Ran(s, steps), id, Returned(Got(|s.lines|)))
      && Ran(s, steps).lines == s.lines + [Line(Whole(id), body)] && Key(id) !in Ran(s, steps).pending
  {
    NumericMatchIff(id, id);
    ResponseReturned(s, id, Line(Whole(id), body));
  }

  /** The whole round trip: from every state in which the reader reads, a new call numbered below one
      million whose response echoes its number returns that response, and leaves nothing pending. */
  lemma RoundTrip(s: State, body: string)
    requires Inv(s) && s.reader.Reading? && s.nextID + 1 < 1_000_000
    ensures var id := s.nextID + 1;
      var line := Line(Whole(id), body);
      Leads(s, [Begin, Register(id), Write(id, true)] + [Read(line), Probe, Send, Receive(id), Deregister(id)],
        s.(nextID := id, calls := s.calls[id := Returned(Got(|s.lines|))], chan := s.chan[id := []], lines := s.lines + [line]))
  {
    var id := s.nextID + 1;
    var line := Line(Whole(id), body);
    var t := CallWaits(s);
    NumericMatchIff(id, id);
    ResponseReturned(t, id, line);
    var u := t.(calls := t.calls[id := Returned(Got(|t.lines|))], lines := t.lines + [line], pending := t.pending - {Key(id)});
    LeadsThen(s, [Begin, Register(id), Write(id, true)], t, [Read(line), Probe, Send, Receive(id), Deregister(id)], u);
    NextIsNew(s);
    assert u.pending == s.pending && u.calls == s.calls[id := Returned(Got(|s.lines|))];
  }

  /** A response may also carry the number as a string, of any size. */
  lemma QuotedReturned(s: State, id: nat, body: string)
    requires Inv(s) && Is(s, id, Waiting) && id in s.chan && s.chan[id] == [] && s.reader.Reading?
    ensures Leads(s, [Read(Line(Quoted(Digits(id)), body)), Probe, Send, Receive(id), Deregister(id)],
      s.(calls := s.calls[id := Returned(Got(|s.lines|))], lines := s.lines + [Line(Quoted(Digits(id)), body)], pending := s.pending - {Digits(id)}))
  {
    ResponseReturned(s, id, Line(Quoted(Digits(id)), body));
  }

  /** A line without an id, such as a notification, is dropped. */
  lemma NoIdDropped(s: State, body: string)
    requires Inv(s) && s.reader.Reading?
    ensures Next(Next(s, Read(Line(Absent, body))), Probe) == s.(lines := s.lines + [Line(Absent, body)])
  {
    var read := Next(s, Read(Line(Absent, body)));
    var k := LastKey(read);
    assert k[0] == '<';
    if k in s.pending { assert Digits(s.pending[k])[0] in Digits(s.pending[k]); }
  }

  /** When the reader ends and wakes a waiting call, the call returns the death, before the done
      channel is closed. */
  lemma WokenReturnsDead(s: State, id: nat)
    requires Inv(s) && Is(s, id, Waiting) && id in s.chan && s.chan[id] == [] && s.reader.Reading?
    ensures Leads(s, [Die, Drain(Key(id)), Receive(id), Deregister(id)],
      s.(calls := s.calls[id := Returned(Dead)], pending := s.pending - {Key(id)}, reader := Draining))
  {
    assert Open(s, id);
    assert s.pending[Key(id)] == id by { KeysDiffer(s.pending[Key(id)], id); }
    var s0 := Next(s, Die);
    var s1 := Next(s0, Drain(Key(id)));
    assert s1.chan == s.chan[id := [Failure]];
    ReceiveEmpties(s, s1, id, Failure);
    var s2 := Next(s1, Receive(id));
    var s3 := Next(s2, Deregister(id));
    assert s3.calls == s.calls[id := Returned(Dead)];
    assert Leads(s3, [], s3);
    LeadsFirst(s2, Deregister(id), s3, [], s3);
    LeadsFirst(s1, Receive(id), s2, [Deregister(id)], s3);
    LeadsFirst(s0, Drain(Key(id)), s1, [Receive(id)] + [Deregister(id)], s3);
    LeadsFirst(s, Die, s0, [Drain(Key(id))] + ([Receive(id)] + [Deregister(id)]), s3);
    assert [Die] + ([Drain(Key(id))] + ([Receive(id)] + [Deregister(id)])) == [Die, Drain(Key(id)), Receive(id), Deregister(id)];
  }

  /** After a timeout a late response is dropped: it changes no call and no channel. */
  lemma LateDropped(s: State, id: nat, line: Line)
    requires Inv(s) && id in s.calls && s.calls[id].Returned? && s.reader.Reading? && Rendered(line.id) == Key(id)
    ensures Next(Next(s, Read(line)), Probe) == s.(lines := s.lines + [line])
  {
    var read := Next(s, Read(line));
    assert LastKey(read) == Key(id);
    if Key(id) in s.pending { KeysDiffer(s.pending[Key(id)], id); }
  }
}
