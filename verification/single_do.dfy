/** common/singledo: one call in flight at a time and a result kept for a while. Every interleaving of
    any number of Do calls, of Reset and of a clock that never goes back is a run of the steps below. */
module SingleDo {
  import opened Options

  type Val = int
  type Err = Option<int>

  datatype Outcome = Outcome(val: Val, err: Err)

  /** An execution of `fn`: when the Do that runs it read the clock, and what came of it. */
  datatype Call = Call(start: nat, outcome: Option<Outcome>)

  /** How far one Do has come. Calls are referred to by number. The cached result is read after the
      mutex has been released, its value and its error one after the other. */
  datatype Do =
    | Idle
    | ReadingVal(entered: nat)
    | ReadingErr(entered: nat, valOf: nat)
    | Waiting(entered: nat, call: nat)
    | Running(call: nat)
    | Finishing(call: nat)
    | Returned(val: Val, err: Err, shared: bool, how: Source)
  {
    predicate Executes(c: nat) { (Running? || Finishing?) && call == c }
  }

  /** Where a returned pair comes from. */
  datatype Source =
    | Own(call: nat)
    | Joined(call: nat)
    | Cached(entered: nat, valOf: nat, errOf: nat)

  /** `last` is None for the zero time, `result` the call whose result is kept. */
  datatype State = State(now: nat, last: Option<nat>, call: Option<nat>, result: Option<nat>, calls: seq<Call>, dos: seq<Do>)

  datatype Step =
    | Tick(to: nat)
    | Enter(p: nat) // the first critical section
    | ReadVal(p: nat)
    | ReadErr(p: nat)
    | Wake(p: nat) // wg.Wait returns
    | FnReturns(p: nat, outcome: Outcome) // fn is over and wg.Done called
    | Finish(p: nat) // the second critical section
    | Reset

  predicate Keeps(wait: int, s: State) { s.last.Some? && s.now < s.last.value + wait }

  predicate Done(s: State, c: nat) { c < |s.calls| && s.calls[c].outcome.Some? }

  predicate Enabled(s: State, step: Step) {
    if step.Tick? then step.to >= s.now
    else if step.Reset? then true
    else
      step.p < |s.dos|
      && var d := s.dos[step.p];
         if step.Enter? then d.Idle?
         else if step.ReadVal? then d.ReadingVal? && s.result.Some? && Done(s, s.result.value)
         else if step.ReadErr? then d.ReadingErr? && s.result.Some? && Done(s, s.result.value) && Done(s, d.valOf)
         else if step.Wake? then d.Waiting? && Done(s, d.call)
         else if step.FnReturns? then d.Running? && d.call < |s.calls|
         else d.Finishing? && Done(s, d.call)
  }

  function Set(s: State, p: nat, d: Do): State
    requires p < |s.dos|
  {
    s.(dos := s.dos[p := d])
  }

  function After(wait: int, s: State, step: Step): State
    requires Enabled(s, step)
  {
    match step
    case Tick(to) => s.(now := to)
    case Reset => s.(last := None)
    case Enter(p) =>
      if Keeps(wait, s) then Set(s, p, ReadingVal(s.now))
      else if s.call.Some? then Set(s, p, Waiting(s.now, s.call.value))
      else Set(s, p, Running(|s.calls|)).(call := Some(|s.calls|), calls := s.calls + [Call(s.now, None)])
    case ReadVal(p) => Set(s, p, ReadingErr(s.dos[p].entered, s.result.value))
    case ReadErr(p) =>
      var d := s.dos[p];
      Set(s, p, Returned(s.calls[d.valOf].outcome.value.val, s.calls[s.result.value].outcome.value.err, true,
                         Cached(d.entered, d.valOf, s.result.value)))
    case Wake(p) =>
      var o := s.calls[s.dos[p].call].outcome.value;
      Set(s, p, Returned(o.val, o.err, true, Joined(s.dos[p].call)))
    case FnReturns(p, o) =>
      var c := s.dos[p].call;
      Set(s, p, Finishing(c)).(calls := s.calls[c := s.calls[c].(outcome := Some(o))])
    case Finish(p) =>
      var c := s.dos[p].call;
      var o := s.calls[c].outcome.value;
      Set(s, p, Returned(o.val, o.err, false, Own(c))).(call := None, result := Some(c), last := Some(s.calls[c].start))
  }

  // ---------- The invariant ----------

  /** A call recent enough for whoever entered at that time. */
  predicate FreshFor(wait: int, s: State, c: nat, entered: nat) {
    Done(s, c) && s.calls[c].start + wait > entered
  }

  predicate DoInv(wait: int, s: State, d: Do) {
    match d
    case Idle => true
    case ReadingVal(entered) => CachedInv(wait, s, entered)
    case ReadingErr(entered, valOf) => CachedInv(wait, s, entered) && FreshFor(wait, s, valOf, entered)
    case Waiting(entered, c) => c < |s.calls| && (s.call == Some(c) || Done(s, c))
    case Running(c) => s.call == Some(c) && c < |s.calls| && s.calls[c].outcome == None
    case Finishing(c) => s.call == Some(c) && Done(s, c)
    case Returned(val, err, shared, how) => Explained(wait, s, d)
  }

  /** The kept result is fresh for this reader, and what could replace it was started later. */
  predicate CachedInv(wait: int, s: State, entered: nat) {
    wait > 0 && entered <= s.now && s.result.Some? && FreshFor(wait, s, s.result.value, entered)
    && (s.call.Some? ==> s.call.value < |s.calls| && entered <= s.calls[s.call.value].start)
  }

  /** What a Do has returned is the pair of one call, its own or the one it joined, or else a value and
      an error of calls that are fresh for it. */
  predicate Explained(wait: int, s: State, d: Do)
    requires d.Returned?
  {
    if d.how.Cached? then
      FreshFor(wait, s, d.how.valOf, d.how.entered) && FreshFor(wait, s, d.how.errOf, d.how.entered)
      && d.val == s.calls[d.how.valOf].outcome.value.val && d.err == s.calls[d.how.errOf].outcome.value.err && d.shared
    else
      Done(s, d.how.call) && Outcome(d.val, d.err) == s.calls[d.how.call].outcome.value && d.shared == d.how.Joined?
  }

  predicate Clocked(s: State) {
    forall c :: 0 <= c < |s.calls| ==> s.calls[c].start <= s.now
  }

  /** The fields under the mutex. */
  predicate SharedInv(wait: int, s: State) {
    && (s.result.Some? ==> Done(s, s.result.value))
    && (s.last.Some? ==> s.result.Some? && s.last.value == s.calls[s.result.value].start)
    && (s.call.Some? ==> s.call.value < |s.calls| && (s.last.Some? ==> s.last.value + wait <= s.calls[s.call.value].start))
  }

  /** A call in flight is executed by exactly one Do. */
  predicate OneExecutes(s: State) {
    && (s.call.Some? ==> exists p :: 0 <= p < |s.dos| && s.dos[p].Executes(s.call.value))
    && (forall p, q :: 0 <= p < q < |s.dos| && (s.dos[p].Running? || s.dos[p].Finishing?) ==>
          !(s.dos[q].Running? || s.dos[q].Finishing?))
  }

  predicate Inv(wait: int, s: State) {
    Clocked(s) && SharedInv(wait, s) && OneExecutes(s) && forall p :: 0 <= p < |s.dos| ==> DoInv(wait, s, s.dos[p])
  }

  // ---------- Every step keeps it ----------

  /** Calls are only added and completed, and the clock does not go back. */
  predicate Grows(s: State, t: State) {
    s.now <= t.now && |s.calls| <= |t.calls|
    && forall c :: 0 <= c < |s.calls| ==>
         t.calls[c].start == s.calls[c].start && (s.calls[c].outcome.Some? ==> t.calls[c].outcome == s.calls[c].outcome)
  }

  lemma StepGrows(wait: int, s: State, step: Step)
    requires Inv(wait, s) && Enabled(s, step)
    ensures Grows(s, After(wait, s, step))
  {
    if step.FnReturns? {
      assert DoInv(wait, s, s.dos[step.p]);
    }
  }

  /** A Do that does not move keeps its part when the calls grow, unless what it relies on is replaced. */
  lemma DoStays(wait: int, s: State, t: State, d: Do)
    requires DoInv(wait, s, d) && Grows(s, t)
    requires t.call == s.call && t.result == s.result
    requires d.Running? ==> t.calls[d.call].outcome == None
    ensures DoInv(wait, t, d)
  {
  }

  /** The steps that move one Do and touch neither calls nor the kept result. */
  lemma LightStepKeepsInv(wait: int, s: State, step: Step)
    requires Inv(wait, s) && Enabled(s, step)
    requires step.Tick? || step.Reset? || step.ReadVal? || step.ReadErr? || step.Wake?
             || (step.Enter? && (Keeps(wait, s) || s.call.Some?))
    ensures Inv(wait, After(wait, s, step))
  {
    var t := After(wait, s, step);
    if step.Tick? || step.Reset? {
      forall q | 0 <= q < |t.dos| ensures DoInv(wait, t, t.dos[q]) { DoStays(wait, s, t, s.dos[q]); }
      OneExecutesStays(s, t);
    } else {
      LightMove(wait, s, step);
      forall q | 0 <= q < |t.dos| ensures DoInv(wait, t, t.dos[q]) {
        if q != step.p { DoStays(wait, s, t, s.dos[q]); }
      }
      OneExecutesStays(s, t);
    }
  }

  lemma LightMove(wait: int, s: State, step: Step)
    requires Inv(wait, s) && Enabled(s, step)
    requires step.ReadVal? || step.ReadErr? || step.Wake? || (step.Enter? && (Keeps(wait, s) || s.call.Some?))
    ensures DoInv(wait, After(wait, s, step), After(wait, s, step).dos[step.p])
    ensures !s.dos[step.p].Running? && !s.dos[step.p].Finishing?
  {
    assert DoInv(wait, s, s.dos[step.p]);
  }

  /** Who executes the call in flight does not change when no executing Do moves. */
  lemma OneExecutesStays(s: State, t: State)
    requires OneExecutes(s) && |t.dos| == |s.dos| && t.call == s.call
    requires forall p :: 0 <= p < |s.dos| ==>
               if s.dos[p].Running? || s.dos[p].Finishing? then t.dos[p] == s.dos[p] else !t.dos[p].Running? && !t.dos[p].Finishing?
    ensures OneExecutes(t)
  {
    if s.call.Some? {
      var p :| 0 <= p < |s.dos| && s.dos[p].Executes(s.call.value);
      assert t.dos[p].Executes(t.call.value);
    }
  }

  /** Nobody executes anything when no call is in flight. */
  lemma StartKeepsInv(wait: int, s: State, step: Step)
    requires Inv(wait, s) && Enabled(s, step) && step.Enter? && !Keeps(wait, s) && s.call.None?
    ensures Inv(wait, After(wait, s, step))
  {
    var t := After(wait, s, step);
    forall q | 0 <= q < |t.dos| && q != step.p
      ensures DoInv(wait, t, t.dos[q]) && !t.dos[q].Running? && !t.dos[q].Finishing?
    {
      assert DoInv(wait, s, s.dos[q]);
    }
    assert t.dos[step.p].Executes(t.call.value);
  }

  lemma FnReturnsKeepsInv(wait: int, s: State, step: Step)
    requires Inv(wait, s) && Enabled(s, step) && step.FnReturns?
    ensures Inv(wait, After(wait, s, step))
  {
    var t := After(wait, s, step);
    StepGrows(wait, s, step);
    assert DoInv(wait, s, s.dos[step.p]);
    forall q | 0 <= q < |t.dos| && q != step.p
      ensures DoInv(wait, t, t.dos[q]) && !t.dos[q].Running? && !t.dos[q].Finishing?
    {
      assert q < step.p || step.p < q;
      DoStays(wait, s, t, s.dos[q]);
    }
    assert t.dos[step.p].Executes(t.call.value);
  }

  lemma FinishKeepsInv(wait: int, s: State, step: Step)
    requires Inv(wait, s) && Enabled(s, step) && step.Finish?
    ensures Inv(wait, After(wait, s, step))
  {
    var t := After(wait, s, step);
    assert DoInv(wait, s, s.dos[step.p]);
    forall q | 0 <= q < |t.dos| && q != step.p
      ensures DoInv(wait, t, t.dos[q]) && !t.dos[q].Running? && !t.dos[q].Finishing?
    {
      assert q < step.p || step.p < q;
      assert DoInv(wait, s, s.dos[q]);
    }
  }

  lemma StepKeepsInv(wait: int, s: State, step: Step)
    requires Inv(wait, s) && Enabled(s, step)
    ensures Inv(wait, After(wait, s, step))
  {
    hide Inv, After;
    if step.FnReturns? { FnReturnsKeepsInv(wait, s, step); }
    else if step.Finish? { FinishKeepsInv(wait, s, step); }
    else if step.Enter? && !Keeps(wait, s) && s.call.None? { StartKeepsInv(wait, s, step); }
    else { LightStepKeepsInv(wait, s, step); }
  }

  // ---------- Every run ----------

  ghost predicate Initial(s: State) {
    s.last == s.call == s.result == None && s.calls == [] && forall p :: 0 <= p < |s.dos| ==> s.dos[p].Idle?
  }

  ghost predicate Run(wait: int, states: seq<State>, steps: seq<Step>) {
    |states| == |steps| + 1
    && forall i :: 0 <= i < |steps| ==> Enabled(states[i], steps[i]) && states[i + 1] == After(wait, states[i], steps[i])
  }

  lemma {:induction false} RunsKeepInv(wait: int, states: seq<State>, steps: seq<Step>)
    requires Run(wait, states, steps) && (Initial(states[0]) || Inv(wait, states[0]))
    ensures Inv(wait, states[|steps|])
    decreases |steps|
  {
    hide After, Enabled;
    if |steps| > 0 {
      var n := |steps| - 1;
      assert Run(wait, states[..|steps|], steps[..n]);
      RunsKeepInv(wait, states[..|steps|], steps[..n]);
      assert Enabled(states[n], steps[n]);
      StepKeepsInv(wait, states[n], steps[n]);
    }
  }

  /** At every moment at most one `fn` is being executed. */
  lemma AtMostOneInProgress(wait: int, states: seq<State>, steps: seq<Step>, p: nat, q: nat)
    requires Run(wait, states, steps) && Initial(states[0])
    requires p < q < |states[|steps|].dos| && states[|steps|].dos[p].Running?
    ensures !states[|steps|].dos[q].Running?
  {
    RunsKeepInv(wait, states, steps);
  }

  /** Whatever a Do has returned: its own call's pair, the pair of the call it joined, or a kept value and
      a kept error, each of a completed call started less than `wait` before that Do entered. */
  lemma EveryReturnIsExplained(wait: int, states: seq<State>, steps: seq<Step>, p: nat)
    requires Run(wait, states, steps) && Initial(states[0])
    requires p < |states[|steps|].dos| && states[|steps|].dos[p].Returned?
    ensures Explained(wait, states[|steps|], states[|steps|].dos[p])
  {
    RunsKeepInv(wait, states, steps);
    assert DoInv(wait, states[|steps|], states[|steps|].dos[p]);
  }

  /** Reading the kept result never meets a missing one, and nobody waits for nothing: until all have
      returned, somebody other than the clock can move. */
  lemma SomebodyCanMove(wait: int, states: seq<State>, steps: seq<Step>, p: nat)
    requires Run(wait, states, steps) && Initial(states[0])
    requires var s := states[|steps|]; p < |s.dos| && !s.dos[p].Returned?
    ensures var s := states[|steps|];
            exists step :: Enabled(s, step) && !step.Tick? && !step.Reset?
                           && (!s.dos[p].Waiting? || Done(s, s.dos[p].call) ==> step.p == p)
  {
    var s := states[|steps|];
    RunsKeepInv(wait, states, steps);
    var d := s.dos[p];
    assert DoInv(wait, s, d);
    if d.Waiting? && !Done(s, d.call) {
      var q :| 0 <= q < |s.dos| && s.dos[q].Executes(s.call.value);
      assert DoInv(wait, s, s.dos[q]);
      assert Enabled(s, FnReturns(q, Outcome(0, None)));
    } else {
      assert Enabled(s, Enter(p)) || Enabled(s, ReadVal(p)) || Enabled(s, ReadErr(p)) || Enabled(s, Wake(p))
             || Enabled(s, FnReturns(p, Outcome(0, None))) || Enabled(s, Finish(p));
    }
  }

  /** A Do that finds a call in flight and no result to reuse gets that call's pair, and no other. */
  lemma {:induction false} JoinersGetThatCall(wait: int, states: seq<State>, steps: seq<Step>, p: nat, c: nat)
    requires Run(wait, states, steps) && |steps| > 0 && Inv(wait, states[0])
    requires steps[0] == Enter(p) && states[0].call == Some(c) && !Keeps(wait, states[0])
    ensures var t := states[|steps|];
            p < |t.dos|
            && (if t.dos[p].Returned? then Done(t, c) && Outcome(t.dos[p].val, t.dos[p].err) == t.calls[c].outcome.value && t.dos[p].how == Joined(c)
                else t.dos[p].Waiting? && t.dos[p].call == c)
    decreases |steps|
  {
    if |steps| > 1 {
      var n := |steps| - 1;
      assert Run(wait, states[..|steps|], steps[..n]);
      JoinersGetThatCall(wait, states[..|steps|], steps[..n], p, c);
      RunsKeepInv(wait, states[..|steps|], steps[..n]);
      StepGrows(wait, states[n], steps[n]);
    }
  }

  /** After a Reset the next Do runs `fn` again exactly when no call is in flight. */
  lemma ResetRerunsIffNothingInFlight(wait: int, s: State, p: nat)
    requires Inv(wait, s) && p < |s.dos| && s.dos[p].Idle?
    ensures var t := After(wait, After(wait, s, Reset), Enter(p));
            t.dos[p].Running? <==> s.call.None?
  {
  }

  // ---------- The two reads of a kept result ----------

  /** Calls finish in the order of their numbers, and the one in flight is the last. */
  predicate Newest(s: State) {
    (s.result.Some? ==> s.result.value < |s.calls|)
    && (s.call.Some? ==> s.call.value == |s.calls| - 1 && (s.result.Some? ==> s.result.value < s.call.value))
  }

  lemma StepKeepsNewest(wait: int, s: State, step: Step)
    requires Inv(wait, s) && Newest(s) && Enabled(s, step)
    ensures Newest(After(wait, s, step))
    ensures step.Finish? && s.result.Some? ==> After(wait, s, step).result.Some? && After(wait, s, step).result.value > s.result.value
    ensures !step.Finish? ==> After(wait, s, step).result == s.result
  {
    if step.Finish? || step.FnReturns? {
      assert DoInv(wait, s, s.dos[step.p]);
    }
  }

  lemma {:induction false} RunsKeepNewest(wait: int, states: seq<State>, steps: seq<Step>)
    requires Run(wait, states, steps) && Initial(states[0])
    ensures Newest(states[|steps|]) && Inv(wait, states[|steps|])
    decreases |steps|
  {
    hide After, Enabled;
    RunsKeepInv(wait, states, steps);
    if |steps| > 0 {
      var n := |steps| - 1;
      assert Run(wait, states[..|steps|], steps[..n]);
      RunsKeepNewest(wait, states[..|steps|], steps[..n]);
      assert Enabled(states[n], steps[n]);
      StepKeepsNewest(wait, states[n], steps[n]);
    }
  }

  lemma {:induction false} ResultStaysIffNothingFinishes(wait: int, states: seq<State>, steps: seq<Step>)
    requires Run(wait, states, steps) && Inv(wait, states[0]) && Newest(states[0]) && states[0].result.Some?
    ensures var t := states[|steps|];
            Inv(wait, t) && Newest(t) && t.result.Some? && t.result.value >= states[0].result.value
            && (t.result == states[0].result <==> forall i :: 0 <= i < |steps| ==> !steps[i].Finish?)
    decreases |steps|
  {
    hide After, Enabled, Inv, Newest;
    if |steps| > 0 {
      var n := |steps| - 1;
      assert Run(wait, states[..|steps|], steps[..n]);
      ResultStaysIffNothingFinishes(wait, states[..|steps|], steps[..n]);
      assert Enabled(states[n], steps[n]);
      StepKeepsInv(wait, states[n], steps[n]);
      StepKeepsNewest(wait, states[n], steps[n]);
      assert forall i :: 0 <= i < n ==> steps[..n][i] == steps[i];
    }
  }

  lemma {:induction false} ReaderKeepsItsValue(wait: int, states: seq<State>, steps: seq<Step>, p: nat)
    requires Run(wait, states, steps) && |steps| > 0 && steps[0] == ReadVal(p)
    ensures p < |states[|steps|].dos|
    ensures var d := states[|steps|].dos[p];
            d.Returned? || (d.ReadingErr? && states[0].result == Some(d.valOf))
    decreases |steps|
  {
    if |steps| > 1 {
      var n := |steps| - 1;
      assert Run(wait, states[..|steps|], steps[..n]);
      ReaderKeepsItsValue(wait, states[..|steps|], steps[..n], p);
    }
  }

  /** Value and error of a kept pair are read from the same call if and only if no call finishes between
      the two reads. */
  lemma CachedPairIsWholeIffNothingFinishes(wait: int, states: seq<State>, steps: seq<Step>, p: nat)
    requires Run(wait, states, steps) && |steps| > 1 && Inv(wait, states[0]) && Newest(states[0])
    requires steps[0] == ReadVal(p) && steps[|steps| - 1] == ReadErr(p)
    ensures p < |states[|steps|].dos|
    ensures var d := states[|steps|].dos[p];
            d.Returned? && d.how.Cached?
            && (d.how.valOf == d.how.errOf <==> forall i :: 0 <= i < |steps| ==> !steps[i].Finish?)
  {
    hide Inv, Newest;
    var n := |steps| - 1;
    assert Run(wait, states[..|steps|], steps[..n]);
    assert Enabled(states[0], steps[0]) && Enabled(states[n], steps[n]);
    ReaderKeepsItsValue(wait, states[..|steps|], steps[..n], p);
    ResultStaysIffNothingFinishes(wait, states[..|steps|], steps[..n]);
    assert forall i :: 0 <= i < n ==> steps[..n][i] == steps[i];
  }

  const FIRST := Call(0, Some(Outcome(7, None)))
  const SECOND := Call(0, Some(Outcome(8, Some(5))))
  const FROM_FIRST := Returned(7, None, false, Own(0))
  const FROM_SECOND := Returned(8, Some(5), false, Own(1))

  /** A run in which a Do returns the value of one call with the error of the next. */
  const TORN_STEPS: seq<Step> :=
    [Enter(0), FnReturns(0, FIRST.outcome.value), Finish(0), Enter(1), ReadVal(1), Reset,
     Enter(2), FnReturns(2, SECOND.outcome.value), Finish(2), ReadErr(1)]

  const TORN_STATES: seq<State> :=
    [State(0, None, None, None, [], [Idle, Idle, Idle]),
     State(0, None, Some(0), None, [Call(0, None)], [Running(0), Idle, Idle]),
     State(0, None, Some(0), None, [FIRST], [Finishing(0), Idle, Idle]),
     State(0, Some(0), None, Some(0), [FIRST], [FROM_FIRST, Idle, Idle]),
     State(0, Some(0), None, Some(0), [FIRST], [FROM_FIRST, ReadingVal(0), Idle]),
     State(0, Some(0), None, Some(0), [FIRST], [FROM_FIRST, ReadingErr(0, 0), Idle]),
     State(0, None, None, Some(0), [FIRST], [FROM_FIRST, ReadingErr(0, 0), Idle]),
     State(0, None, Some(1), Some(0), [FIRST, Call(0, None)], [FROM_FIRST, ReadingErr(0, 0), Running(1)]),
     State(0, None, Some(1), Some(0), [FIRST, SECOND], [FROM_FIRST, ReadingErr(0, 0), Finishing(1)]),
     State(0, Some(0), None, Some(1), [FIRST, SECOND], [FROM_FIRST, ReadingErr(0, 0), FROM_SECOND]),
     State(0, Some(0), None, Some(1), [FIRST, SECOND], [FROM_FIRST, Returned(7, Some(5), true, Cached(0, 0, 1)), FROM_SECOND])]

  predicate TornStep(i: nat)
    requires i < 10
  {
    Enabled(TORN_STATES[i], TORN_STEPS[i]) && TORN_STATES[i + 1] == After(10, TORN_STATES[i], TORN_STEPS[i])
  }

  lemma TornFirstCall()
    ensures TornStep(0) && TornStep(1) && TornStep(2)
  {
    assert [Idle, Idle, Idle][0 := Running(0)] == [Running(0), Idle, Idle];
    assert [Running(0), Idle, Idle][0 := Finishing(0)] == [Finishing(0), Idle, Idle];
    assert [Finishing(0), Idle, Idle][0 := FROM_FIRST] == [FROM_FIRST, Idle, Idle];
  }

  lemma TornReader()
    ensures TornStep(3) && TornStep(4) && TornStep(5)
  {
  }

  lemma TornSecondCall()
    ensures TornStep(6) && TornStep(7)
  {
    assert [FIRST] + [Call(0, None)] == [FIRST, Call(0, None)];
    assert [FIRST, Call(0, None)][1 := SECOND] == [FIRST, SECOND];
  }

  lemma TornEnd()
    ensures TornStep(8) && TornStep(9)
  {
  }

  /** A kept pair need not be the pair of any call. */
  lemma PairsCanBeTorn()
    ensures Run(10, TORN_STATES, TORN_STEPS) && Initial(TORN_STATES[0])
    ensures TORN_STATES[10].dos[1] == Returned(7, Some(5), true, Cached(0, 0, 1))
    ensures forall c :: 0 <= c < 2 ==> TORN_STATES[10].calls[c].outcome != Some(Outcome(7, Some(5)))
  {
    hide After, Enabled, TornStep;
    TornFirstCall();
    TornReader();
    TornSecondCall();
    TornEnd();
    forall i: nat | i < 10 ensures TornStep(i) {
    }
    TornIsRun();
  }

  lemma TornIsRun()
    requires forall i: nat | i < 10 :: TornStep(i)
    ensures Run(10, TORN_STATES, TORN_STEPS)
  {
    hide After, Enabled;
    forall i | 0 <= i < 10
      ensures Enabled(TORN_STATES[i], TORN_STEPS[i]) && TORN_STATES[i + 1] == After(10, TORN_STATES[i], TORN_STEPS[i])
    {
      assert TornStep(i);
    }
  }

  // ---------- What a Do does when it enters ----------

  /** Since when there is a result that may be kept, by the steps of a run: the last call to finish counts,
      from the moment the Do that ran it entered, unless a Reset came after it. */
  ghost function KeptSince(states: seq<State>, steps: seq<Step>, n: nat): Option<nat>
    requires |states| == |steps| + 1 && n <= |steps|
    requires forall i :: 0 <= i < |steps| ==> Enabled(states[i], steps[i])
    decreases n
  {
    if n == 0 then None
    else
      assert Enabled(states[n - 1], steps[n - 1]);
      match steps[n - 1]
      case Reset => None
      case Finish(p) => Some(states[n - 1].calls[states[n - 1].dos[p].call].start)
      case _ => KeptSince(states, steps, n - 1)
  }

  lemma {:induction false} LastIsKeptSince(wait: int, states: seq<State>, steps: seq<Step>, n: nat)
    requires Run(wait, states, steps) && Initial(states[0]) && n <= |steps|
    ensures states[n].last == KeptSince(states, steps, n)
    decreases n
  {
    if n > 0 { LastIsKeptSince(wait, states, steps, n - 1); }
  }

  /** A Do that enters takes the kept result exactly if the call that left it was entered less than `wait`
      ago and no Reset came since; else it waits exactly if another Do is executing `fn`; and else it executes
      it itself, in a new call that starts now. */
  lemma WhatADoDoes(wait: int, states: seq<State>, steps: seq<Step>, p: nat)
    requires Run(wait, states, steps) && Initial(states[0]) && |steps| > 0 && steps[|steps| - 1] == Enter(p)
    ensures p < |states[|steps| - 1].dos|
    ensures var s, t := states[|steps| - 1], states[|steps|];
            var since := KeptSince(states, steps, |steps| - 1);
            var kept := since.Some? && s.now < since.value + wait;
            var busy := exists q :: 0 <= q < |s.dos| && (s.dos[q].Running? || s.dos[q].Finishing?);
            (t.dos[p].ReadingVal? <==> kept) && (t.dos[p].Waiting? <==> !kept && busy) && (t.dos[p].Running? <==> !kept && !busy)
            && t.calls == s.calls + if t.dos[p].Running? then [Call(s.now, None)] else []
  {
    hide Keeps;
    var n := |steps| - 1;
    assert Run(wait, states[..|steps|], steps[..n]);
    RunsKeepInv(wait, states[..|steps|], steps[..n]);
    LastIsKeptSince(wait, states, steps, n);
    assert Enabled(states[n], steps[n]);
    EnterTakes(wait, states[n], p);
  }

  lemma EnterTakes(wait: int, s: State, p: nat)
    requires Inv(wait, s) && Enabled(s, Enter(p))
    ensures var t := After(wait, s, Enter(p));
            var busy := exists q :: 0 <= q < |s.dos| && (s.dos[q].Running? || s.dos[q].Finishing?);
            (t.dos[p].ReadingVal? <==> s.last.Some? && s.now < s.last.value + wait)
            && (t.dos[p].Waiting? <==> !t.dos[p].ReadingVal? && busy) && (t.dos[p].Running? <==> !t.dos[p].ReadingVal? && !busy)
            && t.calls == s.calls + if t.dos[p].Running? then [Call(s.now, None)] else []
  {
    if q :| 0 <= q < |s.dos| && (s.dos[q].Running? || s.dos[q].Finishing?) {
      assert DoInv(wait, s, s.dos[q]);
    }
  }
}
