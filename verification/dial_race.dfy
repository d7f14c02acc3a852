/** component/dialer/dialer.go: two racers resolve and dial, a loop takes the first connection. Every
    interleaving of the three goroutines is a run of the steps below. */
module DialRace {
  import opened Options

  type Conn = nat
  type Error = nat

  /** dialResult. A dial yields a connection or an error, never both. */
  datatype Result = Result(conn: Option<Conn>, error: Option<Error>, resolved: bool, ipv6: bool, done: bool)

  const NO_RESULT := Result(None, None, false, false, false)

  /** A racer ends in its select: it hands over its result, or finds the race over and cleans up. */
  datatype Racer =
    | Resolving
    | Dialing
    | Offering(result: Result)
    | HandedOver(result: Result)
    | CleanedUp(result: Result)
  {
    predicate Finished() { !Resolving? && !Dialing? }

    predicate Gone() { HandedOver? || CleanedUp? }

    predicate Succeeded() { Finished() && result.error.None? }
  }

  /** The receiving loop with its two variables, and the values returned from it. */
  datatype Loop =
    | Receiving(primary: Result, fallback: Result)
    | Returned(conn: Option<Conn>, error: Option<Error>)

  /** `established` and `closed` are the connections opened and closed so far, `taken` the results received. */
  datatype State = State(four: Racer, six: Racer, loop: Loop, established: set<Conn>, closed: set<Conn>, taken: nat) {
    function Of(ipv6: bool): Racer { if ipv6 then six else four }

    function With(ipv6: bool, r: Racer): State { if ipv6 then this.(six := r) else this.(four := r) }
  }

  const START := State(Resolving, Resolving, Receiving(NO_RESULT, NO_RESULT), {}, {}, 0)

  datatype Step =
    | Resolve(ipv6: bool)
    | FailToResolve(ipv6: bool, error: Error)
    | Dial(ipv6: bool, conn: Conn)
    | FailToDial(ipv6: bool, error: Error)
    | HandOver(ipv6: bool)
    | CleanUp(ipv6: bool)

  predicate Enabled(s: State, step: Step) {
    var r := s.Of(step.ipv6);
    if step.Resolve? || step.FailToResolve? then r.Resolving?
    else if step.Dial? then r.Dialing? && step.conn !in s.established
    else if step.FailToDial? then r.Dialing?
    else if step.HandOver? then r.Offering? && s.loop.Receiving?
    else r.Offering? && s.loop.Returned?
  }

  function After(s: State, step: Step): State
    requires Enabled(s, step)
  {
    match step
    case Resolve(v6) => s.With(v6, Dialing)
    case FailToResolve(v6, e) => s.With(v6, Offering(Result(None, Some(e), false, v6, true)))
    case Dial(v6, c) => s.With(v6, Offering(Result(Some(c), None, true, v6, true))).(established := s.established + {c})
    case FailToDial(v6, e) => s.With(v6, Offering(Result(None, Some(e), true, v6, true)))
    case HandOver(v6) =>
      var res := s.Of(v6).result;
      s.With(v6, HandedOver(res)).(loop := Take(s.loop, res), taken := s.taken + 1)
    case CleanUp(v6) =>
      var res := s.Of(v6).result;
      s.With(v6, CleanedUp(res)).(closed := if res.conn.Some? then s.closed + {res.conn.value} else s.closed)
  }

  /** One turn of the receiving loop. */
  function Take(loop: Loop, res: Result): Loop
    requires loop.Receiving?
  {
    if res.error.None? then Returned(res.conn, None)
    else
      var primary := if !res.ipv6 then res else loop.primary;
      var fallback := if res.ipv6 then res else loop.fallback;
      if primary.done && fallback.done then
        Returned(None,
                 if primary.resolved then primary.error
                 else if fallback.resolved then fallback.error
                 else primary.error)
      else Receiving(primary, fallback)
  }

  // ---------- The invariant ----------

  predicate WellFormed(r: Racer, ipv6: bool) {
    r.Finished() ==>
      r.result.done && r.result.ipv6 == ipv6
      && (r.result.conn.Some? <==> r.result.error.None?)
      && (r.result.conn.Some? ==> r.result.resolved)
  }

  /** The connection a racer has opened, if it has. */
  function Opened(r: Racer): set<Conn> {
    if r.Finished() && r.result.conn.Some? then {r.result.conn.value} else {}
  }

  /** What the loop remembers of a racer: nothing, or the failure it was handed. */
  function Remembered(r: Racer): Result { if r.HandedOver? then r.result else NO_RESULT }

  predicate Inv(s: State) {
    && WellFormed(s.four, false) && WellFormed(s.six, true)
    && Opened(s.four) !! Opened(s.six)
    && s.established == Opened(s.four) + Opened(s.six)
    && s.closed == (if s.four.CleanedUp? then Opened(s.four) else {}) + (if s.six.CleanedUp? then Opened(s.six) else {})
    && s.taken == (if s.four.HandedOver? then 1 else 0) + (if s.six.HandedOver? then 1 else 0)
    && LoopInv(s)
  }

  predicate LoopInv(s: State) {
    if s.loop.Receiving? then
      && !s.four.CleanedUp? && !s.six.CleanedUp?
      && s.loop.primary == Remembered(s.four) && s.loop.fallback == Remembered(s.six)
      && !(s.four.HandedOver? && s.four.Succeeded()) && !(s.six.HandedOver? && s.six.Succeeded())
      && !(s.four.HandedOver? && s.six.HandedOver?)
    else if s.loop.error.None? then
      exists v6 ::
        s.Of(v6).HandedOver? && s.Of(v6).Succeeded() && s.loop.conn == s.Of(v6).result.conn
        && (s.Of(!v6).HandedOver? ==> !s.Of(!v6).Succeeded())
    else
      && s.loop.conn == None
      && s.four.HandedOver? && s.six.HandedOver? && !s.four.Succeeded() && !s.six.Succeeded()
      && s.loop.error == ChosenError(s.four.result, s.six.result)
  }

  /** The resolved-first rule. */
  function ChosenError(primary: Result, fallback: Result): Option<Error> {
    if !primary.resolved && fallback.resolved then fallback.error else primary.error
  }

  lemma StepKeepsInv(s: State, step: Step)
    requires Inv(s) && Enabled(s, step)
    ensures Inv(After(s, step))
  {
    var t := After(s, step);
    if s.loop.Returned? && s.loop.error.None? {
      var v6 :| s.Of(v6).HandedOver? && s.Of(v6).Succeeded() && s.loop.conn == s.Of(v6).result.conn
                && (s.Of(!v6).HandedOver? ==> !s.Of(!v6).Succeeded());
      assert step.ipv6 == !v6;
      assert t.Of(v6) == s.Of(v6) && !t.Of(!v6).HandedOver? && t.loop == s.loop;
    } else if step.HandOver? && s.Of(step.ipv6).Succeeded() {
      var v6 := step.ipv6;
      assert t.Of(v6).HandedOver? && t.Of(v6).Succeeded() && t.loop.conn == t.Of(v6).result.conn;
      assert t.Of(!v6) == s.Of(!v6);
    }
  }

  // ---------- Every run ----------

  ghost predicate Run(states: seq<State>, steps: seq<Step>) {
    |states| == |steps| + 1 && states[0] == START
    && forall i :: 0 <= i < |steps| ==> Enabled(states[i], steps[i]) && states[i + 1] == After(states[i], steps[i])
  }

  lemma {:induction false} RunsKeepInv(states: seq<State>, steps: seq<Step>)
    requires Run(states, steps)
    ensures Inv(states[|steps|])
    decreases |steps|
  {
    if |steps| > 0 {
      var n := |steps| - 1;
      assert Run(states[..|steps|], steps[..n]);
      RunsKeepInv(states[..|steps|], steps[..n]);
      StepKeepsInv(states[n], steps[n]);
    }
  }

  function Work(r: Racer): nat { if r.Resolving? then 3 else if r.Dialing? then 2 else if r.Offering? then 1 else 0 }

  lemma {:induction false} RunsAreShort(states: seq<State>, steps: seq<Step>)
    requires Run(states, steps)
    ensures |steps| + Work(states[|steps|].four) + Work(states[|steps|].six) <= 6
    decreases |steps|
  {
    if |steps| > 0 {
      var n := |steps| - 1;
      assert Run(states[..|steps|], steps[..n]);
      RunsAreShort(states[..|steps|], steps[..n]);
    }
  }

  /** Nothing gets stuck: as long as the loop has not returned or a racer is not gone, some step can be
      taken, whatever the network answers. */
  lemma SomeStepUnlessOver(s: State)
    requires Inv(s)
    ensures (exists step :: Enabled(s, step)) <==> !(s.loop.Returned? && s.four.Gone() && s.six.Gone())
  {
    if s.loop.Returned? && s.four.Gone() && s.six.Gone() {
    } else if s.four.Gone() && s.six.Gone() {
    } else {
      var v6 := s.four.Gone();
      assert !s.Of(v6).Gone();
      assert Enabled(s, Resolve(v6)) || Enabled(s, FailToDial(v6, 0)) || Enabled(s, HandOver(v6)) || Enabled(s, CleanUp(v6));
    }
  }

  /** In every state of every run: at most two results are taken, the returned connection is open, and
      only connections that are not returned have been closed. */
  lemma ReturnedIsOpen(states: seq<State>, steps: seq<Step>)
    requires Run(states, steps)
    ensures var s := states[|steps|];
            s.taken <= 2 && s.closed <= s.established
            && (s.loop.Returned? && s.loop.conn.Some? ==> s.loop.conn.value in s.established - s.closed)
  {
    RunsKeepInv(states, steps);
  }

  /** When a run is over, the loop has returned a connection exactly when a racer succeeded; all other
      connections opened are closed; and without a success the error is chosen by the resolved-first rule. */
  lemma OutcomeOfEveryRun(states: seq<State>, steps: seq<Step>)
    requires Run(states, steps) && !exists step :: Enabled(states[|steps|], step)
    ensures var s := states[|steps|];
            && s.loop.Returned? && s.four.Gone() && s.six.Gone()
            && (s.loop.conn.Some? <==> s.four.Succeeded() || s.six.Succeeded())
            && (s.loop.conn.Some? <==> s.loop.error.None?)
            && (s.loop.conn.Some? ==> s.established - s.closed == {s.loop.conn.value})
            && (s.loop.conn.None? ==> s.established == {} && s.loop.error == ChosenError(s.four.result, s.six.result))
  {
    RunsKeepInv(states, steps);
    SomeStepUnlessOver(states[|steps|]);
  }

  // ---------- In terms of what the network did ----------

  predicate Failed(v6: bool, e: Error, steps: seq<Step>) { FailToResolve(v6, e) in steps || FailToDial(v6, e) in steps }

  /** What is known of a racer is what has happened to it. */
  ghost predicate Recorded(r: Racer, v6: bool, steps: seq<Step>) {
    match r
    case Resolving => Resolve(v6) !in steps && Undecided(v6, steps)
    case Dialing => Resolve(v6) in steps && Undecided(v6, steps)
    case _ =>
      (r.result.resolved <==> Resolve(v6) in steps)
      && (forall c: Conn :: r.result.conn == Some(c) <==> Dial(v6, c) in steps)
      && (forall e: Error :: r.result.error == Some(e) <==> Failed(v6, e, steps))
  }

  ghost predicate Undecided(v6: bool, steps: seq<Step>) {
    (forall e: Error :: !Failed(v6, e, steps)) && forall c: Conn :: Dial(v6, c) !in steps
  }

  lemma {:induction false} RunsAreRecorded(states: seq<State>, steps: seq<Step>, v6: bool)
    requires Run(states, steps)
    ensures Recorded(states[|steps|].Of(v6), v6, steps)
    decreases |steps|
  {
    if |steps| > 0 {
      var n := |steps| - 1;
      assert Run(states[..|steps|], steps[..n]);
      RunsKeepInv(states[..|steps|], steps[..n]);
      RunsAreRecorded(states[..|steps|], steps[..n], v6);
      assert Enabled(states[n], steps[n]) && states[n + 1] == After(states[n], steps[n]);
      assert steps == steps[..n] + [steps[n]];
      StepIsRecorded(states[n], steps[..n], steps[n], v6);
    }
  }

  lemma StepIsRecorded(s: State, steps: seq<Step>, step: Step, v6: bool)
    requires Inv(s) && Enabled(s, step) && Recorded(s.Of(v6), v6, steps)
    ensures Recorded(After(s, step).Of(v6), v6, steps + [step])
  {
    var t, all := After(s, step), steps + [step];
    assert forall x :: x in all <==> x in steps || x == step;
    forall e: Error
      ensures Failed(v6, e, all) <==> Failed(v6, e, steps) || step == FailToResolve(v6, e) || step == FailToDial(v6, e)
    {
    }
    if step.ipv6 != v6 {
      assert t.Of(v6) == s.Of(v6);
    }
  }

  /** When a run is over without a connection, each racer has failed, and the error returned is that of the
      IPv4 racer unless it did not resolve and the other one did; with a connection, that one was dialed, and
      every other that was dialed has been closed. */
  lemma OutcomeFromSteps(states: seq<State>, steps: seq<Step>)
    requires Run(states, steps) && !exists step :: Enabled(states[|steps|], step)
    ensures states[|steps|].loop.Returned?
    ensures var s := states[|steps|];
            s.loop.conn.Some? ==>
              (Dial(false, s.loop.conn.value) in steps || Dial(true, s.loop.conn.value) in steps)
              && forall v6, c: Conn :: Dial(v6, c) in steps && c != s.loop.conn.value ==> c in s.closed
    ensures var s := states[|steps|];
            s.loop.conn.None? ==>
              s.loop.error.Some? && (forall v6, c: Conn :: Dial(v6, c) !in steps)
              && Failed(Resolve(false) !in steps && Resolve(true) in steps, s.loop.error.value, steps)
  {
    OutcomeOfEveryRun(states, steps);
    RunsKeepInv(states, steps);
    RunsAreRecorded(states, steps, false);
    RunsAreRecorded(states, steps, true);
    var s := states[|steps|];
    forall v6, c: Conn | Dial(v6, c) in steps ensures c in s.established {
      assert s.Of(v6).result.conn == Some(c);
    }
  }
}
