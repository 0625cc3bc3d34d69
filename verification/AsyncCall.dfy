/**
 A call from any thread into the event loop through one async handle: any number of callers, every
 interleaving of their steps with the loop's.  The handle has room for one call at a time, and sends
 may coalesce.
 */
module AsyncCall {
  import opened Options

  /**
   Where a caller is.  Between Scoped and Returning (or Unwinding) its running_scope is alive, and so
   is the data on its stack that the loop will use.
   */
  datatype Phase<R> =
    | Outside
    | Refused
    | Scoped
    | Stored
    | Armed
    | Sent
    | Returning(result: R)
    | Unwinding
    | Done(result: R)
    | Failed

  datatype Caller<A, R> = Caller(arg: A, phase: Phase<R>, promise: Option<R>)

  /** The loop is Faulted if it calls nothing, uses data that is gone, or fills a promise twice. */
  datatype Loop = Idle | Woken | Invoked(caller: nat) | Faulted

  datatype Execution<A, R> = Execution(caller: nat, arg: A, result: R)

  datatype State<A, R> = State(
    running: bool,
    data: Option<nat>,
    callback: Option<nat>,
    pending: bool,
    loop: Loop,
    callers: seq<Caller<A, R>>,
    log: seq<Execution<A, R>>)

  /** Who moves next; the environment decides whether a send works and what the callback returns. */
  datatype Turn<R> = CallerTurn(i: nat, sends: bool) | LoopTurn(result: R)

  function Initial<A, R>(args: seq<A>): State<A, R> {
    State(false, None, None, false, Idle,
          seq(|args|, i requires 0 <= i < |args| => Caller(args[i], Outside, None)), [])
  }

  function Move<A, R>(s: State<A, R>, i: nat, phase: Phase<R>): State<A, R>
    requires i < |s.callers|
  {
    s.(callers := s.callers[i := s.callers[i].(phase := phase)])
  }

  function CallerStep<A, R>(s: State<A, R>, i: nat, sends: bool): (t: State<A, R>)
    requires i < |s.callers|
    ensures t.log == s.log && |t.callers| == |s.callers|
    ensures forall j | 0 <= j < |s.callers| ::
              if j != i then t.callers[j] == s.callers[j]
              else t.callers[j].promise == s.callers[j].promise && t.callers[j].arg == s.callers[j].arg
  {
    match s.callers[i].phase
    case Outside =>
      // running.exchange(true); a caller that loses throws before its scope exists
      if s.running then Move(s, i, Refused) else Move(s, i, Scoped).(running := true)
    case Scoped => Move(s, i, Stored).(data := Some(i))
    case Stored => Move(s, i, Armed).(callback := Some(i))
    case Armed => if sends then Move(s, i, Sent).(pending := true) else Move(s, i, Unwinding)
    case Sent =>
      if s.callers[i].promise.Some? then Move(s, i, Returning(s.callers[i].promise.value)) else s
    case Returning(result) => Move(s, i, Done(result)).(running := false)
    case Unwinding => Move(s, i, Failed).(running := false)
    case Refused => s
    case Done(_) => s
    case Failed => s
  }

  function LoopStep<A, R>(s: State<A, R>, result: R): (t: State<A, R>)
    ensures |t.callers| == |s.callers| && forall i | 0 <= i < |s.callers| :: t.callers[i].arg == s.callers[i].arg
  {
    match s.loop
    case Idle => if s.pending then s.(pending := false, loop := Woken) else s
    case Woken =>
      if s.data.None? || s.callback != s.data then s.(loop := Faulted)
      else if s.data.value >= |s.callers| || !s.callers[s.data.value].phase.Sent? then s.(loop := Faulted)
      else s.(loop := Invoked(s.data.value))
    case Invoked(i) =>
      if i >= |s.callers| || s.callers[i].promise.Some? then s.(loop := Faulted)
      else s.(loop := Idle,
              callers := s.callers[i := s.callers[i].(promise := Some(result))],
              log := s.log + [Execution(i, s.callers[i].arg, result)])
    case Faulted => s
  }

  function Step<A, R>(s: State<A, R>, turn: Turn<R>): (t: State<A, R>)
    ensures |t.callers| == |s.callers| && forall i | 0 <= i < |s.callers| :: t.callers[i].arg == s.callers[i].arg
  {
    match turn
    case CallerTurn(i, sends) => if i < |s.callers| then CallerStep(s, i, sends) else s
    case LoopTurn(result) => LoopStep(s, result)
  }

  function Run<A, R>(s: State<A, R>, turns: seq<Turn<R>>): (t: State<A, R>)
    ensures |t.callers| == |s.callers| && forall i | 0 <= i < |s.callers| :: t.callers[i].arg == s.callers[i].arg
    decreases |turns|
  {
    if turns == [] then s else Run(Step(s, turns[0]), turns[1..])
  }

  // ----- What every run keeps -----

  predicate InScope<A, R>(c: Caller<A, R>) {
    match c.phase
    case Outside => false
    case Refused => false
    case Done(_) => false
    case Failed => false
    case _ => true
  }

  /** The caller has sent and the loop has not answered. */
  predicate Waiting<A, R>(c: Caller<A, R>) {
    c.phase.Sent? && c.promise.None?
  }

  ghost predicate OneScope<A, R>(s: State<A, R>) {
    && (s.running <==> exists i | 0 <= i < |s.callers| :: InScope(s.callers[i]))
    && forall i, j | 0 <= i < j < |s.callers| :: !(InScope(s.callers[i]) && InScope(s.callers[j]))
  }

  /** What the handle holds while a caller is in its scope. */
  ghost predicate HandleFits<A, R>(s: State<A, R>) {
    forall i | 0 <= i < |s.callers| ::
      match s.callers[i].phase
      case Stored => s.data == Some(i)
      case Armed => s.data == Some(i) && s.callback == Some(i)
      case Sent => s.data == Some(i) && s.callback == Some(i)
      case _ => true
  }

  ghost predicate LoopFits<A, R>(s: State<A, R>) {
    && !s.loop.Faulted?
    && !(s.pending && !s.loop.Idle?)
    && (s.pending || !s.loop.Idle? ==>
          s.data.Some? && s.data.value < |s.callers| && Waiting(s.callers[s.data.value]))
    && (s.loop.Invoked? ==> s.data == Some(s.loop.caller))
    && forall i | 0 <= i < |s.callers| :: Waiting(s.callers[i]) ==> s.pending || !s.loop.Idle?
  }

  ghost predicate PromisesFit<A, R>(s: State<A, R>) {
    forall i | 0 <= i < |s.callers| ::
      match s.callers[i].phase
      case Sent => true
      case Returning(result) => s.callers[i].promise == Some(result)
      case Done(result) => s.callers[i].promise == Some(result)
      case _ => s.callers[i].promise == None
  }

  ghost predicate Ran<A, R>(s: State<A, R>, i: nat) {
    exists k | 0 <= k < |s.log| :: s.log[k].caller == i
  }

  ghost predicate LogFits<A, R>(s: State<A, R>) {
    && (forall k | 0 <= k < |s.log| ::
          && s.log[k].caller < |s.callers|
          && s.log[k].arg == s.callers[s.log[k].caller].arg
          && s.callers[s.log[k].caller].promise == Some(s.log[k].result))
    && (forall k, l | 0 <= k < l < |s.log| :: s.log[k].caller != s.log[l].caller)
    && forall i | 0 <= i < |s.callers| :: s.callers[i].promise.Some? ==> Ran(s, i)
  }

  ghost predicate Invariant<A, R>(s: State<A, R>) {
    OneScope(s) && HandleFits(s) && LoopFits(s) && PromisesFit(s) && LogFits(s)
  }

  lemma CallerKeepsScope<A, R>(s: State<A, R>, i: nat, sends: bool)
    requires i < |s.callers| && OneScope(s)
    ensures OneScope(CallerStep(s, i, sends))
  {
    var t := CallerStep(s, i, sends);
    if s.running {
      var owner :| 0 <= owner < |s.callers| && InScope(s.callers[owner]);
      assert t.running ==> InScope(t.callers[owner]);
    } else {
      assert t.running ==> InScope(t.callers[i]);
    }
  }

  lemma SameLogFits<A, R>(s: State<A, R>, t: State<A, R>)
    requires LogFits(s) && t.log == s.log && |t.callers| == |s.callers|
    requires forall j | 0 <= j < |s.callers| ::
               t.callers[j].promise == s.callers[j].promise && t.callers[j].arg == s.callers[j].arg
    ensures LogFits(t)
  {
    assert forall j: nat :: Ran(s, j) ==> Ran(t, j);
  }

  lemma CallerKeepsHandle<A, R>(s: State<A, R>, i: nat, sends: bool)
    requires i < |s.callers| && OneScope(s) && HandleFits(s)
    ensures HandleFits(CallerStep(s, i, sends))
  {
  }

  lemma CallerKeepsLoop<A, R>(s: State<A, R>, i: nat, sends: bool)
    requires i < |s.callers| && OneScope(s) && HandleFits(s) && LoopFits(s) && PromisesFit(s)
    ensures LoopFits(CallerStep(s, i, sends)) && PromisesFit(CallerStep(s, i, sends))
  {
  }

  lemma LogFitsWithOneMore<A, R>(s: State<A, R>, t: State<A, R>, i: nat, result: R)
    requires LogFits(s) && i < |s.callers| == |t.callers| && s.callers[i].promise.None?
    requires t.callers == s.callers[i := s.callers[i].(promise := Some(result))]
    requires t.log == s.log + [Execution(i, s.callers[i].arg, result)]
    ensures LogFits(t)
  {
    assert t.log[|s.log|].caller == i;
    forall j | 0 <= j < |t.callers| && t.callers[j].promise.Some?
      ensures Ran(t, j)
    {
      if j != i {
        var k :| 0 <= k < |s.log| && s.log[k].caller == j;
        assert t.log[k].caller == j;
      }
    }
  }

  lemma LoopKeepsLog<A, R>(s: State<A, R>, result: R)
    requires LogFits(s)
    ensures LogFits(LoopStep(s, result))
  {
    var t := LoopStep(s, result);
    if t.log == s.log {
      SameLogFits(s, t);
    } else {
      LogFitsWithOneMore(s, t, s.loop.caller, result);
    }
  }

  lemma LoopKeepsInvariant<A, R>(s: State<A, R>, result: R)
    requires Invariant(s)
    ensures Invariant(LoopStep(s, result))
  {
    var t := LoopStep(s, result);
    LoopKeepsLog(s, result);
    if s.loop.Invoked? {
      var i := s.loop.caller;
      assert forall j | 0 <= j < |s.callers| && j != i :: t.callers[j] == s.callers[j];
      if s.running {
        var owner :| 0 <= owner < |s.callers| && InScope(s.callers[owner]);
        assert InScope(t.callers[owner]);
      }
    }
  }

  lemma StepKeepsInvariant<A, R>(s: State<A, R>, turn: Turn<R>)
    requires Invariant(s)
    ensures Invariant(Step(s, turn))
  {
    match turn
    case CallerTurn(i, sends) =>
      if i < |s.callers| {
        CallerKeepsScope(s, i, sends);
        CallerKeepsHandle(s, i, sends);
        CallerKeepsLoop(s, i, sends);
        SameLogFits(s, CallerStep(s, i, sends));
      }
    case LoopTurn(result) => LoopKeepsInvariant(s, result);
  }

  lemma {:induction false} RunKeepsInvariant<A, R>(s: State<A, R>, turns: seq<Turn<R>>)
    requires Invariant(s)
    ensures Invariant(Run(s, turns))
    decreases |turns|
  {
    if turns != [] {
      StepKeepsInvariant(s, turns[0]);
      RunKeepsInvariant(Step(s, turns[0]), turns[1..]);
    }
  }

  /** In every run, `running` is true exactly when a scope is alive, and never two are. */
  lemma RunningMeansOneScope<A, R>(args: seq<A>, turns: seq<Turn<R>>)
    ensures OneScope(Run(Initial<A, R>(args), turns))
  {
    RunKeepsInvariant(Initial<A, R>(args), turns);
  }

  /** The callback ran for this caller, with its own argument and result. */
  ghost predicate Answered<A, R>(s: State<A, R>, i: nat, arg: A)
    requires i < |s.callers| && s.callers[i].phase.Done?
  {
    exists k | 0 <= k < |s.log| :: s.log[k] == Execution(i, arg, s.callers[i].phase.result)
  }

  lemma DoneIsAnswered<A, R>(s: State<A, R>, i: nat)
    requires LogFits(s) && PromisesFit(s) && i < |s.callers| && s.callers[i].phase.Done?
    ensures Answered(s, i, s.callers[i].arg)
  {
    var k :| 0 <= k < |s.log| && s.log[k].caller == i;
    assert s.log[k] == Execution(i, s.callers[i].arg, s.callers[i].phase.result);
  }

  /**
   In every run the callback has run once, with the caller's own argument, for each caller that has
   its result, and that is the result it has; it has not run for a caller that was turned away.
   */
  lemma EachCallRunsOnce<A, R>(args: seq<A>, turns: seq<Turn<R>>, i: nat)
    requires i < |args|
    ensures var s := Run(Initial<A, R>(args), turns);
            && !s.loop.Faulted?
            && (s.callers[i].phase.Done? ==> Answered(s, i, args[i]))
            && (forall k, l | 0 <= k < l < |s.log| :: s.log[k].caller != s.log[l].caller)
            && (s.callers[i].phase.Refused? || s.callers[i].phase.Failed? ==> !Ran(s, i))
  {
    RunKeepsInvariant(Initial<A, R>(args), turns);
    var s := Run(Initial<A, R>(args), turns);
    if s.callers[i].phase.Done? {
      DoneIsAnswered(s, i);
    }
  }

  // ----- Nobody is turned away for nothing -----

  /** A caller whose exchange won. */
  predicate Won<A, R>(c: Caller<A, R>) {
    InScope(c) || c.phase.Done? || c.phase.Failed?
  }

  ghost predicate SomebodyWon<A, R>(s: State<A, R>) {
    exists i | 0 <= i < |s.callers| :: Won(s.callers[i])
  }

  ghost predicate RefusedForSomebody<A, R>(s: State<A, R>) {
    (exists i | 0 <= i < |s.callers| :: s.callers[i].phase.Refused?) ==> SomebodyWon(s)
  }

  lemma StepKeepsWinner<A, R>(s: State<A, R>, turn: Turn<R>, i: nat)
    requires i < |s.callers| && Won(s.callers[i])
    ensures Won(Step(s, turn).callers[i])
  {
  }

  lemma StepRefusesForSomebody<A, R>(s: State<A, R>, turn: Turn<R>)
    requires OneScope(s) && RefusedForSomebody(s)
    ensures RefusedForSomebody(Step(s, turn))
  {
    if SomebodyWon(s) {
      var i :| 0 <= i < |s.callers| && Won(s.callers[i]);
      StepKeepsWinner(s, turn, i);
    }
  }

  lemma {:induction false} RunRefusesForSomebody<A, R>(s: State<A, R>, turns: seq<Turn<R>>)
    requires Invariant(s) && RefusedForSomebody(s)
    ensures RefusedForSomebody(Run(s, turns))
    decreases |turns|
  {
    if turns != [] {
      StepKeepsInvariant(s, turns[0]);
      StepRefusesForSomebody(s, turns[0]);
      RunRefusesForSomebody(Step(s, turns[0]), turns[1..]);
    }
  }

  /** In every run, if a caller was turned away then another one got in. */
  lemma RefusedMeansSomebodyWon<A, R>(args: seq<A>, turns: seq<Turn<R>>)
    ensures RefusedForSomebody(Run(Initial<A, R>(args), turns))
  {
    RunRefusesForSomebody(Initial<A, R>(args), turns);
  }

  // ----- Every call comes back -----

  predicate Finished<A, R>(c: Caller<A, R>) {
    c.phase.Refused? || c.phase.Done? || c.phase.Failed?
  }

  function Left<A, R>(c: Caller<A, R>): nat {
    match c.phase
    case Outside => 12
    case Scoped => 10
    case Stored => 9
    case Armed => 8
    case Sent => if c.promise.None? then 3 else 2
    case Returning(_) => 1
    case Unwinding => 1
    case _ => 0
  }

  function LeftOf<A, R>(callers: seq<Caller<A, R>>): nat {
    if callers == [] then 0 else LeftOf(callers[..|callers| - 1]) + Left(callers[|callers| - 1])
  }

  function LoopLeft<A, R>(s: State<A, R>): nat {
    (if s.pending then 3 else 0) + (if s.loop.Woken? then 2 else if s.loop.Invoked? then 1 else 0)
  }

  /** An upper bound on the moves that are left. */
  function Measure<A, R>(s: State<A, R>): nat {
    LeftOf(s.callers) + LoopLeft(s)
  }

  lemma {:induction false} LeftUpdated<A, R>(callers: seq<Caller<A, R>>, i: nat, c: Caller<A, R>)
    requires i < |callers|
    ensures LeftOf(callers[i := c]) == LeftOf(callers) - Left(callers[i]) + Left(c)
  {
    var last := |callers| - 1;
    var changed := callers[i := c];
    if i == last {
      assert changed[..last] == callers[..last];
    } else {
      assert changed[..last] == callers[..last][i := c];
      LeftUpdated(callers[..last], i, c);
    }
  }

  predicate Enabled<A, R>(s: State<A, R>, turn: Turn<R>) {
    match turn
    case CallerTurn(i, _) =>
      i < |s.callers| && !Finished(s.callers[i]) && !Waiting(s.callers[i])
    case LoopTurn(_) => s.pending || !s.loop.Idle?
  }

  lemma CallerRunsOut<A, R>(s: State<A, R>, i: nat, sends: bool)
    requires i < |s.callers| && !Finished(s.callers[i]) && !Waiting(s.callers[i])
    requires s.callers[i].phase.Armed? ==> !s.pending
    ensures Measure(CallerStep(s, i, sends)) < Measure(s)
  {
    LeftUpdated(s.callers, i, CallerStep(s, i, sends).callers[i]);
    assert CallerStep(s, i, sends).callers == s.callers[i := CallerStep(s, i, sends).callers[i]];
  }

  lemma LoopRunsOut<A, R>(s: State<A, R>, result: R)
    requires LoopFits(s) && (s.pending || !s.loop.Idle?)
    ensures Measure(LoopStep(s, result)) < Measure(s)
  {
    if s.loop.Invoked? {
      LeftUpdated(s.callers, s.loop.caller, LoopStep(s, result).callers[s.loop.caller]);
    }
  }

  /** Every enabled step uses up part of the measure, so no run goes on for ever. */
  lemma StepsRunOut<A, R>(s: State<A, R>, turn: Turn<R>)
    requires Invariant(s) && Enabled(s, turn)
    ensures Measure(Step(s, turn)) < Measure(s)
  {
    match turn
    case CallerTurn(i, sends) => CallerRunsOut(s, i, sends);
    case LoopTurn(result) => LoopRunsOut(s, result);
  }

  /** While some caller has not come back, a step is enabled: no deadlock. */
  lemma SomeStepIsEnabled<A, R>(s: State<A, R>, i: nat, result: R)
    requires Invariant(s) && i < |s.callers| && !Finished(s.callers[i])
    ensures Enabled(s, CallerTurn(i, true)) || Enabled(s, LoopTurn(result))
  {
  }

  /** A disabled step changes nothing. */
  lemma DisabledStepIsIdle<A, R>(s: State<A, R>, turn: Turn<R>)
    requires Invariant(s) && !Enabled(s, turn)
    ensures Step(s, turn) == s
  {
  }
}
