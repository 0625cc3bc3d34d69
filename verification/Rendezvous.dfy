/**
 A worker thread, the event loop and a for-await consumer around one iterator: the worker hands over
 one value per library callback and blocks until it is consumed.  Every interleaving is a sequence of
 moves; JavaScript moves while the loop is idle and while resolve runs the microtasks.
 */
module Rendezvous {
  import opened Options
  import opened Iterable
  import opened CallbackData

  /** The exception of a hand-over that was refused or broken off. */
  datatype Fault = RuntimeError

  /**
   InLibrary: between callbacks, after `calls` of them.  Posted: a call is on its way to the loop.
   Handed: waiting for the consumer.  Faulted: the call threw in the loop.  Finished: the work's
   promise is set, after `sent` callbacks.
   */
  datatype Worker<E> =
    | InLibrary(calls: nat)
    | Posted(calls: nat)
    | Handed(calls: nat)
    | Faulted(calls: nat)
    | Finished(sent: nat, outcome: Checked<Fault, E>)

  /** Running microtasks inside resolve, for a value or for the end of the work. */
  datatype Loop = Idle | Yielding | Completing

  /** At most one `next` is outstanding, and none follows the end. */
  datatype Consumer = Ready | Awaiting(promise: nat) | Over

  /** The completion of the work; an exception that is no library error escapes from it. */
  datatype Completion = Pending | Completed | Escaped

  datatype State<V, E> = State(
    values: seq<V>,
    slot: Slot<V, Status<E>>,
    worker: Worker<E>,
    exception: Option<Fault>,
    loop: Loop,
    consumer: Consumer,
    observed: seq<Answer<V, Status<E>>>,
    completion: Completion)

  datatype Move<E> =
    | Send
    | RunAsync
    | EndMicrotasks
    | WorkerGet
    | Finish(status: Status<E>)
    | AfterWork
    | Next
    | Observe
    | Release

  function Initial<V, E>(values: seq<V>): State<V, E> {
    State(values, Empty(), InLibrary(0), None, Idle, Ready, [], Pending)
  }

  // ----- The moves -----

  predicate Enabled<V, E>(s: State<V, E>, move: Move<E>) {
    match move
    case Send => s.worker.InLibrary? && s.worker.calls < |s.values|
    case RunAsync => s.worker.Posted? && s.loop == Idle
    case EndMicrotasks => s.loop != Idle
    case WorkerGet => s.worker.Faulted? || (s.worker.Handed? && s.slot.consume != Unset)
    case Finish(status) =>
      // success only after the last value, unless a callback was cancelled
      s.worker.InLibrary? && (status == NoError ==> s.worker.calls == |s.values| || s.exception.Some?)
    case AfterWork => s.worker.Finished? && s.loop == Idle && s.completion == Pending
    case Next => s.consumer == Ready && !s.slot.released
    case Observe =>
      s.consumer.Awaiting? && s.consumer.promise < |s.slot.promises| && s.slot.promises[s.consumer.promise].Some?
    case Release => !s.slot.released
  }

  /** The callback's outcome, as callback_data::invoke sees it. */
  function CallbackReturned<V, E>(s: State<V, E>, calls: nat, outcome: Option<Fault>): State<V, E> {
    s.(worker := InLibrary(calls + 1), exception := Record(s.exception, outcome))
  }

  /** What the completion resolves the iterator with; None lets the exception through. */
  function LastAnswer<V, E>(outcome: Checked<Fault, E>): Option<Answer<V, Status<E>>> {
    match outcome
    case Returned => Some(End)
    case Threw(status) => Some(Failure(status))
    case Rethrown(_) => None
  }

  function Step<V, E>(s: State<V, E>, move: Move<E>): (t: State<V, E>)
    requires Consistent(s.slot)
    ensures Consistent(t.slot) && t.values == s.values
  {
    if !Enabled(s, move) then s
    else
      match move
      case Send => s.(worker := Posted(s.worker.calls))
      case RunAsync =>
        var calls := s.worker.calls;
        if calls >= |s.values| then s
        else
          (match BeginResolve(s.slot, Item(s.values[calls]))
           case Began(slot) => s.(slot := slot, loop := Yielding)
           case _ => s.(worker := Faulted(calls)))
      case EndMicrotasks =>
        if s.loop == Completing then s.(loop := Idle, completion := Completed)
        else if s.worker.Posted? then s.(loop := Idle, worker := Handed(s.worker.calls))
        else s
      case WorkerGet =>
        var kept := s.worker.Handed? && s.slot.consume == Kept;
        CallbackReturned(s, s.worker.calls, if kept then None else Some(RuntimeError))
      case Finish(status) => s.(worker := Finished(s.worker.calls, Check(s.exception, status)))
      case AfterWork =>
        (match LastAnswer<V, E>(s.worker.outcome)
         case None => s.(completion := Escaped)
         case Some(answer) =>
           match BeginResolve(s.slot, answer)
           case Began(slot) => s.(slot := slot, loop := Completing)
           case _ => s.(completion := Escaped))
      case Next =>
        var (slot, promise) := NextCalled(s.slot);
        s.(slot := slot, consumer := Awaiting(promise))
      case Observe =>
        var answer := s.slot.promises[s.consumer.promise].value;
        s.(observed := s.observed + [answer], consumer := if answer.Item? then Ready else Over)
      case Release => s.(slot := Collected(s.slot))
  }

  function Run<V, E>(s: State<V, E>, moves: seq<Move<E>>): (t: State<V, E>)
    requires Consistent(s.slot)
    ensures Consistent(t.slot) && t.values == s.values
    decreases |moves|
  {
    if moves == [] then s else Run(Step(s, moves[0]), moves[1..])
  }

  // ----- What every run keeps -----

  /** How many promises have their answer. */
  function Delivered<V, E>(slot: Slot<V, Status<E>>): int {
    if slot.resolver.Some? && !slot.fulfilled then |slot.promises| - 1 else |slot.promises|
  }

  function Asked<V, E>(s: State<V, E>): int {
    |s.observed| + if s.consumer.Awaiting? then 1 else 0
  }

  /** The iterator has been resolved by the completion. */
  predicate Closing<V, E>(s: State<V, E>) {
    s.loop == Completing || s.completion == Completed
  }

  /** The slot is at most one ahead of the consumer, or the consumer one ahead of the slot. */
  ghost predicate SlotFits<V, E>(s: State<V, E>) {
    var n := Delivered(s.slot);
    && Consistent(s.slot)
    && (forall i | 0 <= i < n :: s.slot.promises[i].Some?)
    && Asked(s) == (if s.slot.resolver.None? then n else if s.slot.fulfilled then n - 1 else n + 1)
    && (s.slot.resolver.Some? ==> s.slot.resolver.value == |s.slot.promises| - 1)
    && (s.consumer.Awaiting? ==> s.consumer.promise == |s.observed|)
  }

  /** What was observed is what the first promises were settled with, in order. */
  ghost predicate ObservedFits<V, E>(s: State<V, E>) {
    && |s.observed| <= Delivered(s.slot) <= |s.slot.promises|
    && (forall i | 0 <= i < |s.observed| :: s.slot.promises[i] == Some(s.observed[i]))
    && (s.consumer != Over ==> forall i | 0 <= i < |s.observed| :: s.observed[i].Item?)
    && (s.consumer == Over ==> Closing(s) && |s.observed| == Delivered(s.slot))
  }

  /** How many values have been delivered. */
  function Items<V, E>(s: State<V, E>): int {
    Delivered(s.slot) - if Closing(s) then 1 else 0
  }

  /** The promises got the values in order, and at the end the completion's answer. */
  ghost predicate AnswersFit<V, E>(s: State<V, E>) {
    && 0 <= Items(s) <= |s.values| && Delivered(s.slot) <= |s.slot.promises|
    && (forall i | 0 <= i < Items(s) :: s.slot.promises[i] == Some(Item(s.values[i])))
    && (Closing(s) ==>
          && s.worker.Finished?
          && LastAnswer<V, E>(s.worker.outcome).Some?
          && s.slot.promises[Items(s)] == LastAnswer<V, E>(s.worker.outcome))
  }

  /** While the worker's future is open, a value lies in the slot; it breaks only by a release. */
  predicate HandOverFits<V, E>(slot: Slot<V, E>) {
    && (slot.consume == Unset ==> slot.fulfilled && !slot.released)
    && (slot.consume == Broken ==> slot.released)
  }

  /** Between hand-overs: every call so far has delivered its value, unless one threw. */
  predicate CallsFit<V, E>(s: State<V, E>, calls: nat) {
    && Items(s) <= calls
    && (s.exception.None? ==> Items(s) == calls)
    && (s.slot.fulfilled ==> s.slot.released)
  }

  /** Where the worker is against what has been delivered. */
  ghost predicate WorkerFits<V, E>(s: State<V, E>) {
    && (s.exception.Some? ==> s.slot.released)
    && (s.loop == Yielding ==> s.worker.Posted?)
    && match s.worker
       case InLibrary(calls) => calls <= |s.values| && CallsFit(s, calls)
       case Posted(calls) =>
         && calls < |s.values|
         && if s.loop == Yielding then Items(s) == calls + 1 && s.exception.None? && HandOverFits(s.slot)
            else CallsFit(s, calls)
       case Handed(calls) =>
         calls < |s.values| && Items(s) == calls + 1 && s.exception.None? && HandOverFits(s.slot)
       case Faulted(calls) => calls < |s.values| && Items(s) <= calls && s.slot.released
       case Finished(sent, outcome) =>
         && Items(s) <= sent <= |s.values|
         && (s.exception.None? ==> Items(s) == sent)
         && (outcome == Returned ==> sent == |s.values|)
         && (outcome.Threw? ==> outcome.status != NoError)
         && (outcome.Rethrown? <==> s.exception.Some?)
         && (!Closing(s) && s.slot.fulfilled ==> s.slot.released)
  }

  ghost predicate CompletionFits<V, E>(s: State<V, E>) {
    && (s.loop == Completing ==> s.completion == Pending)
    && (s.completion != Pending ==> s.worker.Finished?)
    && (s.completion == Escaped ==> s.slot.released)
  }

  ghost predicate Invariant<V, E>(s: State<V, E>) {
    SlotFits(s) && ObservedFits(s) && AnswersFit(s) && WorkerFits(s) && CompletionFits(s)
  }

  lemma RunAsyncKeeps<V, E>(s: State<V, E>)
    requires Invariant(s) && Enabled(s, RunAsync)
    ensures Invariant(Step(s, RunAsync))
  {
  }

  lemma AfterWorkKeeps<V, E>(s: State<V, E>)
    requires Invariant(s) && Enabled(s, AfterWork)
    ensures Invariant(Step(s, AfterWork))
  {
  }

  lemma WorkerKeeps<V, E>(s: State<V, E>, move: Move<E>)
    requires Invariant(s) && Enabled(s, move) && (move.Send? || move.WorkerGet? || move.Finish?)
    ensures Invariant(Step(s, move))
  {
  }

  lemma EndMicrotasksKeeps<V, E>(s: State<V, E>)
    requires Invariant(s) && Enabled(s, EndMicrotasks)
    ensures Invariant(Step(s, EndMicrotasks))
  {
    assert Closing(Step(s, EndMicrotasks)) == Closing(s);
  }

  lemma NextKeeps<V, E>(s: State<V, E>)
    requires Invariant(s) && Enabled(s, Next)
    ensures Invariant(Step(s, Next))
  {
  }

  lemma ObserveKeeps<V, E>(s: State<V, E>)
    requires Invariant(s) && Enabled(s, Observe)
    ensures Invariant(Step(s, Observe))
  {
  }

  lemma ReleaseKeeps<V, E>(s: State<V, E>)
    requires Invariant(s) && Enabled(s, Release)
    ensures Invariant(Step(s, Release))
  {
  }

  lemma StepKeepsInvariant<V, E>(s: State<V, E>, move: Move<E>)
    requires Invariant(s)
    ensures Invariant(Step(s, move))
  {
    if Enabled(s, move) {
      match move
      case RunAsync => RunAsyncKeeps(s);
      case AfterWork => AfterWorkKeeps(s);
      case EndMicrotasks => EndMicrotasksKeeps(s);
      case Next => NextKeeps(s);
      case Observe => ObserveKeeps(s);
      case Release => ReleaseKeeps(s);
      case _ => WorkerKeeps(s, move);
    }
  }

  lemma {:induction false} RunKeepsInvariant<V, E>(s: State<V, E>, moves: seq<Move<E>>)
    requires Invariant(s)
    ensures Invariant(Run(s, moves))
    decreases |moves|
  {
    if moves != [] {
      StepKeepsInvariant(s, moves[0]);
      RunKeepsInvariant(Step(s, moves[0]), moves[1..]);
    }
  }

  /** Short of an exception, the work ends with exactly what the library returned. */
  lemma FinishCarriesStatus<V, E>(s: State<V, E>, status: Status<E>)
    requires Invariant(s) && Enabled(s, Finish(status)) && s.exception.None?
    ensures Step(s, Finish(status)).worker ==
            Finished(s.worker.calls, if status == NoError then Returned else Threw(status))
  {
  }

  /** The outcome, if it is no exception, is one the library returned among these moves. */
  predicate FromLibrary<E(==)>(worker: Worker<E>, moves: seq<Move<E>>) {
    match worker
    case Finished(_, Returned) => Finish(NoError) in moves
    case Finished(_, Threw(status)) => Finish(status) in moves
    case _ => true
  }

  lemma StepOutcome<V, E>(s: State<V, E>, move: Move<E>)
    requires Invariant(s) && !s.worker.Finished?
    ensures FromLibrary(Step(s, move).worker, [move])
  {
  }

  /** In every run the work ends, short of an exception, with what the library returned in that run. */
  lemma {:induction false} OutcomeIsTheLibrarys<V, E>(s: State<V, E>, moves: seq<Move<E>>)
    requires Invariant(s) && !s.worker.Finished?
    ensures FromLibrary(Run(s, moves).worker, moves)
    decreases |moves|
  {
    if moves != [] {
      var next := Step(s, moves[0]);
      StepKeepsInvariant(s, moves[0]);
      StepOutcome(s, moves[0]);
      if next.worker.Finished? {
        FinishedStays(next, moves[1..]);
      } else {
        OutcomeIsTheLibrarys(next, moves[1..]);
      }
    }
  }

  lemma FinishedStep<V, E>(s: State<V, E>, move: Move<E>)
    requires Invariant(s) && s.worker.Finished?
    ensures Step(s, move).worker == s.worker
  {
  }

  lemma {:induction false} FinishedStays<V, E>(s: State<V, E>, moves: seq<Move<E>>)
    requires Invariant(s) && s.worker.Finished?
    ensures Run(s, moves).worker == s.worker
    decreases |moves|
  {
    if moves != [] {
      StepKeepsInvariant(s, moves[0]);
      FinishedStep(s, moves[0]);
      FinishedStays(Step(s, moves[0]), moves[1..]);
    }
  }

  // ----- Nothing is lost, duplicated or reordered -----

  /**
   The values in order, then possibly the end after all of them, or the library's error after every
   value sent before it.
   */
  ghost predicate Faithful<V, E>(values: seq<V>, observed: seq<Answer<V, Status<E>>>, worker: Worker<E>) {
    var last := |observed| - 1;
    && last <= |values|
    && (forall i | 0 <= i < last :: observed[i] == Item(values[i]))
    && (observed != [] ==>
          match observed[last]
          case Item(value) => last < |values| && value == values[last]
          case End => last == |values| && worker == Finished(last, Returned)
          case Failure(status) => status != NoError && worker == Finished(last, Threw(status)))
  }

  /** In every run, whatever the interleaving, the consumer sees a faithful part of the values. */
  lemma ObservedIsFaithful<V, E>(values: seq<V>, moves: seq<Move<E>>)
    ensures var s := Run(Initial<V, E>(values), moves); Faithful(values, s.observed, s.worker)
  {
    RunKeepsInvariant(Initial<V, E>(values), moves);
    InvariantIsFaithful(Run(Initial<V, E>(values), moves));
  }

  lemma InvariantIsFaithful<V, E>(s: State<V, E>)
    requires Invariant(s)
    ensures Faithful(s.values, s.observed, s.worker)
  {
    var last := |s.observed| - 1;
    forall i | 0 <= i < last
      ensures s.observed[i] == Item(s.values[i])
    {
      assert s.slot.promises[i] == Some(Item(s.values[i]));
    }
  }

  /** The consume promise is never set twice. */
  lemma ConsumedOnce<V, E>(values: seq<V>, moves: seq<Move<E>>)
    ensures Run(Initial<V, E>(values), moves).slot.consume != SetTwice
  {
  }

  /** Whenever resolve is about to be called, it throws exactly when the iterator was released. */
  lemma ThrowsOnlyReleased<V, E>(values: seq<V>, moves: seq<Move<E>>, answer: Answer<V, Status<E>>)
    ensures var s := Run(Initial<V, E>(values), moves);
            Enabled(s, RunAsync) || Enabled(s, AfterWork) ==>
              && (BeginResolve(s.slot, answer).Began? <==> !s.slot.released)
              && (BeginResolve(s.slot, answer).AlreadyWaiting? ==> s.slot.released)
  {
    RunKeepsInvariant(Initial<V, E>(values), moves);
  }

  // ----- Progress -----

  function WorkerLeft<V, E>(s: State<V, E>): int {
    match s.worker
    case InLibrary(calls) => 4 * (|s.values| - calls) + 3
    case Posted(calls) => 4 * (|s.values| - calls) + if s.loop == Yielding then 1 else 2
    case Handed(calls) => 4 * (|s.values| - calls)
    case Faulted(calls) => 4 * (|s.values| - calls)
    case Finished(_, _) => if s.loop == Completing then 1 else if s.completion == Pending then 2 else 0
  }

  function ConsumerLeft<V, E>(s: State<V, E>): int {
    if s.consumer == Over then 0 else 2 * (|s.values| + 1) - |s.observed| - Asked(s)
  }

  /** An upper bound on the moves that can still be made. */
  function Measure<V, E>(s: State<V, E>): int {
    WorkerLeft(s) + ConsumerLeft(s) + if s.slot.released then 0 else 1
  }

  lemma MeasureIsNatural<V, E>(s: State<V, E>)
    requires Invariant(s)
    ensures Measure(s) >= 0
  {
    if Closing(s) && |s.observed| == Delivered(s.slot) {
      assert !s.observed[Items(s)].Item?;
    }
  }

  /** The moves of the worker and the loop, which need no consumer. */
  predicate IsWork<E>(move: Move<E>) {
    !(move.Next? || move.Observe? || move.Release?)
  }

  lemma WorkRunsOut<V, E>(s: State<V, E>, move: Move<E>)
    requires Invariant(s) && Enabled(s, move) && IsWork(move)
    ensures var t := Step(s, move);
            WorkerLeft(t) < WorkerLeft(s) && ConsumerLeft(t) == ConsumerLeft(s) && t.slot.released == s.slot.released
  {
  }

  lemma ConsumerRunsOut<V, E>(s: State<V, E>, move: Move<E>)
    requires Invariant(s) && Enabled(s, move) && (move.Next? || move.Observe?)
    ensures var t := Step(s, move);
            WorkerLeft(t) == WorkerLeft(s) && ConsumerLeft(t) < ConsumerLeft(s) && t.slot.released == s.slot.released
  {
    StepKeepsInvariant(s, move);
    MeasureIsNatural(s);
  }

  /** Every move that is made uses up part of the measure. */
  lemma MovesRunOut<V, E>(s: State<V, E>, move: Move<E>)
    requires Invariant(s) && Enabled(s, move)
    ensures Measure(Step(s, move)) < Measure(s)
  {
    if IsWork(move) {
      WorkRunsOut(s, move);
    } else if !move.Release? {
      ConsumerRunsOut(s, move);
    }
  }

  function MovesMade<V, E>(s: State<V, E>, moves: seq<Move<E>>): nat
    requires Consistent(s.slot)
    decreases |moves|
  {
    if moves == [] then 0
    else (if Enabled(s, moves[0]) then 1 else 0) + MovesMade(Step(s, moves[0]), moves[1..])
  }

  lemma {:induction false} MovesAreBounded<V, E>(s: State<V, E>, moves: seq<Move<E>>)
    requires Invariant(s)
    ensures MovesMade(s, moves) <= Measure(s)
    decreases |moves|
  {
    MeasureIsNatural(s);
    if moves != [] {
      StepKeepsInvariant(s, moves[0]);
      if Enabled(s, moves[0]) {
        MovesRunOut(s, moves[0]);
      }
      MovesAreBounded(Step(s, moves[0]), moves[1..]);
    }
  }

  /** For n values no run makes more than 6 n + 6 moves. */
  lemma RunsAreShort<V, E>(values: seq<V>, moves: seq<Move<E>>)
    ensures MovesMade(Initial<V, E>(values), moves) <= 6 * |values| + 6
  {
    MovesAreBounded(Initial<V, E>(values), moves);
  }

  ghost predicate CanWork<V, E(!new)>(s: State<V, E>) {
    exists move: Move<E> :: IsWork(move) && Enabled(s, move)
  }

  /** Either the work goes on by itself, or it is over, or a value waits to be asked for. */
  lemma WorkGoesOn<V, E(!new)>(s: State<V, E>)
    requires Invariant(s)
    ensures CanWork(s)
         || (s.loop == Idle && s.completion != Pending)
         || (s.worker.Handed? && s.slot.fulfilled && !s.slot.released)
  {
    var move: Move<E> :=
      if s.loop != Idle then EndMicrotasks
      else
        match s.worker
        case InLibrary(calls) => if calls < |s.values| then Send else Finish(NoError)
        case Posted(_) => RunAsync
        case Handed(_) => WorkerGet
        case Faulted(_) => WorkerGet
        case Finished(_, _) => AfterWork;
    assert IsWork(move);
  }

  /** No deadlock: short of the last answer observed, something other than a release can happen. */
  lemma NoDeadlock<V, E(!new)>(values: seq<V>, moves: seq<Move<E>>)
    ensures var s := Run(Initial<V, E>(values), moves);
            || CanWork(s) || Enabled(s, Next) || Enabled(s, Observe)
            || s.slot.released
            || (s.completion == Completed && s.consumer == Over)
  {
    RunKeepsInvariant(Initial<V, E>(values), moves);
    WorkGoesOn(Run(Initial<V, E>(values), moves));
  }

  /** When a run of an iterator that was not released has stopped, everything sent has been observed. */
  lemma StoppedMeansAllObserved<V, E(!new)>(values: seq<V>, moves: seq<Move<E>>)
    ensures var s := Run(Initial<V, E>(values), moves);
            !s.slot.released && !CanWork(s) && !Enabled(s, Next) && !Enabled(s, Observe) ==>
              match s.worker
              case Finished(sent, Returned) => s.observed == Wrapped<V, E>(values) + [End]
              case Finished(sent, Threw(status)) =>
                sent <= |values| && s.observed == Wrapped<V, E>(values[..sent]) + [Failure(status)]
              case _ => false
  {
    NoDeadlock(values, moves);
    RunKeepsInvariant(Initial<V, E>(values), moves);
    var s := Run(Initial<V, E>(values), moves);
    if s.completion == Completed && s.consumer == Over && !s.slot.released {
      OverMeansAllObserved(s);
    }
  }

  lemma OverMeansAllObserved<V, E>(s: State<V, E>)
    requires Invariant(s) && s.consumer == Over
    ensures s.worker.Finished? && s.worker.sent <= |s.values|
    ensures LastAnswer<V, E>(s.worker.outcome).Some?
    ensures s.observed == Wrapped<V, E>(s.values[..s.worker.sent]) + [LastAnswer<V, E>(s.worker.outcome).value]
    ensures s.worker.outcome.Returned? ==> s.values[..s.worker.sent] == s.values
  {
    InvariantIsFaithful(s);
  }

  function Wrapped<V, E>(values: seq<V>): seq<Answer<V, Status<E>>> {
    seq(|values|, i requires 0 <= i < |values| => Item(values[i]))
  }

  // ----- After a release -----

  /** Once the iterator is released the worker and the loop come to an end without the consumer. */
  lemma ReleasedWorkEnds<V, E(!new)>(values: seq<V>, moves: seq<Move<E>>)
    ensures var s := Run(Initial<V, E>(values), moves);
            s.slot.released && !CanWork(s) ==> s.worker.Finished? && s.completion != Pending
  {
    RunKeepsInvariant(Initial<V, E>(values), moves);
    WorkGoesOn(Run(Initial<V, E>(values), moves));
  }

  /** A value is in the slot and nobody has asked for it: the worker waits for it, or is about to. */
  predicate Open<V, E>(s: State<V, E>) {
    (s.loop == Yielding || s.worker.Handed?) && s.slot.consume == Unset
  }

  /** The exception is on record, or on its way to the worker. */
  predicate Doomed<V, E>(s: State<V, E>) {
    && s.slot.released
    && (|| s.exception.Some?
        || s.worker.Faulted?
        || (s.worker.Posted? && (s.loop == Idle || s.slot.consume == Broken))
        || (s.worker.Handed? && s.slot.consume == Broken))
  }

  /** A release breaks off the hand-over that is open, also in the middle of the microtasks. */
  lemma ReleaseBreaksOff<V, E>(s: State<V, E>)
    requires Invariant(s) && Open(s)
    ensures Enabled(s, Release) && Doomed(Step(s, Release))
    ensures s.worker.Handed? ==>
              var t := Step(s, Release);
              !Enabled(s, WorkerGet) && Enabled(t, WorkerGet) && Step(t, WorkerGet).exception == Some(RuntimeError)
    ensures s.loop == Yielding ==>
              var t := Step(Step(s, Release), EndMicrotasks);
              Enabled(t, WorkerGet) && Step(t, WorkerGet).exception == Some(RuntimeError)
  {
  }

  /** So does every value sent after a release. */
  lemma SendAfterRelease<V, E>(s: State<V, E>)
    requires Invariant(s) && s.slot.released && Enabled(s, Send)
    ensures Doomed(Step(s, Send))
  {
  }

  lemma StepKeepsDoomed<V, E>(s: State<V, E>, move: Move<E>)
    requires Invariant(s) && Doomed(s)
    ensures Doomed(Step(s, move))
  {
  }

  /** From there on, in every run, the work can only end by throwing the exception. */
  lemma {:induction false} DoomedWorkThrows<V, E>(s: State<V, E>, moves: seq<Move<E>>)
    requires Invariant(s) && Doomed(s)
    ensures var t := Run(s, moves);
            Doomed(t) && (t.worker.Finished? ==> t.worker.outcome.Rethrown?)
    decreases |moves|
  {
    RunKeepsInvariant(s, moves);
    if moves != [] {
      StepKeepsInvariant(s, moves[0]);
      StepKeepsDoomed(s, moves[0]);
      DoomedWorkThrows(Step(s, moves[0]), moves[1..]);
    }
  }

  /** Every value sent after a release throws, and no promise is settled any more. */
  lemma ReleasedDeliversNothing<V, E>(s: State<V, E>, move: Move<E>)
    requires Invariant(s) && s.slot.released
    ensures var t := Step(s, move);
            && t.slot == s.slot
            && (Enabled(s, RunAsync) ==> Step(s, RunAsync).worker.Faulted?)
            && (s.worker.Faulted? ==> Step(s, WorkerGet).exception == Some(RuntimeError))
  {
  }

  lemma ExceptionStays<V, E>(s: State<V, E>, move: Move<E>)
    requires Invariant(s) && s.exception.Some?
    ensures Step(s, move).exception.Some?
  {
  }

  /** After a callback threw, whatever else the library calls or returns, the work ends by throwing. */
  lemma {:induction false} ExceptionComesOut<V, E>(s: State<V, E>, moves: seq<Move<E>>)
    requires Invariant(s) && s.exception.Some?
    ensures var t := Run(s, moves);
            t.exception.Some? && (t.worker.Finished? ==> t.worker.outcome.Rethrown?)
    decreases |moves|
  {
    RunKeepsInvariant(s, moves);
    if moves != [] {
      StepKeepsInvariant(s, moves[0]);
      ExceptionStays(s, moves[0]);
      ExceptionComesOut(Step(s, moves[0]), moves[1..]);
    }
  }

  /** The completion lets an exception escape exactly when the iterator was released before it. */
  lemma EscapesExactlyWhen<V, E>(s: State<V, E>)
    requires Invariant(s) && Enabled(s, AfterWork)
    ensures Step(s, AfterWork).completion == Escaped <==> s.slot.released
  {
  }

  /** A run in which it does: the library returns, the iterator is collected, the completion follows. */
  lemma AnEscape()
    ensures Run(Initial<int, int>([]), [Finish(NoError), Release, AfterWork]).completion == Escaped
  {
    var s0 := Initial<int, int>([]);
    var moves: seq<Move<int>> := [Finish(NoError), Release, AfterWork];
    var s1 := Step(s0, Finish(NoError));
    var s2 := Step(s1, Release);
    var s3 := Step(s2, AfterWork);
    assert moves[1..] == [Release, AfterWork] && moves[1..][1..] == [AfterWork] && moves[1..][1..][1..] == [];
    assert Run(s2, [AfterWork]) == Run(s3, []);
  }

  /** The work is completed once, after its body has set the outcome, and that outcome then stays. */
  lemma CompletesOnce<V, E>(s: State<V, E>, move: Move<E>)
    requires Invariant(s)
    ensures var t := Step(s, move);
            && (t.completion != Pending ==> t.worker.Finished? && !Enabled(t, AfterWork))
            && (s.completion != Pending ==> t.completion == s.completion && t.worker == s.worker)
            && (s.worker.Finished? ==> t.worker == s.worker)
  {
    StepKeepsInvariant(s, move);
  }
}
