/**
 The once-initialiser of the SSL library: any number of threads, and any interleaving of their
 compare-and-swap steps.
 */
module OnceInit {
  datatype Mark = Uninitialized | Busy | Done

  /** Where a thread is: before its first swap, in the body, before its last swap, waiting, or back. */
  datatype Pc = Start | Body | Leaving | Spin | Returned

  datatype State = State(mark: Mark, threads: seq<Pc>, begun: nat, ended: nat)

  /** The old value decides what the caller does next; the new one is what others see. */
  function Cas(mark: Mark, with: Mark, cmp: Mark): Mark {
    if mark == cmp then with else mark
  }

  function Initial(n: nat): State {
    State(Uninitialized, seq(n, _ => Start), 0, 0)
  }

  /** One atomic step of thread i. */
  function Step(s: State, i: nat): (t: State)
    requires i < |s.threads|
    ensures |t.threads| == |s.threads|
  {
    match s.threads[i]
    case Start =>
      var val := s.mark;
      var swapped := s.(mark := Cas(s.mark, Busy, Uninitialized));
      if val == Uninitialized then swapped.(threads := s.threads[i := Body], begun := s.begun + 1)
      else if val != Done then swapped.(threads := s.threads[i := Spin])
      else swapped.(threads := s.threads[i := Returned])
    case Body =>
      s.(threads := s.threads[i := Leaving], ended := s.ended + 1)
    case Leaving =>
      s.(mark := Cas(s.mark, Done, Busy), threads := s.threads[i := Returned])
    case Spin =>
      var val := s.mark;
      var swapped := s.(mark := Cas(s.mark, Uninitialized, Uninitialized));
      if val != Done then swapped else swapped.(threads := s.threads[i := Returned])
    case Returned => s
  }

  predicate Schedule(turns: seq<nat>, n: nat) {
    forall k | 0 <= k < |turns| :: turns[k] < n
  }

  function Run(s: State, turns: seq<nat>): (t: State)
    requires Schedule(turns, |s.threads|)
    ensures |t.threads| == |s.threads|
    decreases |turns|
  {
    if turns == [] then s else Run(Step(s, turns[0]), turns[1..])
  }

  // ----- What every run keeps -----

  predicate Inside(pc: Pc) {
    pc == Body || pc == Leaving
  }

  ghost predicate Invariant(s: State) {
    match s.mark
    case Uninitialized =>
      s.begun == 0 && s.ended == 0 && forall i | 0 <= i < |s.threads| :: s.threads[i] == Start
    case Busy =>
      && s.begun == 1
      && (exists i | 0 <= i < |s.threads| :: Inside(s.threads[i]))
      && (forall i, j | 0 <= i < j < |s.threads| :: !(Inside(s.threads[i]) && Inside(s.threads[j])))
      && (forall i | 0 <= i < |s.threads| ::
            s.threads[i] != Returned && (Inside(s.threads[i]) ==> s.ended == if s.threads[i] == Body then 0 else 1))
    case Done =>
      s.begun == 1 && s.ended == 1 && forall i | 0 <= i < |s.threads| :: !Inside(s.threads[i])
  }

  lemma StepKeepsInvariant(s: State, i: nat)
    requires i < |s.threads| && Invariant(s)
    ensures Invariant(Step(s, i))
  {
    var t := Step(s, i);
    assert forall j | 0 <= j < |s.threads| && j != i :: t.threads[j] == s.threads[j];
    if s.mark == Uninitialized {
      assert Inside(t.threads[i]);
    } else if s.mark == Busy && s.threads[i] != Leaving {
      var owner :| 0 <= owner < |s.threads| && Inside(s.threads[owner]);
      assert Inside(t.threads[owner]);
    }
  }

  lemma {:induction false} RunKeepsInvariant(s: State, turns: seq<nat>)
    requires Schedule(turns, |s.threads|) && Invariant(s)
    ensures Invariant(Run(s, turns))
    decreases |turns|
  {
    if turns != [] {
      StepKeepsInvariant(s, turns[0]);
      RunKeepsInvariant(Step(s, turns[0]), turns[1..]);
    }
  }

  /**
   In every run the body begins at most once, and by the time any thread is back it has begun once,
   ended once, and the mark says so.
   */
  lemma BodyRunsOnce(n: nat, turns: seq<nat>, i: nat)
    requires i < n && Schedule(turns, n)
    ensures var s := Run(Initial(n), turns);
            && s.ended <= s.begun <= 1
            && (s.threads[i] == Returned ==> s.mark == Done && s.begun == 1 && s.ended == 1)
  {
    RunKeepsInvariant(Initial(n), turns);
    var s := Run(Initial(n), turns);
    if s.mark == Busy {
      var owner :| 0 <= owner < |s.threads| && Inside(s.threads[owner]);
    }
  }

  /** No two threads are in the body together. */
  lemma BodyIsExclusive(n: nat, turns: seq<nat>, i: nat, j: nat)
    requires i < j < n && Schedule(turns, n)
    ensures var s := Run(Initial(n), turns); !(Inside(s.threads[i]) && Inside(s.threads[j]))
  {
    RunKeepsInvariant(Initial(n), turns);
  }

  /** The mark moves from uninitialised to busy to done, one move at a time and never back. */
  lemma MarkMovesForward(n: nat, turns: seq<nat>, i: nat)
    requires i < n && Schedule(turns, n)
    ensures var s := Run(Initial(n), turns);
            var t := Step(s, i);
            || t.mark == s.mark
            || (s.mark == Uninitialized && t.mark == Busy)
            || (s.mark == Busy && t.mark == Done && s.ended == 1)
  {
    RunKeepsInvariant(Initial(n), turns);
  }

  // ----- Nobody waits for ever -----

  function Rank(pc: Pc): nat {
    match pc
    case Start => 0
    case Body => 1
    case Leaving => 2
    case Spin => 3
    case Returned => 4
  }

  ghost predicate AllAtLeast(s: State, k: nat) {
    forall i | 0 <= i < |s.threads| :: Rank(s.threads[i]) >= k
  }

  lemma StepGoesOn(s: State, i: nat, k: nat)
    requires i < |s.threads| && Invariant(s) && k < 4 && AllAtLeast(s, k)
    ensures var t := Step(s, i);
            && Rank(t.threads[i]) >= k + 1
            && forall j | 0 <= j < |s.threads| :: Rank(t.threads[j]) >= Rank(s.threads[j])
  {
    if k == 3 {
      assert forall j | 0 <= j < |s.threads| :: !Inside(s.threads[j]);
    }
  }

  /** Whoever had a turn, or was already there, is past rank k at the end. */
  lemma {:induction false} TurnsGoOn(s: State, turns: seq<nat>, k: nat)
    requires Schedule(turns, |s.threads|) && Invariant(s) && k < 4 && AllAtLeast(s, k)
    ensures var t := Run(s, turns);
            && Invariant(t)
            && forall j | 0 <= j < |s.threads| ::
                 Rank(t.threads[j]) >= k && (j in turns || Rank(s.threads[j]) > k ==> Rank(t.threads[j]) > k)
    decreases |turns|
  {
    if turns != [] {
      StepKeepsInvariant(s, turns[0]);
      StepGoesOn(s, turns[0], k);
      TurnsGoOn(Step(s, turns[0]), turns[1..], k);
    }
  }

  /** A stretch of the schedule that gives every thread a turn, in any order. */
  ghost predicate IsRound(turns: seq<nat>, n: nat) {
    Schedule(turns, n) && forall i: nat | i < n :: i in turns
  }

  lemma RoundGoesOn(s: State, turns: seq<nat>, k: nat)
    requires IsRound(turns, |s.threads|) && Invariant(s) && k < 4 && AllAtLeast(s, k)
    ensures var t := Run(s, turns); Invariant(t) && AllAtLeast(t, k + 1)
  {
    TurnsGoOn(s, turns, k);
    var t := Run(s, turns);
    forall j | 0 <= j < |t.threads| ensures Rank(t.threads[j]) >= k + 1 {
      assert j in turns;
    }
  }

  /** From any point of any run, four rounds bring every thread back. */
  lemma EveryThreadReturns(n: nat, before: seq<nat>, a: seq<nat>, b: seq<nat>, c: seq<nat>, d: seq<nat>, i: nat)
    requires i < n && Schedule(before, n) && IsRound(a, n) && IsRound(b, n) && IsRound(c, n) && IsRound(d, n)
    ensures Run(Run(Run(Run(Run(Initial(n), before), a), b), c), d).threads[i] == Returned
  {
    RunKeepsInvariant(Initial(n), before);
    var s := Run(Initial(n), before);
    RoundGoesOn(s, a, 0);
    RoundGoesOn(Run(s, a), b, 1);
    RoundGoesOn(Run(Run(s, a), b), c, 2);
    RoundGoesOn(Run(Run(Run(s, a), b), c), d, 3);
  }
}
