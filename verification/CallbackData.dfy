/** Carrying a C++ exception from a callback across the C library and out of the call again. */
module CallbackData {
  import opened Options

  /** What a C function of the library returns. */
  datatype Status<E> = NoError | Cancelled | Error(error: E)

  /** How a checked call ends for the C++ caller. */
  datatype Checked<X, E> = Returned | Rethrown(exception: X) | Threw(status: Status<E>)

  function Record<X>(exception: Option<X>, outcome: Option<X>): Option<X> {
    if outcome.Some? then outcome else exception
  }

  /** The exception on record after callbacks that ended with these outcomes. */
  function Recorded<X>(exception: Option<X>, outcomes: seq<Option<X>>): Option<X>
    decreases |outcomes|
  {
    if outcomes == [] then exception
    else Recorded(Record(exception, outcomes[0]), outcomes[1..])
  }

  function Check<X, E>(exception: Option<X>, status: Status<E>): Checked<X, E> {
    if exception.Some? then Rethrown(exception.value)
    else if status != NoError then Threw(status)
    else Returned
  }

  class Data<X, E(==)> {
    var exception: Option<X>

    constructor ()
      ensures exception == None
    {
      exception := None;
    }

    /** The callback either returns (None) or throws; either way C sees a status only. */
    method Invoke(outcome: Option<X>) returns (status: Status<E>)
      modifies this
      ensures exception == Record(old(exception), outcome)
      ensures status == if outcome.Some? then Cancelled else NoError
    {
      if outcome.Some? {
        exception := outcome;
        return Cancelled;
      }
      return NoError;
    }

    /** A recorded exception first; otherwise the very error the library returned. */
    method CheckResult(status: Status<E>) returns (r: Checked<X, E>)
      ensures r == Check(exception, status)
      ensures exception.Some? ==> r == Rethrown(exception.value)
      ensures exception.None? && status != NoError ==> r == Threw(status)
      ensures exception.None? && status == NoError ==> r == Returned
    {
      if exception.Some? {
        return Rethrown(exception.value);
      }
      if status != NoError {
        return Threw(status);
      }
      return Returned;
    }

    /** A library call: its callbacks, however it chooses to go on after them, and its status. */
    method Call(outcomes: seq<Option<X>>, status: Status<E>) returns (r: Checked<X, E>)
      modifies this
      ensures exception == Recorded(old(exception), outcomes)
      ensures r == Check(exception, status)
      ensures old(exception).None? && NoneThrew(outcomes) ==> r == if status == NoError then Returned else Threw(status)
      ensures forall last: nat | LastThrew(outcomes, last) :: r == Rethrown(outcomes[last].value)
    {
      ghost var was := exception;
      for i := 0 to |outcomes|
        invariant Recorded(exception, outcomes[i..]) == Recorded(old(exception), outcomes)
      {
        var _ := Invoke(outcomes[i]);
      }
      r := CheckResult(status);
      if NoneThrew(outcomes) {
        NothingNewRecorded(was, outcomes);
      }
      forall last: nat | LastThrew(outcomes, last) ensures r == Rethrown(outcomes[last].value) {
        LastExceptionStays(was, outcomes, last);
      }
    }
  }

  predicate NoneThrew<X>(outcomes: seq<Option<X>>) {
    forall i | 0 <= i < |outcomes| :: outcomes[i].None?
  }

  predicate LastThrew<X>(outcomes: seq<Option<X>>, last: nat) {
    && last < |outcomes| && outcomes[last].Some?
    && forall i | last < i < |outcomes| :: outcomes[i].None?
  }

  /** If some callback threw, what is on record at the end is the exception of the last one that did. */
  lemma {:induction false} LastExceptionStays<X>(exception: Option<X>, outcomes: seq<Option<X>>, last: nat)
    requires LastThrew(outcomes, last)
    ensures Recorded(exception, outcomes) == outcomes[last]
    decreases |outcomes|
  {
    if last > 0 {
      var rest := outcomes[1..];
      forall i | last - 1 < i < |rest| ensures rest[i].None? { assert rest[i] == outcomes[i + 1]; }
      LastExceptionStays(Record(exception, outcomes[0]), rest, last - 1);
    } else {
      NothingNewRecorded(outcomes[0], outcomes[1..]);
    }
  }

  /** If none did, the record is as it was. */
  lemma {:induction false} NothingNewRecorded<X>(exception: Option<X>, outcomes: seq<Option<X>>)
    requires NoneThrew(outcomes)
    ensures Recorded(exception, outcomes) == exception
    decreases |outcomes|
  {
    if outcomes != [] {
      NothingNewRecorded(exception, outcomes[1..]);
    }
  }

  /**
   Whatever callbacks and status follow, a call returns normally exactly when no callback threw and
   the library reported no error.
   */
  lemma {:induction false} ReturnsExactlyWhen<X, E>(exception: Option<X>, outcomes: seq<Option<X>>, status: Status<E>)
    ensures Check(Recorded(exception, outcomes), status).Returned? <==>
            && exception.None?
            && (forall i | 0 <= i < |outcomes| :: outcomes[i].None?)
            && status == NoError
    decreases |outcomes|
  {
    if outcomes != [] {
      ReturnsExactlyWhen(Record(exception, outcomes[0]), outcomes[1..], status);
      assert outcomes == [outcomes[0]] + outcomes[1..];
    }
  }
}
