/**
 The one-slot hand-over between the event loop and the JavaScript consumer of an asynchronous
 iterator.  A slot holds at most one promise resolver: one that a `next` is waiting on, or one that
 was settled before anybody asked.
 */
module Iterable {
  import opened Options

  /** What a `next` promise is settled with. */
  datatype Answer<V, E> = Item(value: V) | End | Failure(error: E)

  /** The promise the worker's future hangs on; setting it twice is an error in C++. */
  datatype Consumed = Unset | Kept | Broken | SetTwice

  /** `promises` are the JavaScript promises made so far, each with its answer once it is settled. */
  datatype Slot<V, E> = Slot(
    promises: seq<Option<Answer<V, E>>>,
    resolver: Option<nat>,
    fulfilled: bool,
    released: bool,
    consume: Consumed)

  datatype Begun<V, E> = AlreadyWaiting | AlreadyReleased | Began(slot: Slot<V, E>)

  function Empty<V, E>(): Slot<V, E> {
    Slot([], None, false, false, Unset)
  }

  function Settle(consume: Consumed, how: Consumed): Consumed {
    if consume == Unset then how else SetTwice
  }

  ghost predicate Consistent<V, E>(s: Slot<V, E>) {
    && (s.resolver.Some? ==> s.resolver.value < |s.promises|)
    && (s.resolver.Some? ==> (s.promises[s.resolver.value].Some? <==> s.fulfilled))
    && (s.fulfilled ==> s.resolver.Some?)
    && (s.fulfilled && !s.released ==> s.consume == Unset)
    && s.consume != SetTwice
  }

  // ----- The three operations, up to the microtasks that resolve runs -----

  function BeginResolve<V, E>(s: Slot<V, E>, answer: Answer<V, E>): (r: Begun<V, E>)
    requires Consistent(s)
    ensures r.Began? ==> Consistent(r.slot)
  {
    if s.fulfilled then AlreadyWaiting
    else if s.released then AlreadyReleased
    else if s.resolver.None? then
      Began(Slot(s.promises + [Some(answer)], Some(|s.promises|), true, false, Unset))
    else
      Began(Slot(s.promises[s.resolver.value := Some(answer)], None, false, false, Settle(Unset, Kept)))
  }

  function NextCalled<V, E>(s: Slot<V, E>): (r: (Slot<V, E>, nat))
    requires Consistent(s) && !s.released
    ensures Consistent(r.0) && !r.0.released && r.1 < |r.0.promises|
  {
    if s.fulfilled then
      (s.(resolver := None, fulfilled := false, consume := Settle(s.consume, Kept)), s.resolver.value)
    else
      (s.(promises := s.promises + [None], resolver := Some(|s.promises|)), |s.promises|)
  }

  function Collected<V, E>(s: Slot<V, E>): (t: Slot<V, E>)
    requires Consistent(s) && !s.released
    ensures Consistent(t) && t.released
  {
    s.(released := true, consume := if s.fulfilled then Settle(s.consume, Broken) else s.consume)
  }

  /** What JavaScript can do to the iterator while microtasks run; nothing once it is collected. */
  datatype Turn = CallNext | Collect

  function Turned<V, E>(s: Slot<V, E>, turns: seq<Turn>): (t: Slot<V, E>)
    requires Consistent(s)
    ensures Consistent(t)
    decreases |turns|
  {
    if turns == [] || s.released then s
    else if turns[0] == CallNext then Turned(NextCalled(s).0, turns[1..])
    else Turned(Collected(s), turns[1..])
  }

  /** The future resolve returns, or the reason it throws. */
  datatype Resolution = Future(consume: Consumed) | ThrewWaiting | ThrewReleased

  // ----- The code -----

  class Iterator<V, E> {
    var promises: seq<Option<Answer<V, E>>>
    var resolver: Option<nat>
    var resolverFulfilled: bool
    var iteratorReleased: bool
    var consumePromise: Consumed

    ghost function AsSlot(): Slot<V, E>
      reads this
    {
      Slot(promises, resolver, resolverFulfilled, iteratorReleased, consumePromise)
    }

    ghost predicate Valid()
      reads this
    {
      Consistent(AsSlot())
    }

    constructor ()
      ensures Valid() && AsSlot() == Empty()
    {
      promises, resolver, resolverFulfilled, iteratorReleased, consumePromise := [], None, false, false, Unset;
    }

    /** Sets the promise the worker waits on; that it is still unset is for every caller to show. */
    method SetConsumePromise(how: Consumed)
      requires consumePromise == Unset && how != SetTwice
      modifies this`consumePromise
      ensures consumePromise == Settle(Unset, how)
    {
      consumePromise := how;
    }

    /** Called once, when the JavaScript object has been collected; nothing else is called on it after. */
    method Destructor()
      requires Valid() && !iteratorReleased
      modifies this
      ensures Valid() && AsSlot() == Collected(old(AsSlot()))
    {
      if resolverFulfilled {
        SetConsumePromise(Broken);
      }
      iteratorReleased := true;
    }

    /** JavaScript can only call it while it holds the object, so before the object is collected. */
    method Next() returns (promise: nat)
      requires Valid() && !iteratorReleased
      modifies this
      ensures Valid() && (AsSlot(), promise) == NextCalled(old(AsSlot()))
    {
      if resolverFulfilled {
        promise := resolver.value;
        resolver := None;
        resolverFulfilled := false;
        SetConsumePromise(Kept);
      } else {
        promise := |promises|;
        promises := promises + [None];
        resolver := Some(promise);
      }
    }

    method RunMicrotasks(turns: seq<Turn>)
      requires Valid()
      modifies this
      ensures Valid() && AsSlot() == Turned(old(AsSlot()), turns)
      decreases |turns|
    {
      if turns != [] && !iteratorReleased {
        if turns[0] == CallNext {
          var _ := Next();
        } else {
          Destructor();
        }
        RunMicrotasks(turns[1..]);
      }
    }

    /** `turns` is what JavaScript does in the microtasks, before the future is taken. */
    method Resolve(answer: Answer<V, E>, turns: seq<Turn>) returns (r: Resolution)
      requires Valid()
      modifies this
      ensures Valid()
      ensures match BeginResolve(old(AsSlot()), answer)
              case AlreadyWaiting => r == ThrewWaiting && AsSlot() == old(AsSlot())
              case AlreadyReleased => r == ThrewReleased && AsSlot() == old(AsSlot())
              case Began(slot) => AsSlot() == Turned(slot, turns) && r == Future(AsSlot().consume)
    {
      if resolverFulfilled {
        return ThrewWaiting;
      }
      if iteratorReleased {
        return ThrewReleased;
      }
      consumePromise := Unset;
      var promise: nat;
      if resolver.None? {
        promise := |promises|;
        promises := promises + [None];
        resolver := Some(promise);
        resolverFulfilled := true;
      } else {
        promise := resolver.value;
        resolver := None;
        SetConsumePromise(Kept);
      }
      promises := promises[promise := Some(answer)];
      assert promises == BeginResolve(old(AsSlot()), answer).slot.promises;
      RunMicrotasks(turns);
      return Future(consumePromise);
    }
  }

  // ----- What the worker's future says -----

  /**
   The future the worker gets is kept exactly when somebody was waiting or asked while the microtasks
   ran, broken exactly when the iterator was collected first, and open otherwise.
   */
  lemma FutureSays<V, E>(s: Slot<V, E>, answer: Answer<V, E>, turns: seq<Turn>)
    requires Consistent(s) && BeginResolve(s, answer).Began?
    ensures Turned(BeginResolve(s, answer).slot, turns).consume ==
            if s.resolver.Some? || (turns != [] && turns[0] == CallNext) then Kept
            else if turns != [] then Broken
            else Unset
  {
    var t := BeginResolve(s, answer).slot;
    if s.resolver.Some? {
      ConsumeStays(t, turns);
    } else if turns != [] && turns[0] == CallNext {
      ConsumeStays(NextCalled(t).0, turns[1..]);
    }
  }

  lemma {:induction false} ConsumeStays<V, E>(s: Slot<V, E>, turns: seq<Turn>)
    requires Consistent(s) && !s.fulfilled
    ensures Turned(s, turns).consume == s.consume && !Turned(s, turns).fulfilled
    decreases |turns|
  {
    if turns != [] && !s.released {
      ConsumeStays(if turns[0] == CallNext then NextCalled(s).0 else Collected(s), turns[1..]);
    }
  }

  // ----- Why the consumer must wait for one promise at a time -----

  datatype Op<V, E> = ResolveOp(answer: Answer<V, E>) | NextOp | CollectOp

  function Applied<V, E>(s: Slot<V, E>, op: Op<V, E>): (t: Slot<V, E>)
    requires Consistent(s)
    ensures Consistent(t)
  {
    match op
    case ResolveOp(answer) =>
      var r := BeginResolve(s, answer);
      if r.Began? then r.slot else s
    case NextOp => if s.released then s else NextCalled(s).0
    case CollectOp => if s.released then s else Collected(s)
  }

  function AppliedAll<V, E>(s: Slot<V, E>, ops: seq<Op<V, E>>): (t: Slot<V, E>)
    requires Consistent(s)
    ensures Consistent(t)
    decreases |ops|
  {
    if ops == [] then s else AppliedAll(Applied(s, ops[0]), ops[1..])
  }

  lemma {:induction false} ForgottenStaysOpen<V, E>(s: Slot<V, E>, promise: nat, ops: seq<Op<V, E>>)
    requires Consistent(s) && promise < |s.promises| && s.promises[promise].None? && s.resolver != Some(promise)
    ensures var t := AppliedAll(s, ops);
            promise < |t.promises| && t.promises[promise].None? && t.resolver != Some(promise)
    decreases |ops|
  {
    if ops != [] {
      ForgottenStaysOpen(Applied(s, ops[0]), promise, ops[1..]);
    }
  }

  /** Some promise is open that the slot no longer knows, so that nothing will ever settle it. */
  ghost predicate Forgotten<V, E>(s: Slot<V, E>) {
    exists p: nat | p < |s.promises| :: s.promises[p].None? && s.resolver != Some(p)
  }

  /** A `next` while an earlier one is unanswered. */
  predicate Overwrites<V, E>(s: Slot<V, E>, op: Op<V, E>) {
    op.NextOp? && !s.released && !s.fulfilled && s.resolver.Some?
  }

  predicate EverOverwrites<V, E>(s: Slot<V, E>, ops: seq<Op<V, E>>)
    requires Consistent(s)
    decreases |ops|
  {
    ops != [] && (Overwrites(s, ops[0]) || EverOverwrites(Applied(s, ops[0]), ops[1..]))
  }

  lemma StepForgetsExactlyWhen<V, E>(s: Slot<V, E>, op: Op<V, E>)
    requires Consistent(s) && !Forgotten(s)
    ensures Forgotten(Applied(s, op)) <==> Overwrites(s, op)
  {
    var t := Applied(s, op);
    if Overwrites(s, op) {
      assert t.promises[s.resolver.value].None? && t.resolver != s.resolver;
    } else {
      forall p: nat | p < |t.promises| && t.promises[p].None?
        ensures t.resolver == Some(p)
      {
        assert p < |s.promises| ==> s.promises[p] == t.promises[p];
      }
    }
  }

  /**
   Over any run of hand-overs, calls of `next` and a collection, a promise is forgotten exactly when
   some `next` is called while an earlier one is unanswered.
   */
  lemma {:induction false} ForgetsExactlyWhen<V, E>(s: Slot<V, E>, ops: seq<Op<V, E>>)
    requires Consistent(s) && !Forgotten(s)
    ensures Forgotten(AppliedAll(s, ops)) <==> EverOverwrites(s, ops)
    decreases |ops|
  {
    if ops != [] {
      StepForgetsExactlyWhen(s, ops[0]);
      var t := Applied(s, ops[0]);
      if Forgotten(t) {
        var p: nat :| p < |t.promises| && t.promises[p].None? && t.resolver != Some(p);
        ForgottenStaysOpen(t, p, ops[1..]);
      } else {
        ForgetsExactlyWhen(t, ops[1..]);
      }
    }
  }

  /** A second `next` before the first is answered: the first promise is never settled. */
  lemma SecondNextForgetsFirst<V, E>(s: Slot<V, E>, ops: seq<Op<V, E>>)
    requires Consistent(s) && !s.released && !s.fulfilled
    ensures var (asked, first) := NextCalled(s);
            var (again, second) := NextCalled(asked);
            var t := AppliedAll(again, ops);
            first != second && first < |t.promises| && t.promises[first].None?
  {
    var (asked, first) := NextCalled(s);
    ForgottenStaysOpen(NextCalled(asked).0, first, ops);
  }
}
