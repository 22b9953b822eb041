/**
 A promise, its shared state and one getter. Each critical section of the shared state's mutex is a
 step; the destructor of a promise takes two, since it tests availability and sets the exception
 under separate locks.
 */
module Future {
  import opened Types

  datatype Outcome<T> = Value(value: T) | Exception(code: nat)

  /** The exception a destroyed promise leaves behind. */
  const BROKEN_PROMISE := 0

  /** A blocked getter waits on the condition variable until it is notified. */
  datatype Getter<T> = Idle | Blocked(notified: bool) | Returned(outcome: Outcome<T>)

  /**
   `slot` is the state and the value union, `assignments` counts how often it was set. `owner` is the
   promise object that has the shared state: a move passes it on, a completed destruction ends it.
   `aborted` records a second `set_value`, which asserts.
   */
  datatype State<T> = State(
    slot: Option<Outcome<T>>,
    assignments: nat,
    owner: Option<nat>,
    destroying: bool,
    promises: nat,
    getter: Getter<T>,
    aborted: bool)

  datatype Event<T> =
    | SetValue(promise: nat, value: T)
    | SetException(promise: nat, code: nat)
    | MoveFrom(promise: nat)
    | DestroyTest(promise: nat)
    | DestroySet(promise: nat)
    | Get
    | Wake

  function Init<T>(): State<T> {
    State(None, 0, Some(0), false, 1, Idle, false)
  }

  /** Assigns the slot and notifies one waiter. */
  function Assign<T>(s: State<T>, outcome: Outcome<T>): State<T> {
    s.(slot := Some(outcome),
       assignments := s.assignments + 1,
       getter := if s.getter.Blocked? then Blocked(true) else s.getter)
  }

  /** One turn of the getter's loop: return if the slot is set, else wait. */
  function Check<T>(s: State<T>): State<T> {
    s.(getter := if s.slot.Some? then Returned(s.slot.value) else Blocked(false))
  }

  /** The promise has the shared state and is not being destroyed. */
  predicate Usable<T>(s: State<T>, promise: nat) {
    s.owner == Some(promise) && !s.destroying
  }

  /** A step of an object that cannot take it changes nothing. A waiter may wake without being notified. */
  function Step<T>(s: State<T>, e: Event<T>): State<T> {
    match e
    case SetValue(promise, value) =>
      if !Usable(s, promise) then s
      else if s.slot.Some? then s.(aborted := true)
      else Assign(s, Value(value))
    case SetException(promise, code) =>
      if Usable(s, promise) then Assign(s, Exception(code)) else s
    case MoveFrom(promise) =>
      if Usable(s, promise) then s.(owner := Some(s.promises), promises := s.promises + 1) else s
    case DestroyTest(promise) =>
      if !Usable(s, promise) then s
      else if s.slot.Some? then s.(owner := None)
      else s.(destroying := true)
    case DestroySet(promise) =>
      if s.owner == Some(promise) && s.destroying
      then Assign(s, Exception(BROKEN_PROMISE)).(owner := None, destroying := false)
      else s
    case Get => if s.getter.Idle? then Check(s) else s
    case Wake => if s.getter.Blocked? then Check(s) else s
  }

  function Run<T>(s: State<T>, events: seq<Event<T>>): State<T>
    decreases |events|
  {
    if events == [] then s else Run(Step(s, events[0]), events[1..])
  }

  /** `set_exception`, which has no assertion of its own, is called on a promise without an outcome. */
  ghost predicate Disciplined<T>(s: State<T>, events: seq<Event<T>>)
    decreases |events|
  {
    events == [] ||
    ((events[0].SetException? && Usable(s, events[0].promise) ==> s.slot.None?) &&
     Disciplined(Step(s, events[0]), events[1..]))
  }

  ghost predicate Inv<T>(s: State<T>) {
    && s.assignments == (if s.slot.Some? then 1 else 0)
    && (s.owner.None? ==> s.slot.Some?)
    && (s.destroying ==> s.owner.Some? && s.slot.None?)
    && (s.getter.Blocked? && !s.getter.notified ==> s.slot.None?)
    && (s.getter.Returned? ==> s.slot == Some(s.getter.outcome))
    && (s.owner.Some? ==> s.owner.value < s.promises)
  }

  /** Outcomes are final: neither the slot nor what the getter returned changes once set. */
  ghost predicate Extends<T>(s: State<T>, t: State<T>) {
    && (s.slot.Some? ==> t.slot == s.slot)
    && (s.getter.Returned? ==> t.getter == s.getter)
    && s.assignments <= t.assignments
  }

  lemma StepKeeps<T>(s: State<T>, e: Event<T>)
    requires Inv(s) && (e.SetException? && Usable(s, e.promise) ==> s.slot.None?)
    ensures Inv(Step(s, e)) && Extends(s, Step(s, e))
  {
  }

  lemma {:induction false} RunKeeps<T>(s: State<T>, events: seq<Event<T>>)
    requires Inv(s) && Disciplined(s, events)
    ensures Inv(Run(s, events)) && Extends(s, Run(s, events))
    decreases |events|
  {
    if events != [] {
      StepKeeps(s, events[0]);
      RunKeeps(Step(s, events[0]), events[1..]);
    }
  }

  /**
   In every interleaving: the state is assigned at most once, and exactly once when the promise is
   gone; a getter blocked without a notification on its way has a promise that is alive and unset,
   so no wakeup is lost; and the getter returns the one outcome that was assigned.
   */
  lemma EveryRun<T>(events: seq<Event<T>>)
    requires Disciplined(Init(), events)
    ensures var s := Run(Init(), events);
      && s.assignments <= 1
      && (s.owner.None? ==> s.assignments == 1)
      && (s.getter.Blocked? && !s.getter.notified ==> s.owner.Some? && s.slot.None?)
      && (s.getter.Blocked? && s.slot.Some? ==> Step(s, Wake).getter == Returned(s.slot.value))
      && (s.getter.Returned? ==> s.slot == Some(s.getter.outcome))
  {
    RunKeeps(Init(), events);
  }

  lemma {:induction false} AssignedGrows<T>(s: State<T>, events: seq<Event<T>>)
    ensures Run(s, events).assignments >= s.assignments
    decreases |events|
  {
    if events != [] {
      AssignedGrows(Step(s, events[0]), events[1..]);
    }
  }

  /** A single assignment is guaranteed exactly by not calling `set_exception` on a promise with an outcome. */
  lemma {:induction false} SingleAssignmentExactly<T>(s: State<T>, events: seq<Event<T>>)
    requires Inv(s)
    ensures Run(s, events).assignments <= 1 <==> Disciplined(s, events)
    decreases |events|
  {
    if events != [] {
      var e := events[0];
      if e.SetException? && Usable(s, e.promise) && s.slot.Some? {
        AssignedGrows(Step(s, e), events[1..]);
      } else {
        StepKeeps(s, e);
        SingleAssignmentExactly(Step(s, e), events[1..]);
      }
    }
  }

  /** A getter that starts or wakes once an outcome is there, or has already returned, ends with that outcome. */
  lemma GetterSees<T>(s: State<T>, events: seq<Event<T>>)
    requires Inv(s) && s.slot.Some? && Disciplined(s, events)
    ensures Step(Step(Run(s, events), Get), Wake).getter == Returned(s.slot.value)
  {
    RunKeeps(s, events);
  }

  /** Whoever sets the value first, a getter that then runs returns it: set, any steps, get, wake. */
  lemma SetThenGet<T>(s: State<T>, promise: nat, value: T, events: seq<Event<T>>)
    requires Inv(s) && Usable(s, promise) && s.slot.None?
    requires Disciplined(Step(s, SetValue(promise, value)), events)
    ensures var t := Run(Step(s, SetValue(promise, value)), events);
      Step(Step(t, Get), Wake).getter == Returned(Value(value))
  {
    StepKeeps(s, SetValue(promise, value));
    GetterSees(Step(s, SetValue(promise, value)), events);
  }

  /** The same for an exception: the getter rethrows the one that was set. */
  lemma SetExceptionThenGet<T>(s: State<T>, promise: nat, code: nat, events: seq<Event<T>>)
    requires Inv(s) && Usable(s, promise) && s.slot.None?
    requires Disciplined(Step(s, SetException(promise, code)), events)
    ensures var t := Run(Step(s, SetException(promise, code)), events);
      Step(Step(t, Get), Wake).getter == Returned(Exception(code))
  {
    StepKeeps<T>(s, SetException(promise, code));
    GetterSees(Step(s, SetException(promise, code)), events);
  }

  /** Without the discipline: `set_exception` on a promise with an outcome replaces it, also for a later getter. */
  lemma ExceptionReplaces<T>(s: State<T>, promise: nat, code: nat)
    requires Usable(s, promise) && s.getter.Idle?
    ensures Step(Step(s, SetException(promise, code)), Get).getter == Returned(Exception(code))
  {
  }

  /** A second `set_value` asserts, and neither the outcome nor the getter sees it. */
  lemma SecondValueAsserts<T>(s: State<T>, promise: nat, value: T)
    requires Usable(s, promise) && s.slot.Some?
    ensures Step(s, SetValue(promise, value)) == s.(aborted := true)
  {
  }

  // ----- destruction -----

  /** Events of one promise object. */
  predicate Of<T>(e: Event<T>, promise: nat) {
    !e.Get? && !e.Wake? && e.promise == promise
  }

  /** A promise object without the shared state, for good: numbers are not used again. */
  ghost predicate Gone<T>(s: State<T>, promise: nat) {
    promise < s.promises && s.owner != Some(promise)
  }

  lemma {:induction false} StaysGone<T>(s: State<T>, promise: nat, events: seq<Event<T>>)
    requires Gone(s, promise)
    ensures Gone(Run(s, events), promise)
    decreases |events|
  {
    if events != [] {
      StaysGone(Step(s, events[0]), promise, events[1..]);
    }
  }

  /**
   Destroying a promise breaks it exactly when it has no outcome: the getter then gets the
   broken-promise exception, whatever other threads do before and after the second critical section.
   Afterwards nothing the object could still do has an effect.
   */
  lemma DestroyedPromise<T>(s: State<T>, promise: nat, between: seq<Event<T>>, after: seq<Event<T>>)
    requires Inv(s) && Usable(s, promise) && (forall e :: e in between ==> !Of(e, promise))
    requires Disciplined(Step(Run(Step(s, DestroyTest(promise)), between), DestroySet(promise)), after)
    ensures var t := Step(Run(Step(s, DestroyTest(promise)), between), DestroySet(promise));
      && t.owner.None?
      && t.slot == (if s.slot.Some? then s.slot else Some(Exception(BROKEN_PROMISE)))
      && Step(Step(Run(t, after), Get), Wake).getter == Returned(t.slot.value)
      && (forall e: Event<T> :: Of(e, promise) ==> Step(Run(t, after), e) == Run(t, after))
  {
    var tested := Step(s, DestroyTest(promise));
    StepKeeps(s, DestroyTest(promise));
    OnlyGetterMoves(tested, promise, between);
    RunKeeps(tested, between);
    var waited := Run(tested, between);
    StepKeeps(waited, DestroySet(promise));
    var t := Step(waited, DestroySet(promise));
    GetterSees(t, after);
    StaysGone(t, promise, after);
  }

  /** While a promise is being destroyed, or is gone, what is not of it moves only the getter. */
  lemma {:induction false} OnlyGetterMoves<T>(s: State<T>, promise: nat, events: seq<Event<T>>)
    requires s.owner == None || s.owner == Some(promise)
    requires forall e :: e in events ==> !Of(e, promise)
    ensures Disciplined(s, events)
    ensures Run(s, events) == s.(getter := Run(s, events).getter)
    decreases |events|
  {
    if events != [] {
      assert events[0] in events;
      OnlyGetterMoves(Step(s, events[0]), promise, events[1..]);
    }
  }

  // ----- moves -----

  /**
   A move hands the shared state to the new object, which can do all the old one could; nothing the
   old one does afterwards, its destruction included, has any effect, in any run.
   */
  lemma MovedFrom<T>(s: State<T>, promise: nat, events: seq<Event<T>>)
    requires Inv(s) && Usable(s, promise)
    ensures var t := Step(s, MoveFrom(promise));
      && Usable(t, s.promises) && s.promises != promise
      && t.slot == s.slot && t.getter == s.getter && t.assignments == s.assignments && t.aborted == s.aborted
      && (forall e: Event<T> :: Of(e, promise) ==> Step(Run(t, events), e) == Run(t, events))
  {
    StaysGone(Step(s, MoveFrom(promise)), promise, events);
  }

  /** A value set through the new object reaches the getter. */
  lemma MoveThenSet<T>(s: State<T>, promise: nat, value: T, events: seq<Event<T>>)
    requires Inv(s) && Usable(s, promise) && s.slot.None?
    requires Disciplined(Step(Step(s, MoveFrom(promise)), SetValue(s.promises, value)), events)
    ensures var t := Run(Step(Step(s, MoveFrom(promise)), SetValue(s.promises, value)), events);
      Step(Step(t, Get), Wake).getter == Returned(Value(value))
  {
    MovedFrom(s, promise, []);
    StepKeeps(s, MoveFrom(promise));
    SetThenGet(Step(s, MoveFrom(promise)), s.promises, value, events);
  }

  /** The shared state and its critical sections. */
  class FutureState<T(==)> {
    var slot: Option<Outcome<T>>
    var getter: Getter<T>
    var aborted: bool
    var owner: Option<nat>
    var destroying: bool
    var promises: nat
    ghost var assignments: nat

    ghost function View(): State<T>
      reads this
    {
      State(slot, assignments, owner, destroying, promises, getter, aborted)
    }

    constructor ()
      ensures View() == Init() && Inv(View())
    {
      slot, getter, aborted, owner, destroying, promises := None, Idle, false, Some(0), false, 1;
      assignments := 0;
    }

    method Notify()
      modifies this`getter
      ensures getter == if old(getter).Blocked? then Blocked(true) else old(getter)
    {
      if getter.Blocked? {
        getter := Blocked(true);
      }
    }

    method SetOutcome(outcome: Outcome<T>)
      modifies this`slot, this`getter, this`assignments
      ensures View() == Assign(old(View()), outcome)
    {
      slot := Some(outcome);
      assignments := assignments + 1;
      Notify();
    }

    method PromiseSetValue(promise: nat, value: T)
      requires Usable(View(), promise) && Inv(View())
      modifies this
      ensures View() == Step(old(View()), SetValue(promise, value))
      ensures Inv(View()) && Extends(old(View()), View())
      ensures slot == if old(slot).Some? then old(slot) else Some(Value(value))
      ensures aborted == (old(aborted) || old(slot).Some?)
    {
      if slot.Some? {
        aborted := true;
        return;
      }
      SetOutcome(Value(value));
    }

    /** No assertion here: an outcome that is already there is replaced. */
    method PromiseSetException(promise: nat, code: nat)
      requires Usable(View(), promise)
      modifies this
      ensures View() == Step(old(View()), SetException(promise, code))
      ensures slot == Some(Exception(code)) && owner == old(owner) && aborted == old(aborted)
      ensures old(slot).None? && Inv(old(View())) ==> Inv(View()) && Extends(old(View()), View())
    {
      SetOutcome(Exception(code));
    }

    /** Move construction: the number of the new promise object, which now has the shared state. */
    method MovePromise(promise: nat) returns (moved: nat)
      requires Usable(View(), promise) && Inv(View())
      modifies this`owner, this`promises
      ensures View() == Step(old(View()), MoveFrom(promise))
      ensures Inv(View()) && Usable(View(), moved) && moved != promise && Gone(View(), promise)
    {
      moved := promises;
      owner := Some(moved);
      promises := promises + 1;
    }

    /** The whole destructor, when no other step comes between its two critical sections. */
    method DestroyPromise(promise: nat)
      requires Usable(View(), promise) && Inv(View())
      modifies this
      ensures View() == Run(old(View()), [DestroyTest(promise), DestroySet(promise)])
      ensures Inv(View()) && owner.None? && Extends(old(View()), View())
      ensures slot == if old(slot).Some? then old(slot) else Some(Exception(BROKEN_PROMISE))
    {
      ghost var before := View();
      ghost var events: seq<Event<T>> := [DestroyTest(promise), DestroySet(promise)];
      assert events[1..] == [DestroySet(promise)] && events[1..][1..] == [];
      assert Run(before, events) == Run(Step(before, events[0]), events[1..]) ==
             Step(Step(before, events[0]), events[1]);
      if slot.None? {
        destroying := true;
        SetOutcome(Exception(BROKEN_PROMISE));
        destroying := false;
      }
      owner := None;
    }

    /** One turn of the loop in `get`; no outcome means the getter waits. */
    method TryGet() returns (outcome: Option<Outcome<T>>)
      requires !getter.Returned? && Inv(View())
      modifies this`getter
      ensures View() == Check(old(View()))
      ensures outcome == slot && (outcome.None? ==> getter == Blocked(false))
      ensures Inv(View())
    {
      outcome := slot;
      getter := if slot.Some? then Returned(slot.value) else Blocked(false);
    }
  }
}
