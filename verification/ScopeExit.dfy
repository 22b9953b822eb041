/** Scope guards: an action that runs when the guard is destroyed, unless it was released. */
module ScopeExit {

  datatype Guard<Action> = Guard(action: Action, run: bool)

  function Make<Action>(action: Action): Guard<Action> {
    Guard(action, true)
  }

  function Release<Action>(g: Guard<Action>): Guard<Action> {
    g.(run := false)
  }

  /** Move construction: the new guard is armed whatever the source was, and the source is disarmed. */
  function Move<Action>(g: Guard<Action>): (r: (Guard<Action>, Guard<Action>)) {
    (Guard(g.action, true), g.(run := false))
  }

  /** The actions run when the guards of a scope are destroyed: last constructed first. */
  function Destroyed<Action>(guards: seq<Guard<Action>>): seq<Action> {
    if guards == [] then []
    else
      var last := guards[|guards| - 1];
      (if last.run then [last.action] else []) + Destroyed(guards[..|guards| - 1])
  }

  lemma {:induction false} DestroyedAppend<Action>(a: seq<Guard<Action>>, b: seq<Guard<Action>>)
    ensures Destroyed(a + b) == Destroyed(b) + Destroyed(a)
    decreases |b|
  {
    if b == [] {
      assert a + b == a;
    } else {
      var n := |b| - 1;
      var last := if b[n].run then [b[n].action] else [];
      assert (a + b)[..|a| + n] == a + b[..n];
      DestroyedAppend(a, b[..n]);
      assert Destroyed(a + b) == last + (Destroyed(b[..n]) + Destroyed(a));
      assert Destroyed(b) == last + Destroyed(b[..n]);
    }
  }

  /**
   A moved guard and its source together run the action exactly once, so moving preserves what a
   scope does if and only if the guard had not been released: a move re-arms a released guard.
   */
  lemma MoveRunsOnce<Action>(before: seq<Guard<Action>>, g: Guard<Action>, after: seq<Guard<Action>>)
    ensures var (moved, source) := Move(g);
      && Destroyed([source, moved]) == [g.action]
      && (Destroyed(before + [source, moved] + after) == Destroyed(before + [g] + after) <==> g.run)
  {
    var (moved, source) := Move(g);
    assert [source, moved][..1] == [source] && [source][..0] == [] && [g][..0] == [];
    DestroyedAppend(before + [source, moved], after);
    DestroyedAppend(before, [source, moved]);
    DestroyedAppend(before + [g], after);
    DestroyedAppend(before, [g]);
    assert |Destroyed([source, moved])| == 1;
  }
}
