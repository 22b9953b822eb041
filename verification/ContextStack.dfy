/**
 The per-bthread stack of tracing contexts: a growable array that refines a sequence, with the
 detach rule and the amortised cost of growing.
 */
module ContextStack {

  /** The stack after detaching a token, and the result of the call. `none` is the default context. */
  datatype Detached<T> = Detached(stack: seq<T>, ok: bool)

  function Top<T>(stack: seq<T>, none: T): T {
    if stack == [] then none else stack[|stack| - 1]
  }

  /** The height of the topmost match. */
  function Topmost<T(==)>(stack: seq<T>, token: T): (i: nat)
    requires token in stack
    ensures i < |stack| && stack[i] == token
    ensures forall j :: i < j < |stack| ==> stack[j] != token
  {
    var n := |stack| - 1;
    if stack[n] == token then
      n
    else
      assert stack == stack[..n] + [stack[n]];
      Topmost(stack[..n], token)
  }

  lemma TopmostUnique<T>(stack: seq<T>, token: T, i: nat)
    requires i < |stack| && stack[i] == token && forall j :: i < j < |stack| ==> stack[j] != token
    ensures token in stack && Topmost(stack, token) == i
  {
  }

  /**
   What a detach does: cut the stack just below the topmost match. Without a match nothing changes
   and the call fails, except that the default context matches the top of an empty stack.
   */
  function Detach<T(==)>(stack: seq<T>, token: T, none: T): Detached<T> {
    if token in stack then Detached(stack[..Topmost(stack, token)], true)
    else Detached(stack, stack == [] && token == none)
  }

  /** The stack is unchanged on failure; and success without a change happens only in the empty case. */
  lemma DetachOutcome<T>(stack: seq<T>, token: T, none: T)
    ensures !Detach(stack, token, none).ok ==> Detach(stack, token, none).stack == stack
    ensures Detach(stack, token, none).ok <==> token in stack || (stack == [] && token == none)
    ensures token in stack ==> |Detach(stack, token, none).stack| < |stack|
  {
  }

  /**
   Detaching a token resets the stack to what it was before the attach, together with everything
   attached since, exactly when no equal context was attached again above it. Otherwise only the
   upper one goes, with what is above that.
   */
  lemma DetachRestores<T>(stack: seq<T>, token: T, above: seq<T>, none: T)
    ensures Detach(stack + [token] + above, token, none) == Detached(stack, true) <==> token !in above
    ensures token in above ==>
              Detach(stack + [token] + above, token, none) ==
                Detached(stack + [token] + above[..Topmost(above, token)], true)
  {
    var all := stack + [token] + above;
    assert all[|stack|] == token;
    assert forall j :: |stack| < j < |all| ==> all[j] == above[j - |stack| - 1];
    if token in above {
      var k := Topmost(above, token);
      var i := |stack| + 1 + k;
      assert all[i] == above[k];
      TopmostUnique(all, token, i);
      assert all[..i] == stack + [token] + above[..k];
      assert |all[..i]| != |stack|;
    } else {
      TopmostUnique(all, token, |stack|);
      assert all[..|stack|] == stack;
    }
  }

  /** Scopes of tracing spans: a context attached, the scopes inside it, and its detach. */
  datatype Scopes<T> = Done | Scope(context: T, inner: Scopes<T>, next: Scopes<T>)

  function RunScopes<T(==)>(stack: seq<T>, scopes: Scopes<T>, none: T): seq<T>
    decreases scopes
  {
    match scopes
    case Done => stack
    case Scope(context, inner, next) =>
      RunScopes(Detach(RunScopes(stack + [context], inner, none), context, none).stack, next, none)
  }

  /** Well-nested scopes leave the stack as they found it, equal contexts or not. */
  lemma {:induction false} NestedScopesRestore<T>(stack: seq<T>, scopes: Scopes<T>, none: T)
    ensures RunScopes(stack, scopes, none) == stack
    decreases scopes
  {
    match scopes
    case Done =>
    case Scope(context, inner, next) =>
      NestedScopesRestore(stack + [context], inner, none);
      DetachRestores(stack, context, [], none);
      assert stack + [context] + [] == stack + [context];
      NestedScopesRestore(stack, next, none);
  }

  class Stack<T(==)> {
    var size: nat
    var capacity: nat
    var base: array?<T>
    const none: T
    ghost var pushes: nat
    ghost var copies: nat

    /** The array holds the stack, and growing has cost at most two copies per push. */
    ghost predicate Valid()
      reads this, base
    {
      && (base == null <==> capacity == 0)
      && (base != null ==> base.Length == capacity)
      && size <= capacity
      && size <= pushes
      && copies <= capacity <= 2 * pushes
    }

    ghost function Contents(): seq<T>
      requires Valid()
      reads this, base
    {
      if base == null then [] else base[..size]
    }

    constructor (none: T)
      ensures Valid() && Contents() == [] && pushes == copies == 0 && this.none == none && base == null
    {
      this.none := none;
      size, capacity, base := 0, 0, null;
      pushes, copies := 0, 0;
    }

    method TopOf() returns (context: T)
      requires Valid()
      ensures context == Top(Contents(), none)
    {
      context := if size == 0 then none else base[size - 1];
    }

    method Contains(token: T) returns (found: bool)
      requires Valid()
      ensures found <==> token in Contents()
    {
      var pos := size;
      while pos > 0
        invariant 0 <= pos <= size
        invariant forall j :: pos <= j < size ==> Contents()[j] != token
      {
        if token == base[pos - 1] {
          assert Contents()[pos - 1] == token;
          return true;
        }
        pos := pos - 1;
      }
      return false;
    }

    method Pop()
      requires Valid()
      modifies this, base
      ensures Valid() && base == old(base) && pushes == old(pushes) && copies == old(copies)
      ensures Contents() == if old(Contents()) == [] then [] else old(Contents())[..|old(Contents())| - 1]
    {
      if size == 0 {
        return;
      }
      base[size - 1] := none;
      size := size - 1;
    }

    /** Called by Push with the size already counting the new element; copies what fits of the elements before it. */
    method Resize(requested: nat)
      requires 0 < size <= capacity + 1 && (base == null <==> capacity == 0)
      requires base != null ==> base.Length == capacity
      modifies this`base, this`capacity, this`copies
      ensures capacity == (if requested == 0 then 2 else requested)
      ensures base != null && fresh(base) && base.Length == capacity
      ensures var kept := if size - 1 < capacity then size - 1 else capacity;
        && base[..kept] == (if old(base) == null then [] else old(base[..])[..kept])
        && copies == old(copies) + kept
    {
      var newCapacity := if requested == 0 then 2 else requested;
      var kept := if size - 1 < newCapacity then size - 1 else newCapacity;
      var temp := new T[newCapacity](_ => none);
      var from := base;
      if from != null {
        for i := 0 to kept
          invariant temp[..i] == from[..i]
          invariant copies == old(copies) + i
        {
          temp[i] := from[i];
          copies := copies + 1;
        }
        assert from[..kept] == from[..][..kept];
      }
      base := temp;
      capacity := newCapacity;
    }

    method Push(context: T)
      requires Valid()
      modifies this, base
      ensures Valid() && Contents() == old(Contents()) + [context]
      ensures pushes == old(pushes) + 1
      ensures copies <= 2 * pushes
      ensures base == old(base) || fresh(base)
    {
      ghost var before := Contents();
      pushes := pushes + 1;
      size := size + 1;
      if size > capacity {
        Resize(size * 2);
        assert base[..size - 1] == before;
      }
      base[size - 1] := context;
      assert base[..size] == before + [context];
    }

    /** Attaches a context; its token is the context itself. */
    method Attach(context: T) returns (token: T)
      requires Valid()
      modifies this, base
      ensures Valid() && Contents() == old(Contents()) + [context] && token == context
      ensures pushes == old(pushes) + 1 && (base == old(base) || fresh(base))
    {
      Push(context);
      token := context;
    }

    /** Pops down to the topmost match; the loop ends because there is one. */
    method PopTo(token: T)
      requires Valid() && token in Contents()
      modifies this, base
      ensures Valid() && base == old(base) && pushes == old(pushes) && copies == old(copies)
      ensures Contents() == old(Contents())[..Topmost(old(Contents()), token) + 1]
    {
      ghost var stack := Contents();
      ghost var match' := Topmost(stack, token);
      var top := TopOf();
      while token != top
        invariant Valid() && base == old(base) && pushes == old(pushes) && copies == old(copies)
        invariant match' < size <= |stack| && Contents() == stack[..size]
        invariant top == stack[size - 1]
        decreases size
      {
        Pop();
        top := TopOf();
      }
    }

    method DetachToken(token: T) returns (ok: bool)
      requires Valid()
      modifies this, base
      ensures Valid() && base == old(base) && pushes == old(pushes) && copies == old(copies)
      ensures Detached(Contents(), ok) == Detach(old(Contents()), token, none)
    {
      ghost var stack := Contents();
      var top := TopOf();
      if token == top {
        Pop();
        TopmatchCut(stack, token, none);
        return true;
      }
      var found := Contains(token);
      if !found {
        return false;
      }
      PopTo(token);
      Pop();
      ok := true;
    }
  }

  /** When the token matches the top, detaching is popping. */
  lemma TopmatchCut<T>(stack: seq<T>, token: T, none: T)
    requires token == Top(stack, none)
    ensures Detach(stack, token, none) == Detached(if stack == [] then [] else stack[..|stack| - 1], true)
  {
    if stack != [] {
      assert Topmost(stack, token) == |stack| - 1;
    }
  }
}
