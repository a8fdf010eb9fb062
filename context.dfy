/**
 * The program context: a LIFO stack of programs, and Scope, the guard that
 * pushes on entry and pops on exit exactly once even when it is moved. The
 * process-wide singleton is modelled as a Context object passed explicitly.
 */
module DagContext {
  import opened Wrappers
  import DagProgram

  /** The stack after pop_program: the top removed, or unchanged when empty. */
  function Popped(stack: seq<DagProgram.Program>): seq<DagProgram.Program>
  {
    if stack == [] then [] else stack[..|stack| - 1]
  }

  /** What pop_program reports on `stack`. */
  function PopOutcome(stack: seq<DagProgram.Program>): Outcome
  {
    if stack == [] then Fail(EmptyStack) else Pass
  }

  class Context {
    /** The program stack, bottom first; the current program is the last element. */
    var stack: seq<DagProgram.Program>

    constructor ()
      ensures stack == []
    {
      stack := [];
    }

    method PushProgram(prog: DagProgram.Program?) returns (r: Outcome)
      modifies this
      ensures prog == null ==> r == Fail(NullProgram) && stack == old(stack)
      ensures prog != null ==> r == Pass && stack == old(stack) + [prog]
    {
      if prog == null {
        return Fail(NullProgram);
      }
      stack := stack + [prog];
      return Pass;
    }

    method PopProgram() returns (r: Outcome)
      modifies this
      ensures old(stack) == [] ==> r == Fail(EmptyStack) && stack == []
      ensures old(stack) != [] ==> r == Pass && stack + [old(stack)[|old(stack)| - 1]] == old(stack)
    {
      if stack == [] {
        return Fail(EmptyStack);
      }
      stack := stack[..|stack| - 1];
      return Pass;
    }

    /** The most recently pushed program, or NoActiveProgram; the stack is only read. */
    function CurrentProgram(): (r: Result<DagProgram.Program>)
      reads this
      ensures r.Failure? <==> stack == []
      ensures r.Failure? ==> r.error == NoActiveProgram
      ensures r.Success? ==> r.value == stack[|stack| - 1]
    {
      if stack == [] then Failure(NoActiveProgram) else Success(stack[|stack| - 1])
    }
  }

  class Scope {
    /** Whether this guard still owes the context one pop. */
    var active: bool

    /** The constructor's work once the program is known to be non-null: push, then own the pop. */
    constructor Enter(ctx: Context, prog: DagProgram.Program)
      modifies ctx
      ensures active
      ensures ctx.stack == old(ctx.stack) + [prog]
    {
      var _ := ctx.PushProgram(prog);
      active := true;
    }

    /** Scope(prog): rejects a null program, otherwise pushes it exactly once. */
    static method Open(ctx: Context, prog: DagProgram.Program?) returns (r: Result<Scope>)
      modifies ctx
      ensures prog == null ==> r == Failure(NullScopeProgram) && ctx.stack == old(ctx.stack)
      ensures prog != null ==> r.Success? && fresh(r.value) && r.value.active
      ensures prog != null ==> ctx.stack == old(ctx.stack) + [prog]
    {
      if prog == null {
        return Failure(NullScopeProgram);
      }
      var s := new Scope.Enter(ctx, prog);
      return Success(s);
    }

    /** ~Scope: pops iff this guard is still active; afterwards it owes nothing. */
    method Close(ctx: Context) returns (r: Outcome)
      modifies this, ctx
      ensures !active
      ensures old(active) ==> r == PopOutcome(old(ctx.stack)) && ctx.stack == Popped(old(ctx.stack))
      ensures !old(active) ==> r == Pass && ctx.stack == old(ctx.stack)
    {
      r := Pass;
      if active {
        r := ctx.PopProgram();
      }
      active := false;
    }

    /** The move constructor: takes over the source's obligation and clears it there. */
    constructor MoveFrom(other: Scope)
      modifies other
      ensures active == old(other.active) && !other.active
    {
      active := other.active;
      new;
      other.active := false;
    }

    /**
     * Move assignment: a distinct source first makes this guard discharge its
     * own pop, then hands over its obligation. Self-assignment changes nothing.
     */
    method MoveAssign(ctx: Context, other: Scope) returns (r: Outcome)
      modifies this, other, ctx
      ensures other == this ==> active == old(active) && ctx.stack == old(ctx.stack) && r == Pass
      ensures other != this ==> active == old(other.active) && !other.active
      ensures other != this && old(active) ==> r == PopOutcome(old(ctx.stack)) && ctx.stack == Popped(old(ctx.stack))
      ensures other != this && !old(active) ==> r == Pass && ctx.stack == old(ctx.stack)
    {
      r := Pass;
      if this != other {
        if active {
          r := ctx.PopProgram();
        }
        active := other.active;
        other.active := false;
      }
    }
  }

  /**
   * A scope that is moved before it ends pops exactly once: entering,
   * moving into a second guard and destroying both leaves the stack as it
   * was, with `prog` current in between.
   */
  method MovedScopePopsOnce(ctx: Context, prog: DagProgram.Program) returns (current: Result<DagProgram.Program>)
    modifies ctx
    ensures current == Success(prog)
    ensures ctx.stack == old(ctx.stack)
  {
    var outer := new Scope.Enter(ctx, prog);
    current := ctx.CurrentProgram();
    var inner := new Scope.MoveFrom(outer);
    var r1 := outer.Close(ctx);
    assert ctx.stack == old(ctx.stack) + [prog];
    var r2 := inner.Close(ctx);
    assert old(ctx.stack) + [prog] != [];
  }

  /** Nested scopes restore the enclosing program when the inner one ends. */
  method NestedScopes(ctx: Context, p1: DagProgram.Program, p2: DagProgram.Program)
    returns (innerCurrent: Result<DagProgram.Program>, outerCurrent: Result<DagProgram.Program>)
    modifies ctx
    ensures innerCurrent == Success(p2) && outerCurrent == Success(p1)
    ensures ctx.stack == old(ctx.stack)
  {
    var s1 := new Scope.Enter(ctx, p1);
    var s2 := new Scope.Enter(ctx, p2);
    innerCurrent := ctx.CurrentProgram();
    var r2 := s2.Close(ctx);
    assert ctx.stack == old(ctx.stack) + [p1];
    outerCurrent := ctx.CurrentProgram();
    var r1 := s1.Close(ctx);
  }
}
