/** The stack state machine: its fields, updated in place, against the runs of StateContexts. */
module StateMachine {
  import opened JpegTypes
  import opened StateContexts

  /** The states, as the machine sees them: what each call on them does to the contexts. */
  class Surroundings {
    const grants: nat -> bool
    const obliging: (State, Option<nat>) -> bool
    var made: seq<State>
    var gone: seq<(State, nat)>
    var asked: nat

    constructor (grants: nat -> bool, obliging: (State, Option<nat>) -> bool)
      ensures this.grants == grants && this.obliging == obliging && made == [] && gone == [] && asked == 0
    {
      this.grants, this.obliging := grants, obliging;
      made, gone, asked := [], [], 0;
    }

    method EnterState(s: State) returns (context: Option<nat>)
      modifies `made, `asked
      ensures asked == old(asked) + 1
      ensures if grants(old(asked)) then context == Some(|old(made)|) && made == old(made) + [s] else context == None && made == old(made)
    {
      if grants(asked) {
        made, asked := made + [s], asked + 1;
        return Some(|made| - 1);
      }
      asked := asked + 1;
      return None;
    }

    method LeaveState(s: State, context: Option<nat>) returns (ok: bool)
      modifies `gone
      ensures gone == if context.Some? then old(gone) + [(s, context.value)] else old(gone)
      ensures ok == obliging(s, context)
    {
      if context.Some? {
        gone := gone + [(s, context.value)];
      }
      ok := obliging(s, context);
    }
  }

  function SeatOf(state: Option<State>, context: Option<nat>): Option<Seat> {
    if state.Some? then Some(Seat(state.value, context)) else None
  }

  /** Leaving a machine that is in no state changes nothing. */
  lemma Resting(c: Config)
    requires Proper(c) && c.current.None?
    ensures Egressed(c) == c
  {
  }

  /** smach */
  class Machine {
    const world: Surroundings
    var currState: Option<State>
    var stateContext: Option<nat>
    var defaultState: Option<State>
    var defaultContext: Option<nat>
    const stateStack: array<Option<State>>
    const stateContextStack: array<Option<nat>>
    var statesOnStack: nat

    constructor (world: Surroundings)
      ensures Valid() && fresh(stateStack) && fresh(stateContextStack) && this.world == world
      ensures At() == Config(None, None, [], world.made, world.gone, world.asked)
    {
      this.world := world;
      currState, stateContext, defaultState, defaultContext, statesOnStack := None, None, None, None, 0;
      stateStack := new Option<State>[STACK_SIZE](_ => None);
      stateContextStack := new Option<nat>[STACK_SIZE](_ => None);
    }

    ghost predicate Valid()
      reads this, stateStack
    {
      && stateStack.Length == stateContextStack.Length == STACK_SIZE && statesOnStack <= STACK_SIZE
      && (forall i :: 0 <= i < statesOnStack ==> stateStack[i].Some?)
      && (statesOnStack > 0 ==> currState.Some?)
      && (currState.None? ==> stateContext.None?) && (defaultState.None? ==> defaultContext.None?)
    }

    /** What is stacked below position n. */
    ghost function StackTo(n: nat): (s: seq<Seat>)
      requires n <= stateStack.Length && n <= stateContextStack.Length && forall i :: 0 <= i < n ==> stateStack[i].Some?
      reads stateStack, stateContextStack
      ensures |s| == n && forall i :: 0 <= i < n ==> s[i] == Seat(stateStack[i].value, stateContextStack[i])
    {
      seq(n, i requires 0 <= i < n && n <= stateStack.Length && n <= stateContextStack.Length && stateStack[i].Some?
             reads stateStack, stateContextStack => Seat(stateStack[i].value, stateContextStack[i]))
    }

    ghost function At(): (c: Config)
      requires Valid()
      reads this, stateStack, stateContextStack, world
      ensures Proper(c)
    {
      Config(SeatOf(currState, stateContext), SeatOf(defaultState, defaultContext), StackTo(statesOnStack),
             world.made, world.gone, world.asked)
    }

    /** The state entered first of those current or stacked. */
    ghost function Bottom(): Option<Seat>
      requires Valid()
      reads this, stateStack, stateContextStack
    {
      if statesOnStack > 0 then Some(StackTo(statesOnStack)[0]) else SeatOf(currState, stateContext)
    }

    /** egress: what the last state to be left answers. */
    method Egress() returns (ok: bool)
      requires Valid()
      modifies `currState, `stateContext, `statesOnStack, world`gone
      ensures Valid() && At() == Egressed(old(At()))
      ensures var b := old(Bottom()); ok == (b.None? || world.obliging(b.value.state, b.value.context))
      decreases statesOnStack, 1
    {
      ghost var goal, bottom := Egressed(At()), Bottom();
      while statesOnStack > 0
        invariant Valid() && Egressed(At()) == goal && Bottom() == bottom
        decreases statesOnStack
      {
        var _ := PopState();
      }
      if currState.None? {
        return true;
      }
      var oldState, oldContext := currState.value, stateContext;
      currState, stateContext := None, None;
      ok := world.LeaveState(oldState, oldContext);
    }

    /** pop_state: Done, or Underflow. */
    method PopState() returns (outcome: Outcome)
      requires Valid()
      modifies `currState, `stateContext, `statesOnStack, world`gone
      ensures Valid() && (At(), outcome) == Pop(old(At()))
      ensures old(statesOnStack) > 0 ==>
        statesOnStack == old(statesOnStack) - 1 && At() == PopOne(old(At())) && Bottom() == old(Bottom())
      decreases statesOnStack, if statesOnStack == 0 then 2 else 0
    {
      if currState.None? {
        return Underflow;
      }
      if statesOnStack > 0 {
        ghost var stack := StackTo(statesOnStack);
        var oldState, oldContext := currState.value, stateContext;
        statesOnStack := statesOnStack - 1;
        currState, stateContext := stateStack[statesOnStack], stateContextStack[statesOnStack];
        assert StackTo(statesOnStack) == stack[..|stack| - 1];
        var _ := world.LeaveState(oldState, oldContext);
      } else {
        var _ := Egress();
      }
      return Done;
    }

    /** enter */
    method EnterState(next: State) returns (ok: bool)
      requires Valid()
      modifies `currState, `stateContext, `statesOnStack, world`made, world`gone, world`asked
      ensures Valid() && (At(), ok) == Enter(old(At()), next, world.grants)
    {
      hide Egressed;
      var prevState := currState;
      if currState.Some? {
        var _ := Egress();
      }
      if prevState.None? {
        Resting(At());
      }
      currState, stateContext := Some(next), None;
      stateContext := world.EnterState(next);
      if stateContext.Some? {
        return true;
      }
      currState := prevState;
      if currState.Some? {
        stateContext := world.EnterState(currState.value);
      }
      return false;
    }

    /** push_state */
    method PushState(next: State) returns (outcome: Outcome)
      requires Valid()
      modifies this, stateStack, stateContextStack, world
      ensures Valid() && (At(), outcome) == Push(old(At()), next, world.grants)
    {
      hide Egressed, Enter;
      if statesOnStack == STACK_SIZE {
        return Overflow;
      }
      if currState.None? && statesOnStack == 0 {
        var ok := EnterState(next);
        return Returned(ok);
      }
      ghost var stack := StackTo(statesOnStack);
      stateStack[statesOnStack], stateContextStack[statesOnStack] := currState, stateContext;
      statesOnStack := statesOnStack + 1;
      assert StackTo(statesOnStack) == stack + [Seat(currState.value, stateContext)];
      currState := Some(next);
      stateContext := world.EnterState(next);
      if stateContext.Some? {
        assert StackTo(statesOnStack) == old(At().stack + [At().current.value]);
        return Returned(true);
      }
      statesOnStack := statesOnStack - 1;
      currState, stateContext := stateStack[statesOnStack], stateContextStack[statesOnStack];
      assert StackTo(statesOnStack) == stack;
      return Returned(false);
    }

    /** set_default_state */
    method SetDefaultState(next: Option<State>) returns (ok: bool)
      requires Valid()
      modifies `defaultState, `defaultContext, world
      ensures Valid() && (At(), ok) == SetDefault(old(At()), next, world.grants)
    {
      hide StackTo;
      var prevState := defaultState;
      LeaveDefault();
      defaultState, defaultContext := next, None;
      if defaultState.None? {
        return true;
      }
      defaultContext := world.EnterState(defaultState.value);
      if defaultContext.Some? {
        return true;
      }
      defaultState := prevState;
      if defaultState.Some? {
        defaultContext := world.EnterState(defaultState.value);
      }
      return false;
    }

    /** The default state, if there is one, is left. */
    method LeaveDefault()
      requires Valid()
      modifies world`gone
      ensures world.gone == Left(old(At()), old(SeatOf(defaultState, defaultContext))).gone
    {
      if defaultState.Some? {
        var _ := world.LeaveState(defaultState.value, defaultContext);
      }
    }

    /** The destructor. The default state's fields still name what it has left. */
    method Destroy()
      requires Valid()
      modifies `currState, `stateContext, `statesOnStack, world`gone
      ensures world.made == old(world.made) && world.gone == Destroyed(old(At())).gone && currState.None? && statesOnStack == 0
    {
      var _ := Egress();
      if defaultState.Some? {
        var _ := world.LeaveState(defaultState.value, defaultContext);
      }
    }

    /** state_depth */
    method StateDepth() returns (n: nat)
      requires Valid()
      ensures n == Depth(At())
    {
      n := if currState.Some? then statesOnStack + 1 else 0;
    }
  }
}
