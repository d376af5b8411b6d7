/** Who holds the contexts of a stack state machine, over every run. */
module StateContexts {
  import opened JpegTypes
  import opened Soundness

  const STACK_SIZE := 32

  /** A state, which makes a context each time it is entered. */
  datatype State = State(id: nat)

  /** A state the machine is in, with its context; a state whose entry was refused has none. */
  datatype Seat = Seat(state: State, context: Option<nat>)

  /**
   The machine, and what has become of the contexts: made lists the makers, a context being named by its index; gone
   lists who left which, in that order; asked counts the entries tried.
   */
  datatype Config = Config(current: Option<Seat>, defaultSeat: Option<Seat>, stack: seq<Seat>, made: seq<State>, gone: seq<(State, nat)>, asked: nat)

  /** How a call ends. */
  datatype Outcome = Returned(ok: bool) | Done | Overflow | Underflow

  datatype Operation = EnterOp(state: State) | PushOp(state: State) | PopOp | EgressOp | DefaultOp(choice: Option<State>)

  // ----- The two calls a machine makes on a state -----

  /** enter_state: a new context, or none when the state refuses. */
  function Entered(c: Config, s: State, grants: nat -> bool): (Config, Option<nat>) {
    if grants(c.asked) then (c.(made := c.made + [s], asked := c.asked + 1), Some(|c.made|))
    else (c.(asked := c.asked + 1), None)
  }

  /** leave_state, if there is a state to leave; a null context is accepted, and nothing happens. */
  function Left(c: Config, p: Option<Seat>): Config {
    if p.Some? && p.value.context.Some? then c.(gone := c.gone + [(p.value.state, p.value.context.value)]) else c
  }

  // ----- The operations -----

  predicate Proper(c: Config) {
    (c.stack != [] ==> c.current.Some?) && |c.stack| <= STACK_SIZE
  }

  /** The state on top of the stack becomes current, and the current one is left. */
  function PopOne(c: Config): Config
    requires c.stack != []
  {
    Left(c.(current := Some(c.stack[|c.stack| - 1]), stack := c.stack[..|c.stack| - 1]), c.current)
  }

  /** egress */
  function Egressed(c: Config): Config
    requires Proper(c)
    ensures var e := Egressed(c); Proper(e) && e.current == None && e.stack == []
    ensures var e := Egressed(c); e.made == c.made && e.asked == c.asked && e.defaultSeat == c.defaultSeat
    decreases |c.stack|
  {
    if c.stack != [] then Egressed(PopOne(c)) else Left(c.(current := None), c.current)
  }

  /** enter */
  function Enter(c: Config, s: State, grants: nat -> bool): (r: (Config, bool))
    requires Proper(c)
    ensures Proper(r.0) && r.0.stack == []
  {
    var (d, context) := Entered(Egressed(c), s, grants);
    if context.Some? then (d.(current := Some(Seat(s, context))), true)
    else if c.current.Some? then
      var (e, again) := Entered(d, c.current.value.state, grants);
      (e.(current := Some(Seat(c.current.value.state, again))), false)
    else (d, false)
  }

  /** push_state */
  function Push(c: Config, s: State, grants: nat -> bool): (r: (Config, Outcome))
    requires Proper(c)
    ensures Proper(r.0)
  {
    if |c.stack| == STACK_SIZE then (c, Overflow)
    else if c.current.None? then
      var (d, ok) := Enter(c, s, grants);
      (d, Returned(ok))
    else
      var (d, context) := Entered(c, s, grants);
      if context.Some? then (d.(current := Some(Seat(s, context)), stack := c.stack + [c.current.value]), Returned(true))
      else (d, Returned(false))
  }

  /** pop_state */
  function Pop(c: Config): (r: (Config, Outcome))
    requires Proper(c)
    ensures Proper(r.0)
  {
    if c.current.None? then (c, Underflow)
    else if c.stack != [] then (PopOne(c), Done)
    else (Egressed(c), Done)
  }

  /** set_default_state */
  function SetDefault(c: Config, choice: Option<State>, grants: nat -> bool): (r: (Config, bool))
    requires Proper(c)
    ensures Proper(r.0)
  {
    var left := Left(c.(defaultSeat := None), c.defaultSeat);
    if choice.None? then (left, true)
    else
      var (d, context) := Entered(left, choice.value, grants);
      if context.Some? then (d.(defaultSeat := Some(Seat(choice.value, context))), true)
      else if c.defaultSeat.Some? then
        var (e, again) := Entered(d, c.defaultSeat.value.state, grants);
        (e.(defaultSeat := Some(Seat(c.defaultSeat.value.state, again))), false)
      else (d, false)
  }

  /** The destructor: what it leaves of the contexts. */
  function Destroyed(c: Config): Config
    requires Proper(c)
  {
    var e := Egressed(c);
    Left(e.(defaultSeat := None), e.defaultSeat)
  }

  // ----- Ownership -----

  function Held(p: Seat): multiset<(State, nat)> {
    if p.context.Some? then multiset{(p.state, p.context.value)} else multiset{}
  }

  function OneHeld(p: Option<Seat>): multiset<(State, nat)> {
    if p.Some? then Held(p.value) else multiset{}
  }

  function StackHeld(stack: seq<Seat>): multiset<(State, nat)> {
    if stack == [] then multiset{} else StackHeld(stack[..|stack| - 1]) + Held(stack[|stack| - 1])
  }

  /** All contexts made so far, each with its maker. */
  function Made(made: seq<State>): multiset<(State, nat)> {
    if made == [] then multiset{} else Made(made[..|made| - 1]) + multiset{(made[|made| - 1], |made| - 1)}
  }

  function HeldBy(c: Config): multiset<(State, nat)> {
    OneHeld(c.current) + OneHeld(c.defaultSeat) + StackHeld(c.stack)
  }

  /** Every context made is either held in one place, with the state that made it, or was left once, by that state. */
  ghost function Ownership(c: Config): Standing {
    if HeldBy(c) + multiset(c.gone) == Made(c.made) then Sound else Unsound
  }

  /** Each context occurs once among those made, with its maker. */
  lemma {:induction false} MadeOnce(made: seq<State>, s: State, k: nat)
    ensures Made(made)[(s, k)] == if k < |made| && made[k] == s then 1 else 0
    decreases |made|
  {
    if made != [] {
      MadeOnce(made[..|made| - 1], s, k);
    }
  }

  lemma {:induction false} StackSlot(stack: seq<Seat>, i: nat)
    requires i < |stack|
    ensures Held(stack[i]) <= StackHeld(stack)
    decreases |stack|
  {
    if i < |stack| - 1 {
      StackSlot(stack[..|stack| - 1], i);
      assert stack[..|stack| - 1][i] == stack[i];
    }
  }

  lemma {:induction false} TwoSlots(stack: seq<Seat>, i: nat, j: nat)
    requires i < j < |stack|
    ensures Held(stack[i]) + Held(stack[j]) <= StackHeld(stack)
    decreases |stack|
  {
    var below := stack[..|stack| - 1];
    if j < |stack| - 1 {
      TwoSlots(below, i, j);
      assert below[i] == stack[i] && below[j] == stack[j];
    } else {
      StackSlot(below, i);
      assert below[i] == stack[i];
    }
  }

  /** The places of a machine: the stack's slots from the bottom, the current state, the default state. */
  function Places(c: Config): seq<Seat> {
    c.stack + One(c.current) + One(c.defaultSeat)
  }

  function One(p: Option<Seat>): seq<Seat> {
    if p.Some? then [p.value] else []
  }

  lemma PlacesHold(c: Config)
    ensures StackHeld(Places(c)) == HeldBy(c)
  {
    var q := c.stack + One(c.current);
    assert c.current.Some? ==> q[..|q| - 1] == c.stack;
    assert c.current.None? ==> q == c.stack;
    assert c.defaultSeat.Some? ==> Places(c)[..|Places(c)| - 1] == q;
    assert c.defaultSeat.None? ==> Places(c) == q;
  }

  /** The context held in a place was made by the state in that place and has not been left. */
  lemma OwnedByMaker(c: Config, i: nat)
    requires Ownership(c).Sound? && i < |Places(c)|
    ensures var p := Places(c)[i];
      p.context.Some? ==> p.context.value < |c.made| && c.made[p.context.value] == p.state && (p.state, p.context.value) !in c.gone
  {
    PlacesHold(c);
    StackSlot(Places(c), i);
    var p := Places(c)[i];
    if p.context.Some? {
      var x := (p.state, p.context.value);
      MadeOnce(c.made, x.0, x.1);
      assert HeldBy(c)[x] >= 1 && Made(c.made)[x] == HeldBy(c)[x] + multiset(c.gone)[x];
    }
  }

  /** No two places hold the same context. */
  lemma OwnedOnce(c: Config, i: nat, j: nat)
    requires Ownership(c).Sound? && i < j < |Places(c)|
    ensures forall p :: p in {Places(c)[i], Places(c)[j]} && p.context.Some? ==>
      p.context.value < |c.made| && c.made[p.context.value] == p.state && (p.state, p.context.value) !in c.gone
    ensures var p, q := Places(c)[i], Places(c)[j];
      p.context.Some? && q.context.Some? ==> p.context != q.context
  {
    OwnedByMaker(c, i);
    OwnedByMaker(c, j);
    PlacesHold(c);
    TwoSlots(Places(c), i, j);
    var p, q := Places(c)[i], Places(c)[j];
    if p.context.Some? && q.context.Some? {
      MadeOnce(c.made, q.state, q.context.value);
      assert Made(c.made)[(q.state, q.context.value)] >= Held(p)[(q.state, q.context.value)] + Held(q)[(q.state, q.context.value)];
    }
  }

  /** A context that has been left was left by the state that made it. */
  lemma LeftByMaker(c: Config, i: nat)
    requires Ownership(c).Sound? && i < |c.gone|
    ensures c.gone[i].1 < |c.made| && c.made[c.gone[i].1] == c.gone[i].0
  {
    var x := c.gone[i];
    MadeOnce(c.made, x.0, x.1);
    assert x in c.gone;
    assert multiset(c.gone)[x] >= 1;
    assert Made(c.made)[x] == 1;
  }

  /** No context is left twice. */
  lemma LeftOnce(c: Config, i: nat, j: nat)
    requires Ownership(c).Sound? && i < j < |c.gone|
    ensures c.gone[i].1 != c.gone[j].1
    ensures c.gone[i].1 < |c.made| && c.made[c.gone[i].1] == c.gone[i].0
  {
    var x, y := c.gone[i], c.gone[j];
    LeftByMaker(c, i);
    LeftByMaker(c, j);
    MadeOnce(c.made, x.0, x.1);
    assert Made(c.made)[x] >= multiset(c.gone)[x];
    if x == y {
      Twice(c.gone, i, j);
    }
  }

  lemma {:induction false} HeldSomewhere(stack: seq<Seat>, x: (State, nat)) returns (i: nat)
    requires StackHeld(stack)[x] > 0
    ensures i < |stack| && stack[i].state == x.0 && stack[i].context == Some(x.1)
    decreases |stack|
  {
    var n := |stack| - 1;
    if Held(stack[n])[x] > 0 {
      i := n;
    } else {
      i := HeldSomewhere(stack[..n], x);
      assert stack[..n][i] == stack[i];
    }
  }

  /** Every context made is in some place, with its maker, or has been left. */
  lemma Accounted(c: Config, k: nat)
    requires Ownership(c).Sound? && k < |c.made|
    ensures (c.made[k], k) in c.gone
      || exists i :: 0 <= i < |Places(c)| && Places(c)[i].state == c.made[k] && Places(c)[i].context == Some(k)
  {
    var x := (c.made[k], k);
    MadeOnce(c.made, x.0, x.1);
    PlacesHold(c);
    assert Made(c.made)[x] == HeldBy(c)[x] + multiset(c.gone)[x];
    if x !in c.gone {
      assert multiset(c.gone)[x] == 0;
      var i := HeldSomewhere(Places(c), x);
    }
  }

  lemma Twice(s: seq<(State, nat)>, i: nat, j: nat)
    requires i < j < |s| && s[i] == s[j]
    ensures multiset(s)[s[i]] >= 2
  {
    assert s == s[..j] + s[j..] && s[..j][i] == s[i] && s[j..][0] == s[j];
    assert multiset(s) == multiset(s[..j]) + multiset(s[j..]);
    assert s[i] in multiset(s[..j]) && s[i] in multiset(s[j..]);
  }

  // ----- Every operation keeps ownership -----

  /** A state that is entered and makes a context holds one more. */
  lemma EnteredMade(c: Config, s: State, grants: nat -> bool)
    ensures var (d, context) := Entered(c, s, grants); Made(d.made) == Made(c.made) + Held(Seat(s, context))
    ensures var (d, context) := Entered(c, s, grants);
      d.current == c.current && d.defaultSeat == c.defaultSeat && d.stack == c.stack && d.gone == c.gone
  {
    assert (c.made + [s])[..|c.made|] == c.made;
  }

  lemma EnteredCurrent(c: Config, s: State, grants: nat -> bool)
    requires Ownership(c).Sound? && c.current == None
    ensures var (d, context) := Entered(c, s, grants);
      && Ownership(d.(current := Some(Seat(s, context)))).Sound? && (context.None? ==> Ownership(d).Sound?)
  {
    hide Made, StackHeld, Entered;
    EnteredMade(c, s, grants);
  }

  lemma EnteredDefault(c: Config, s: State, grants: nat -> bool)
    requires Ownership(c).Sound? && c.defaultSeat == None
    ensures var (d, context) := Entered(c, s, grants);
      && Ownership(d.(defaultSeat := Some(Seat(s, context)))).Sound? && (context.None? ==> Ownership(d).Sound?)
  {
    hide Made, StackHeld, Entered;
    EnteredMade(c, s, grants);
  }

  /** Leaving a state moves what the place held to those gone. */
  lemma LeftCurrent(c: Config)
    requires Ownership(c).Sound?
    ensures Ownership(Left(c.(current := None), c.current)).Sound?
  {
  }

  lemma LeftDefault(c: Config)
    requires Ownership(c).Sound?
    ensures Ownership(Left(c.(defaultSeat := None), c.defaultSeat)).Sound?
  {
  }

  lemma UnstackedOwns(c: Config)
    requires Ownership(c).Sound? && c.current == None && c.stack != []
    ensures Ownership(c.(current := Some(c.stack[|c.stack| - 1]), stack := c.stack[..|c.stack| - 1])).Sound?
  {
  }

  lemma {:induction false} PopOneOwns(c: Config)
    requires c.stack != [] && Ownership(c).Sound?
    ensures Ownership(PopOne(c)).Sound?
  {
    hide Ownership;
    var e := Left(c.(current := None), c.current);
    LeftCurrent(c);
    UnstackedOwns(e);
    assert PopOne(c) == e.(current := Some(c.stack[|c.stack| - 1]), stack := c.stack[..|c.stack| - 1]);
  }

  lemma {:induction false} EgressedOwns(c: Config)
    requires Proper(c) && Ownership(c).Sound?
    ensures Ownership(Egressed(c)).Sound?
    decreases |c.stack|
  {
    hide Ownership;
    if c.stack != [] {
      PopOneOwns(c);
      EgressedOwns(PopOne(c));
    } else {
      LeftCurrent(c);
    }
  }

  lemma EnterOwns(c: Config, s: State, grants: nat -> bool)
    requires Proper(c) && Ownership(c).Sound?
    ensures Ownership(Enter(c, s, grants).0).Sound?
  {
    hide Ownership, Egressed;
    var e := Egressed(c);
    EgressedOwns(c);
    EnteredCurrent(e, s, grants);
    var (d, context) := Entered(e, s, grants);
    if c.current.Some? && context.None? {
      EnteredCurrent(d, c.current.value.state, grants);
    }
  }

  lemma StackedOwns(c: Config)
    requires Ownership(c).Sound? && c.current.Some?
    ensures Ownership(c.(current := None, stack := c.stack + [c.current.value])).Sound?
  {
    assert (c.stack + [c.current.value])[..|c.stack|] == c.stack;
  }

  lemma PushedOwns(c: Config, s: State, grants: nat -> bool)
    requires Ownership(c).Sound? && c.current.Some?
    ensures var (d, context) := Entered(c, s, grants);
      && Ownership(d.(current := Some(Seat(s, context)), stack := c.stack + [c.current.value])).Sound?
      && (context.None? ==> Ownership(d).Sound?)
  {
    StackedOwns(c);
    EnteredCurrent(c.(current := None, stack := c.stack + [c.current.value]), s, grants);
    EnteredAbove(c, s, grants);
    hide Ownership;
  }

  /** A refused entry changes nothing but the count of those tried. */
  lemma EnteredAbove(c: Config, s: State, grants: nat -> bool)
    requires Ownership(c).Sound?
    ensures var (d, context) := Entered(c, s, grants); context.None? ==> Ownership(d).Sound? && d == c.(asked := d.asked)
  {
  }

  lemma PushOwns(c: Config, s: State, grants: nat -> bool)
    requires Proper(c) && Ownership(c).Sound?
    ensures Ownership(Push(c, s, grants).0).Sound?
  {
    hide Ownership, Enter;
    if c.current.None? {
      EnterOwns(c, s, grants);
    } else {
      PushedOwns(c, s, grants);
    }
  }

  lemma PopOwns(c: Config)
    requires Proper(c) && Ownership(c).Sound?
    ensures Ownership(Pop(c).0).Sound?
  {
    hide Ownership, PopOne, Egressed;
    EgressedOwns(c);
    if c.stack != [] {
      PopOneOwns(c);
    }
  }

  lemma SetDefaultOwns(c: Config, choice: Option<State>, grants: nat -> bool)
    requires Proper(c) && Ownership(c).Sound?
    ensures Ownership(SetDefault(c, choice, grants).0).Sound?
  {
    hide Ownership;
    var left := Left(c.(defaultSeat := None), c.defaultSeat);
    LeftDefault(c);
    if choice.Some? {
      EnteredDefault(left, choice.value, grants);
      var (d, context) := Entered(left, choice.value, grants);
      if c.defaultSeat.Some? && context.None? {
        EnteredDefault(d, c.defaultSeat.value.state, grants);
      }
    }
  }

  // ----- Runs -----

  function Initial(): (c: Config)
    ensures Proper(c)
  {
    Config(None, None, [], [], [], 0)
  }

  function Step(c: Config, op: Operation, grants: nat -> bool): (d: Config)
    requires Proper(c)
    ensures Proper(d)
  {
    match op
    case EnterOp(s) => Enter(c, s, grants).0
    case PushOp(s) => Push(c, s, grants).0
    case PopOp => Pop(c).0
    case EgressOp => Egressed(c)
    case DefaultOp(choice) => SetDefault(c, choice, grants).0
  }

  function Run(c: Config, ops: seq<Operation>, grants: nat -> bool): (d: Config)
    requires Proper(c)
    ensures Proper(d)
    decreases |ops|
  {
    if ops == [] then c else Step(Run(c, ops[..|ops| - 1], grants), ops[|ops| - 1], grants)
  }

  lemma StepOwns(c: Config, op: Operation, grants: nat -> bool)
    requires Proper(c) && Ownership(c).Sound?
    ensures Ownership(Step(c, op, grants)).Sound?
  {
    hide Enter, Push, Pop, Egressed, SetDefault, Ownership;
    match op
    case EnterOp(s) => EnterOwns(c, s, grants);
    case PushOp(s) => PushOwns(c, s, grants);
    case PopOp => PopOwns(c);
    case EgressOp => EgressedOwns(c);
    case DefaultOp(choice) => SetDefaultOwns(c, choice, grants);
  }

  lemma InitialOwns()
    ensures Ownership(Initial()).Sound?
  {
  }

  /** After any run, whichever entries were refused, every context is held once or was left once, always with its maker. */
  lemma {:induction false} RunOwns(ops: seq<Operation>, grants: nat -> bool)
    ensures Ownership(Run(Initial(), ops, grants)).Sound?
    decreases |ops|
  {
    hide Step, Ownership, Initial;
    InitialOwns();
    if ops != [] {
      RunOwns(ops[..|ops| - 1], grants);
      StepOwns(Run(Initial(), ops[..|ops| - 1], grants), ops[|ops| - 1], grants);
    }
  }

  /** The destructor, after any run: every context ever made was left, exactly once, by its maker. */
  lemma RunLeavesAll(ops: seq<Operation>, grants: nat -> bool)
    ensures var c := Run(Initial(), ops, grants); multiset(Destroyed(c).gone) == Made(c.made)
  {
    var c := Run(Initial(), ops, grants);
    RunOwns(ops, grants);
    EgressedOwns(c);
    LeftDefault(Egressed(c));
    NoneHeld(Destroyed(c));
  }

  lemma NoneHeld(c: Config)
    requires Ownership(c).Sound? && c.current == None && c.defaultSeat == None && c.stack == []
    ensures multiset(c.gone) == Made(c.made)
  {
  }

  // ----- What each call leads to -----

  /** The context of a seat, with its maker. */
  function Owned(p: Seat): seq<(State, nat)> {
    if p.context.Some? then [(p.state, p.context.value)] else []
  }

  /** The contexts of these seats, the last seat's first. */
  function FromTop(seats: seq<Seat>): seq<(State, nat)> {
    if seats == [] then [] else Owned(seats[|seats| - 1]) + FromTop(seats[..|seats| - 1])
  }

  /** The contexts of the current state and the stacked ones, from the top down. */
  function AllFromTop(c: Config): seq<(State, nat)> {
    FromTop(c.stack + One(c.current))
  }

  lemma PopOneLeaves(c: Config)
    requires Proper(c) && c.stack != []
    ensures var d := PopOne(c);
      d == c.(current := d.current, stack := d.stack, gone := d.gone) && d.gone + AllFromTop(d) == c.gone + AllFromTop(c)
  {
    hide FromTop;
    var d, seats := PopOne(c), c.stack + One(c.current);
    assert seats[..|seats| - 1] == c.stack == d.stack + One(d.current);
    assert FromTop(seats) == Owned(c.current.value) + FromTop(c.stack) by {
      LastFirst(seats);
    }
    assert d.gone == c.gone + Owned(c.current.value);
  }

  lemma LastFirst(seats: seq<Seat>)
    requires seats != []
    ensures FromTop(seats) == Owned(seats[|seats| - 1]) + FromTop(seats[..|seats| - 1])
  {
  }

  lemma OnlyCurrent(c: Config)
    requires c.stack == []
    ensures AllFromTop(c) == FromTop(One(c.current)) == if c.current.Some? then Owned(c.current.value) else []
  {
    var seats := One(c.current);
    assert c.stack + seats == seats;
    assert seats != [] ==> FromTop(seats[..|seats| - 1]) == [];
  }

  /** egress leaves the current state and then the stacked ones from the top down, and nothing else. */
  lemma {:induction false} EgressLeaves(c: Config)
    requires Proper(c)
    ensures Egressed(c) == c.(current := None, stack := [], gone := c.gone + AllFromTop(c))
    decreases |c.stack|
  {
    hide AllFromTop, FromTop;
    if c.stack != [] {
      PopOneLeaves(c);
      EgressLeaves(PopOne(c));
    } else {
      OnlyCurrent(c);
    }
  }

  /**
   enter succeeds exactly when the state asked for is granted its context. It is then current, through that context;
   whatever was current or stacked has been left, from the top down, and the default state stays.
   */
  lemma EnterLeadsTo(c: Config, s: State, grants: nat -> bool)
    requires Proper(c)
    ensures var (d, ok) := Enter(c, s, grants);
      && (ok <==> grants(c.asked))
      && d.stack == [] && d.defaultSeat == c.defaultSeat && d.gone == c.gone + AllFromTop(c)
      && (ok ==> d.current == Some(Seat(s, Some(|c.made|))) && d.made == c.made + [s] && d.asked == c.asked + 1)
  {
    hide Egressed, AllFromTop;
    EgressLeaves(c);
  }

  /**
   A failed enter: the former state is current again, but through a new context, and all that were stacked are left;
   the state is without a context exactly when it, too, refuses.
   */
  lemma FailedEnter(c: Config, s: State, grants: nat -> bool)
    requires Proper(c) && !grants(c.asked)
    ensures var (d, ok) := Enter(c, s, grants);
      && !ok && d.stack == [] && d.defaultSeat == c.defaultSeat && d.gone == c.gone + AllFromTop(c)
      && (c.current.None? ==> d.current == None && d.made == c.made)
      && (c.current.Some? ==> d.current == Some(Seat(c.current.value.state, if grants(c.asked + 1) then Some(|c.made|) else None)))
      && (c.current.Some? ==> d.made == if grants(c.asked + 1) then c.made + [c.current.value.state] else c.made)
  {
    hide Egressed, AllFromTop;
    EgressLeaves(c);
  }

  /** With room on the stack and a current state, a push that is granted stacks that state under the one asked for. */
  lemma PushLeadsTo(c: Config, s: State, grants: nat -> bool)
    requires Proper(c) && c.current.Some?
    ensures var (d, outcome) := Push(c, s, grants);
      && (outcome == Returned(true) <==> |c.stack| < 32 && grants(c.asked))
      && (outcome == Returned(true) ==> d == Config(Some(Seat(s, Some(|c.made|))), c.defaultSeat, c.stack + [c.current.value],
          c.made + [s], c.gone, c.asked + 1))
  {
  }

  /** A push that fails, or overflows the stack, leaves the machine and the contexts as they were. */
  lemma FailedPush(c: Config, s: State, grants: nat -> bool)
    requires Proper(c)
    ensures var (d, outcome) := Push(c, s, grants);
      outcome != Returned(true) ==> d.(asked := c.asked) == c && (outcome == Overflow <==> |c.stack| == 32)
  {
  }

  /** pop_state leaves the current state alone, and the one stacked last is current; without a current state it fails. */
  lemma PopLeadsTo(c: Config)
    requires Proper(c)
    ensures var (d, outcome) := Pop(c);
      && outcome == (if c.current.None? then Underflow else Done)
      && d == (if c.current.None? then c
               else if c.stack == [] then c.(current := None, gone := c.gone + Owned(c.current.value))
               else c.(current := Some(c.stack[|c.stack| - 1]), stack := c.stack[..|c.stack| - 1],
                       gone := c.gone + Owned(c.current.value)))
  {
  }

  /** state_depth */
  function Depth(c: Config): nat {
    if c.current.Some? then |c.stack| + 1 else 0
  }

  /** Entering a state and popping it again is the same as never having been there. */
  lemma PushThenPop(c: Config, s: State, grants: nat -> bool)
    requires Proper(c) && Push(c, s, grants).1 == Returned(true)
    ensures var d := Pop(Push(c, s, grants).0).0;
      d.current == c.current && d.defaultSeat == c.defaultSeat && d.stack == c.stack
      && d.made == c.made + [s] && d.gone == c.gone + [(s, |c.made|)]
  {
    if c.current.Some? {
      assert (c.stack + [c.current.value])[..|c.stack|] == c.stack;
    }
  }

  /**
   set_default_state leaves the former default and touches no other state. It succeeds exactly when there is to be no
   default or the one asked for is granted its context, and that is then the default; when it is refused, the former
   one is entered again.
   */
  lemma SetDefaultLeadsTo(c: Config, choice: Option<State>, grants: nat -> bool)
    requires Proper(c)
    ensures var (d, ok) := SetDefault(c, choice, grants);
      && (ok <==> choice.None? || grants(c.asked))
      && d.current == c.current && d.stack == c.stack && d.gone == c.gone + FromTop(One(c.defaultSeat))
      && (choice.None? ==> d.defaultSeat == None && d.made == c.made)
      && (choice.Some? && ok ==> d.defaultSeat == Some(Seat(choice.value, Some(|c.made|))) && d.made == c.made + [choice.value])
      && (!ok && c.defaultSeat.None? ==> d.defaultSeat == None && d.made == c.made)
      && (!ok && c.defaultSeat.Some? ==>
          d.defaultSeat == Some(Seat(c.defaultSeat.value.state, if grants(c.asked + 1) then Some(|c.made|) else None)))
  {
    var seats := One(c.defaultSeat);
    assert seats != [] ==> FromTop(seats[..|seats| - 1]) == [];
  }

  /** The destructor leaves the current state, the stacked ones from the top down, and the default state last. */
  lemma DestroyLeaves(c: Config)
    requires Proper(c)
    ensures Destroyed(c).gone == c.gone + AllFromTop(c) + FromTop(One(c.defaultSeat))
  {
    hide Egressed, AllFromTop;
    EgressLeaves(c);
    var seats := One(c.defaultSeat);
    assert seats != [] ==> FromTop(seats[..|seats| - 1]) == [];
  }
}
