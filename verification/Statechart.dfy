/** Transitions and run-to-completion of a hierarchical state machine on values (inet/src/util/Macho.cc, rattleOn). */
module Statechart {
  import opened Options
  import opened StateTree

  /** The user's actions, as they are called. */
  datatype Action = Entered(s: State) | Exited(s: State) | Initialized(s: State)

  /** setState or setStateHistory */
  datatype Request = Request(target: State, history: bool)

  /** What machine and state instances hold between transitions. boxes are the states that have a box of their own. */
  datatype Chart = Chart(current: State, memory: Memory, boxes: set<State>, trace: seq<Action>)

  /** The request an init action makes, given everything called before. */
  type Inits = (State, seq<Action>) -> Option<Request>

  function Entries(ss: seq<State>): seq<Action> {
    seq(|ss|, i requires 0 <= i < |ss| => Entered(ss[i]))
  }

  function Exits(ss: seq<State>): seq<Action> {
    seq(|ss|, i requires 0 <= i < |ss| => Exited(ss[i]))
  }

  /** Root has no box. */
  function BoxOf(s: State): Box {
    if s.Root? then Empty else s.box
  }

  function Boxed(ss: seq<State>): set<State> {
    set s | s in ss && BoxOf(s) != Empty
  }

  function Unboxed(ss: seq<State>): set<State> {
    set s | s in ss && BoxOf(s) == Own
  }

  /** One turn of the inner loop of rattleOn, up to the initializer. */
  function Transition(m: Chart, t: State): Chart {
    var left := ExitChain(m.current, t);
    var entered := EntryChain(t, m.current, true);
    Chart(t, Remembered(m.memory, m.current), m.boxes - Unboxed(left) + Boxed(entered),
          m.trace + Exits(left) + Entries(entered))
  }

  /** init: what the current state's history or its init action asks for next. */
  function Wanted(m: Chart, history: bool, inits: Inits): Option<Request> {
    if history && m.current in m.memory then Some(Request(m.memory[m.current], false))
    else inits(m.current, m.trace)
  }

  function Inited(m: Chart, history: bool): Chart {
    if history && m.current in m.memory then m.(memory := m.memory - {m.current})
    else m.(memory := m.memory - {m.current}, trace := m.trace + [Initialized(m.current)])
  }

  // ---------- What the code asks of its user ----------

  /** States come with their superstates. */
  ghost predicate Closed(states: set<State>) {
    Root in states && forall s | s in states && s.Sub? :: s.parent in states
  }

  /** Init may only transition to proper substates, and Root's does nothing. */
  ghost predicate Obeys(states: set<State>, inits: Inits) {
    && (forall trace :: inits(Root, trace).None?)
    && forall s, trace :: s in states && inits(s, trace).Some? ==>
      inits(s, trace).value.target in states && Below(inits(s, trace).value.target, s)
  }

  ghost predicate Within(states: set<State>, m: Chart) {
    m.current in states && MemoryOk(m.memory) && forall a | a in m.memory :: a in states && m.memory[a] in states
  }

  /** The requests of a list are for states of the machine. */
  ghost predicate Known(states: set<State>, requests: seq<Option<Request>>) {
    forall r | r in requests && r.Some? :: r.value.target in states
  }

  function Under(states: set<State>, s: State): set<State> {
    set x | x in states && Below(x, s)
  }

  lemma LowerIsSmaller(states: set<State>, s: State, x: State)
    requires x in states && Below(x, s)
    ensures Under(states, x) < Under(states, s)
  {
    forall y | y in Under(states, x)
      ensures y in Under(states, s)
    {
      ChildTransitive(y, x, s);
      if y == s {
        ChildAntisymmetric(x, s);
      }
    }
    assert x in Under(states, s) && x !in Under(states, x);
  }

  lemma {:induction false} ClosedUpwards(states: set<State>, s: State, a: State)
    requires Closed(states) && s in states && IsChild(s, a)
    ensures a in states
  {
    if s != a {
      ClosedUpwards(states, s.parent, a);
    }
  }

  lemma TransitionWithin(states: set<State>, m: Chart, t: State)
    requires Closed(states) && Within(states, m) && t in states
    ensures Within(states, Transition(m, t))
  {
    hide IsChild, Below, Remembered, Exits, Entries, Boxed, Unboxed, ExitChain, EntryChain;
    MemoryStaysOk(m.memory, m.current);
    var memory' := Remembered(m.memory, m.current);
    forall a | a in memory'
      ensures a in states && memory'[a] in states
    {
      RememberedWithin(states, m, a);
    }
  }

  lemma RememberedWithin(states: set<State>, m: Chart, a: State)
    requires Closed(states) && Within(states, m)
    ensures var memory' := Remembered(m.memory, m.current);
            a in memory' ==> a in states && memory'[a] in states
  {
    hide Remembered;
    HistoryIsRemembered(m.memory, m.current, a);
    if Below(m.current, a) {
      ClosedUpwards(states, m.current, a);
      ClosedUpwards(states, m.current, Towards(a, m.current));
    }
  }

  lemma InitWithin(states: set<State>, m: Chart, history: bool, inits: Inits)
    requires Within(states, m) && Obeys(states, inits)
    ensures Within(states, Inited(m, history))
    ensures var r := Wanted(m, history, inits);
            r.Some? ==> r.value.target in states && Below(r.value.target, m.current)
  {
    hide Below;
  }

  // ---------- rattleOn ----------

  /** The inner loop: it ends, because every further transition goes to a proper substate. */
  ghost function Settle(states: set<State>, m: Chart, r: Request, inits: Inits): Chart
    requires Closed(states) && Within(states, m) && Obeys(states, inits) && r.target in states
    decreases Under(states, r.target)
  {
    var entered := Transition(m, r.target);
    TransitionWithin(states, m, r.target);
    InitWithin(states, entered, r.history, inits);
    var next := Wanted(entered, r.history, inits);
    if next.None? then Inited(entered, r.history)
    else
      LowerIsSmaller(states, r.target, next.value.target);
      Settle(states, Inited(entered, r.history), next.value, inits)
  }

  lemma {:induction false} SettleWithin(states: set<State>, m: Chart, r: Request, inits: Inits)
    requires Closed(states) && Within(states, m) && Obeys(states, inits) && r.target in states
    ensures var m' := Settle(states, m, r, inits);
            Within(states, m') && IsChild(m'.current, r.target)
    decreases Under(states, r.target)
  {
    hide Transition, Within, Inited, Wanted, Obeys;
    var entered := Transition(m, r.target);
    TransitionWithin(states, m, r.target);
    InitWithin(states, entered, r.history, inits);
    Currents(m, r.target, r.history);
    var next := Wanted(entered, r.history, inits);
    if next.Some? {
      LowerIsSmaller(states, r.target, next.value.target);
      var m' := Inited(entered, r.history);
      SettleWithin(states, m', next.value, inits);
      ChildTransitive(Settle(states, m', next.value, inits).current, next.value.target, r.target);
    }
  }

  lemma Currents(m: Chart, t: State, history: bool)
    ensures Transition(m, t).current == t && Inited(Transition(m, t), history).current == t
  {
  }

  /** The inner loop with or without a pending state. */
  ghost function Settled(states: set<State>, m: Chart, r: Option<Request>, inits: Inits): Chart
    requires Closed(states) && Within(states, m) && Obeys(states, inits) && (r.Some? ==> r.value.target in states)
  {
    if r.None? then m else Settle(states, m, r.value, inits)
  }

  lemma SettledWithin(states: set<State>, m: Chart, r: Option<Request>, inits: Inits)
    requires Closed(states) && Within(states, m) && Obeys(states, inits) && (r.Some? ==> r.value.target in states)
    ensures Within(states, Settled(states, m, r, inits))
  {
    if r.Some? {
      SettleWithin(states, m, r.value, inits);
    }
  }

  /** The whole of rattleOn. handlers are the events dispatched one after the other, each given by what its handler
      asks for. */
  ghost function Rattle(states: set<State>, m: Chart, r: Option<Request>, handlers: seq<Option<Request>>, inits: Inits)
    : Chart
    requires Closed(states) && Within(states, m) && Obeys(states, inits)
    requires Known(states, [r]) && Known(states, handlers)
    decreases |handlers|
  {
    assert r in [r];
    SettledWithin(states, m, r, inits);
    var m' := Settled(states, m, r, inits);
    if handlers == [] then m'
    else
      assert Known(states, [handlers[0]]);
      Rattle(states, m', handlers[0], handlers[1..], inits)
  }

  // ---------- What holds between transitions ----------

  function Lived(live: set<State>, a: Action): set<State> {
    match a
    case Entered(s) => live + {s}
    case Exited(s) => live - {s}
    case Initialized(_) => live
  }

  /** The states entered and not left since. */
  function Live(trace: seq<Action>): set<State> {
    if trace == [] then {} else Lived(Live(trace[..|trace| - 1]), trace[|trace| - 1])
  }

  /** A state is entered once all its superstates are and it is not, left once all its substates are, and initialized
      while it is the innermost one. */
  ghost predicate Proper(live: set<State>, a: Action) {
    match a
    case Entered(s) => s.Sub? && s !in live && (s.parent.Sub? ==> s.parent in live)
    case Exited(s) => s in live && Innermost(live, s)
    case Initialized(s) => (s.Sub? ==> s in live) && Innermost(live, s)
  }

  ghost predicate Innermost(live: set<State>, s: State) {
    forall x | x in live && x.Sub? :: x.parent != s
  }

  ghost predicate Orderly(trace: seq<Action>) {
    forall i | 0 <= i < |trace| :: Proper(Live(trace[..i]), trace[i])
  }

  /** A state and its superstates, without Root. */
  function Active(s: State): set<State> {
    if s.Root? then {} else Active(s.parent) + {s}
  }

  lemma {:induction false} ActiveAre(s: State, x: State)
    ensures x in Active(s) <==> x.Sub? && IsChild(s, x)
  {
    if s.Sub? {
      ActiveAre(s.parent, x);
    }
  }

  lemma NothingUnder(s: State, x: State)
    requires x in Active(s) && x.Sub?
    ensures x.parent != s
  {
    ActiveAre(s, x);
    assert Depth(x) == 1 + Depth(x.parent);
    if x.parent == s {
      ChildIsDeeper(s, x);
    }
  }

  lemma OneMore(trace: seq<Action>, a: Action)
    requires Orderly(trace) && Proper(Live(trace), a)
    ensures Orderly(trace + [a])
    ensures Live(trace + [a]) == Lived(Live(trace), a)
  {
    hide Proper;
    var all := trace + [a];
    assert all[..|trace|] == trace;
    forall i | 0 <= i < |all|
      ensures Proper(Live(all[..i]), all[i])
    {
      if i < |trace| {
        assert all[..i] == trace[..i];
      }
    }
  }

  lemma LeaveOne(trace: seq<Action>, s: State)
    requires s.Sub? && Orderly(trace) && Live(trace) == Active(s)
    ensures Orderly(trace + [Exited(s)]) && Live(trace + [Exited(s)]) == Active(s.parent)
  {
    hide Orderly, Live;
    forall x | x in Active(s) && x.Sub?
      ensures x.parent != s
    {
      NothingUnder(s, x);
    }
    NotAboveItself(s);
    OneMore(trace, Exited(s));
  }

  lemma EnterOne(trace: seq<Action>, t: State)
    requires t.Sub? && Orderly(trace) && Live(trace) == Active(t.parent)
    ensures Orderly(trace + [Entered(t)]) && Live(trace + [Entered(t)]) == Active(t)
  {
    hide Orderly, Live;
    NotAboveItself(t);
    OneMore(trace, Entered(t));
  }

  lemma NotAboveItself(s: State)
    requires s.Sub?
    ensures s !in Active(s.parent)
  {
    ActiveAre(s.parent, s);
    assert Depth(s) == 1 + Depth(s.parent);
    if IsChild(s.parent, s) {
      ChildIsDeeper(s.parent, s);
    }
  }

  lemma {:induction false} LeavingUp(trace: seq<Action>, s: State, j: State)
    requires IsChild(s, j) && Orderly(trace) && Live(trace) == Active(s)
    ensures Orderly(trace + Exits(Up(s, j))) && Live(trace + Exits(Up(s, j))) == Active(j)
    decreases s
  {
    hide Orderly, Live, Active;
    if s == j {
      assert trace + Exits(Up(s, j)) == trace;
    } else {
      LeaveOne(trace, s);
      LeavingUp(trace + [Exited(s)], s.parent, j);
      assert trace + Exits(Up(s, j)) == trace + [Exited(s)] + Exits(Up(s.parent, j));
    }
  }

  lemma {:induction false} EnteringDown(trace: seq<Action>, t: State, j: State)
    requires IsChild(t, j) && Orderly(trace) && Live(trace) == Active(j)
    ensures Orderly(trace + Entries(Down(t, j))) && Live(trace + Entries(Down(t, j))) == Active(t)
    decreases t
  {
    hide Orderly, Live, Active;
    if t == j {
      assert trace + Entries(Down(t, j)) == trace;
    } else {
      EnteringDown(trace, t.parent, j);
      EnterOne(trace + Entries(Down(t.parent, j)), t);
      assert trace + Entries(Down(t, j)) == trace + Entries(Down(t.parent, j)) + [Entered(t)];
    }
  }

  /** Boxes that do not persist exist for exactly the active states, and the active states have all of theirs. */
  ghost predicate BoxesOk(boxes: set<State>, live: set<State>) {
    && (forall s | s in boxes :: BoxOf(s) != Empty && (BoxOf(s) == Own ==> s in live))
    && (forall s | s in live && BoxOf(s) != Empty :: s in boxes)
  }

  ghost predicate Inv(m: Chart) {
    Live(m.trace) == Active(m.current) && Orderly(m.trace) && BoxesOk(m.boxes, Active(m.current))
  }

  lemma ChainsMeet(s: State, t: State)
    ensures exists j :: IsChild(s, j) && IsChild(t, j)
                        && ExitChain(s, t) == Up(s, j) && EntryChain(t, s, true) == Down(t, j)
  {
    if t.Root? {
      ExitAll(s);
      assert IsChild(t, Root) && EntryChain(t, s, true) == Down(t, Root);
    } else {
      TransitionChains(s, t);
      ParentsBelow(t, Join(s, t));
    }
  }

  lemma {:induction false} UpHas(s: State, j: State, x: State)
    requires IsChild(s, j)
    ensures x in Up(s, j) <==> x in Active(s) && x !in Active(j)
  {
    ActiveAre(s, x);
    ActiveAre(j, x);
    if s == j {
    } else {
      UpHas(s.parent, j, x);
      ActiveAre(j, s);
      if IsChild(j, s) {
        ChildAntisymmetric(s, j);
      }
    }
  }

  lemma {:induction false} DownHas(t: State, j: State, x: State)
    requires IsChild(t, j)
    ensures x in Down(t, j) <==> x in Active(t) && x !in Active(j)
  {
    ActiveAre(t, x);
    ActiveAre(j, x);
    if t != j {
      DownHas(t.parent, j, x);
      ActiveAre(j, t);
      if IsChild(j, t) {
        ChildAntisymmetric(t, j);
      }
    }
  }

  lemma BoxesStayOk(boxes: set<State>, s: State, t: State, j: State)
    requires BoxesOk(boxes, Active(s)) && IsChild(s, j) && IsChild(t, j)
    ensures BoxesOk(boxes - Unboxed(Up(s, j)) + Boxed(Down(t, j)), Active(t))
  {
    var boxes' := boxes - Unboxed(Up(s, j)) + Boxed(Down(t, j));
    forall x | x in boxes'
      ensures BoxOf(x) != Empty && (BoxOf(x) == Own ==> x in Active(t))
    {
      UpHas(s, j, x);
      DownHas(t, j, x);
      ActiveGrows(t, j, x);
    }
    forall x | x in Active(t) && BoxOf(x) != Empty
      ensures x in boxes'
    {
      UpHas(s, j, x);
      DownHas(t, j, x);
      ActiveGrows(s, j, x);
    }
  }

  lemma ActiveGrows(s: State, j: State, x: State)
    requires IsChild(s, j)
    ensures x in Active(j) ==> x in Active(s)
  {
    ActiveAre(s, x);
    ActiveAre(j, x);
    if IsChild(j, x) {
      ChildTransitive(s, j, x);
    }
  }

  /** After a transition exactly the states above its target are active, and each of them has its box. */
  lemma TransitionKeepsInv(m: Chart, t: State)
    requires Inv(m)
    ensures Inv(Transition(m, t))
  {
    hide BoxesOk, Orderly, IsChild, Up, Down, ExitChain, EntryChain, Live, Active, Remembered, Entries, Exits;
    ChainsMeet(m.current, t);
    var s := m.current;
    var j :| IsChild(s, j) && IsChild(t, j) && ExitChain(s, t) == Up(s, j) && EntryChain(t, s, true) == Down(t, j);
    LeavingUp(m.trace, s, j);
    EnteringDown(m.trace + Exits(Up(s, j)), t, j);
    BoxesStayOk(m.boxes, s, t, j);
  }

  lemma InitKeepsInv(m: Chart, history: bool)
    requires Inv(m)
    ensures Inv(Inited(m, history))
  {
    hide BoxesOk, Orderly, Live;
    forall x | x in Active(m.current) && x.Sub?
      ensures x.parent != m.current
    {
      NothingUnder(m.current, x);
    }
    ActiveAre(m.current, m.current);
    OneMore(m.trace, Initialized(m.current));
  }

  lemma {:induction false} SettleKeepsInv(states: set<State>, m: Chart, r: Request, inits: Inits)
    requires Closed(states) && Within(states, m) && Obeys(states, inits) && r.target in states && Inv(m)
    ensures Inv(Settle(states, m, r, inits))
    decreases Under(states, r.target)
  {
    hide Inv, Transition, Within, Inited, Wanted, Obeys, Closed;
    var entered := Transition(m, r.target);
    TransitionWithin(states, m, r.target);
    InitWithin(states, entered, r.history, inits);
    Currents(m, r.target, r.history);
    TransitionKeepsInv(m, r.target);
    InitKeepsInv(entered, r.history);
    var next := Wanted(entered, r.history, inits);
    if next.Some? {
      LowerIsSmaller(states, r.target, next.value.target);
      SettleKeepsInv(states, Inited(entered, r.history), next.value, inits);
    }
  }

  /** A machine before it is started. */
  const IDLE: Chart := Chart(Root, map[], {}, [])

  /** In every life of a machine, whatever its handlers and init actions ask for, exactly the states above the current
      one are active, entered and left in order, with their boxes. */
  lemma {:induction false} LifeKeepsInv(states: set<State>, m: Chart, r: Option<Request>,
                                        handlers: seq<Option<Request>>, inits: Inits)
    requires Closed(states) && Within(states, m) && Obeys(states, inits) && Inv(m)
    requires Known(states, [r]) && Known(states, handlers)
    ensures Inv(Rattle(states, m, r, handlers, inits)) && Within(states, Rattle(states, m, r, handlers, inits))
    decreases |handlers|
  {
    hide Inv, Within, Settle, Obeys, Closed;
    assert r in [r];
    SettledWithin(states, m, r, inits);
    if r.Some? {
      SettleKeepsInv(states, m, r.value, inits);
    }
    var m' := Settled(states, m, r, inits);
    if handlers != [] {
      assert Known(states, [handlers[0]]);
      LifeKeepsInv(states, m', handlers[0], handlers[1..], inits);
    }
  }

  lemma IdleIsFine(states: set<State>)
    requires Closed(states)
    ensures Inv(IDLE) && Within(states, IDLE)
  {
  }

  /** Shutting down leaves no state active and no box but persistent ones. */
  lemma ShutdownLeavesNothing(states: set<State>, m: Chart, inits: Inits)
    requires Closed(states) && Within(states, m) && Obeys(states, inits) && Inv(m)
    ensures var m' := Settle(states, m, Request(Root, false), inits);
            Live(m'.trace) == {} && Orderly(m'.trace) && forall s | s in m'.boxes :: BoxOf(s) == Persistent
  {
    hide Within, Transition, Orderly, Live;
    SettleKeepsInv(states, m, Request(Root, false), inits);
    Currents(m, Root, false);
  }

  // ---------- For the machine that does this step by step ----------

  lemma SettleStep(states: set<State>, m: Chart, r: Request, inits: Inits)
    requires Closed(states) && Within(states, m) && Obeys(states, inits) && r.target in states
    ensures var entered := Transition(m, r.target);
            var next := Wanted(entered, r.history, inits);
            && Within(states, Inited(entered, r.history))
            && (next.Some? ==> next.value.target in states
                               && Under(states, next.value.target) < Under(states, r.target))
            && Settle(states, m, r, inits) == Settled(states, Inited(entered, r.history), next, inits)
  {
    hide Transition, Within, Inited, Wanted, Obeys, Under, Below, Closed;
    var entered := Transition(m, r.target);
    TransitionWithin(states, m, r.target);
    InitWithin(states, entered, r.history, inits);
    Currents(m, r.target, r.history);
    var next := Wanted(entered, r.history, inits);
    if next.Some? {
      LowerIsSmaller(states, r.target, next.value.target);
    }
  }

  lemma RattleStep(states: set<State>, m: Chart, r: Option<Request>, handlers: seq<Option<Request>>, inits: Inits)
    requires Closed(states) && Within(states, m) && Obeys(states, inits)
    requires Known(states, [r]) && Known(states, handlers)
    ensures r.Some? ==> r.value.target in states
    ensures Within(states, Settled(states, m, r, inits))
    ensures handlers == [] ==> Rattle(states, m, r, handlers, inits) == Settled(states, m, r, inits)
    ensures handlers != [] ==>
      && Known(states, [handlers[0]]) && Known(states, handlers[1..])
      && Rattle(states, m, r, handlers, inits)
         == Rattle(states, Settled(states, m, r, inits), handlers[0], handlers[1..], inits)
  {
    hide Within, Settled, Obeys, Closed;
    assert r in [r];
    SettledWithin(states, m, r, inits);
  }

  lemma NothingPending(states: set<State>, m: Chart, inits: Inits)
    requires Closed(states) && Within(states, m) && Obeys(states, inits)
    ensures Known(states, [None]) && Known(states, []) && Rattle(states, m, None, [], inits) == m
  {
    hide Within, Closed, Obeys;
  }

  /** Every box of the states a transition leaves is there to be deleted. */
  lemma BoxesToDelete(m: Chart, t: State)
    requires Inv(m)
    ensures forall x | x in ExitChain(m.current, t) && BoxOf(x) == Own :: x in m.boxes
  {
    hide ExitChain, EntryChain, Up, Down, Orderly, Live;
    ChainsMeet(m.current, t);
    var s := m.current;
    var j :| IsChild(s, j) && IsChild(t, j) && ExitChain(s, t) == Up(s, j) && EntryChain(t, s, true) == Down(t, j);
    forall x | x in ExitChain(s, t) && BoxOf(x) == Own
      ensures x in m.boxes
    {
      UpHas(s, j, x);
    }
  }

  // ---------- History transitions ----------

  ghost predicate Apart(s: State, a: State) {
    !IsChild(s, a) && !IsChild(a, s)
  }

  lemma ApartBelow(s: State, t: State, a: State)
    requires Apart(t, a) && IsChild(s, t)
    ensures Apart(s, a)
  {
    if IsChild(s, a) {
      SuperstatesAreChain(s, t, a);
    }
    if IsChild(a, s) {
      ChildTransitive(a, s, t);
    }
  }

  ghost predicate Recalls(m: Chart, a: State, s: State) {
    a in m.memory && m.memory[a] == s
  }

  /** A run-to-completion that goes elsewhere leaves a state's history as the leaving made it. */
  lemma {:induction false} SettlingKeepsHistory(states: set<State>, m: Chart, r: Request, inits: Inits, a: State,
                                                s: State)
    requires Closed(states) && Within(states, m) && Obeys(states, inits) && r.target in states
    requires Apart(r.target, a) && Recalls(Transition(m, r.target), a, s)
    ensures Recalls(Settle(states, m, r, inits), a, s) && Apart(Settle(states, m, r, inits).current, a)
    decreases Under(states, r.target)
  {
    hide Transition, Within, Inited, Wanted, Obeys, Apart, Recalls, Closed;
    var entered := Transition(m, r.target);
    TransitionWithin(states, m, r.target);
    InitWithin(states, entered, r.history, inits);
    Currents(m, r.target, r.history);
    InitElsewhere(entered, r.history, a, s);
    var next := Wanted(entered, r.history, inits);
    if next.Some? {
      var t := next.value.target;
      LowerIsSmaller(states, r.target, t);
      ApartBelow(t, r.target, a);
      var m' := Inited(entered, r.history);
      TransitionElsewhere(m', t, a, s);
      SettlingKeepsHistory(states, m', next.value, inits, a, s);
    }
  }

  lemma InitElsewhere(m: Chart, history: bool, a: State, s: State)
    requires Recalls(m, a, s) && Apart(m.current, a)
    ensures Recalls(Inited(m, history), a, s)
  {
  }

  lemma TransitionElsewhere(m: Chart, t: State, a: State, s: State)
    requires Recalls(m, a, s) && Apart(m.current, a)
    ensures Recalls(Transition(m, t), a, s)
  {
    hide Remembered;
    HistoryIsRemembered(m.memory, m.current, a);
  }

  /** All that is asked for is elsewhere. */
  ghost predicate AllApart(requests: seq<Option<Request>>, a: State) {
    forall r | r in requests && r.Some? :: Apart(r.value.target, a)
  }

  /** While the machine stays elsewhere, through whatever events, a state's history stands. */
  lemma {:induction false} AwayKeepsHistory(states: set<State>, m: Chart, r: Option<Request>,
                                            handlers: seq<Option<Request>>, inits: Inits, a: State, s: State)
    requires Closed(states) && Within(states, m) && Obeys(states, inits)
    requires Known(states, [r]) && Known(states, handlers) && AllApart([r], a) && AllApart(handlers, a)
    requires Apart(m.current, a) && Recalls(m, a, s)
    ensures var m' := Rattle(states, m, r, handlers, inits);
            Recalls(m', a, s) && Apart(m'.current, a)
    decreases |handlers|
  {
    hide Transition, Within, Obeys, Apart, Recalls, Closed, Settle;
    assert r in [r];
    SettledWithin(states, m, r, inits);
    if r.Some? {
      TransitionElsewhere(m, r.value.target, a, s);
      SettlingKeepsHistory(states, m, r.value, inits, a, s);
    }
    if handlers != [] {
      assert Known(states, [handlers[0]]) && AllApart([handlers[0]], a);
      AwayKeepsHistory(states, Settled(states, m, r, inits), handlers[0], handlers[1..], inits, a, s);
    }
  }

  /** A machine that leaves the state s under a state a with deep history and stays elsewhere, through whatever events,
      comes back to s with a transition to a's history; with shallow history it comes back to the state under a on the
      way to s. */
  lemma HistoryReturns(states: set<State>, m: Chart, away: Request, handlers: seq<Option<Request>>, inits: Inits,
                       a: State)
    requires Closed(states) && Within(states, m) && Obeys(states, inits)
    requires Known(states, [Some(away)]) && Known(states, handlers)
    requires AllApart([Some(away)], a) && AllApart(handlers, a)
    requires a.Sub? && a.strategy != NoHistory && Below(m.current, a)
    ensures var m' := Rattle(states, m, Some(away), handlers, inits);
            var s := if a.strategy == Deep then m.current else Towards(a, m.current);
            Recalls(Transition(m', a), a, s) && Wanted(Transition(m', a), true, inits) == Some(Request(s, false))
  {
    hide Settle, Remembered, Within, Obeys, Closed, Apart;
    assert Some(away) in [Some(away)];
    var s := if a.strategy == Deep then m.current else Towards(a, m.current);
    HistoryIsRemembered(m.memory, m.current, a);
    SettlingKeepsHistory(states, m, away, inits, a, s);
    var there := Settle(states, m, away, inits);
    RattleStep(states, m, Some(away), handlers, inits);
    if handlers != [] {
      AwayKeepsHistory(states, there, handlers[0], handlers[1..], inits, a, s);
    }
    TransitionElsewhere(Rattle(states, m, Some(away), handlers, inits), a, a, s);
  }
}
