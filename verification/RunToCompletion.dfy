/** What a machine has done when it comes to rest: every init action's request has been carried out, and nothing more is
    asked for. */
module RunToCompletion {
  import opened Options
  import opened StateTree
  import opened Statechart

  /** The actions from i on begin with more. */
  predicate GoesOn(trace: seq<Action>, i: nat, more: seq<Action>) {
    i <= |trace| && more <= trace[i..]
  }

  /** What follows the init action at i of a state s: the states from s down to the target of its request are entered,
      and the target is initialized, or, if its history is asked for, a state below it. */
  ghost predicate CarriedOut(trace: seq<Action>, i: nat, s: State, r: Request) {
    IsChild(r.target, s) && exists h :: Reached(trace, i, s, r, h)
  }

  predicate Reached(trace: seq<Action>, i: nat, s: State, r: Request, h: State)
    requires IsChild(r.target, s)
  {
    && IsChild(h, r.target) && (!r.history ==> h == r.target)
    && GoesOn(trace, i + 1, Entries(Down(r.target, s)) + Entries(Down(h, r.target)) + [Initialized(h)])
  }

  /** Every request that an init action made has been carried out, from an index on. */
  ghost predicate AllCarriedOut(trace: seq<Action>, from: nat, inits: Inits) {
    forall i | from <= i < |trace| && trace[i].Initialized? ::
      var r := inits(trace[i].s, trace[..i]);
      r.Some? ==> CarriedOut(trace, i, trace[i].s, r.value)
  }

  /** The last thing done was to initialize the current state, which asked for nothing and remembers nothing. */
  ghost predicate AtRest(m: Chart, inits: Inits) {
    && m.trace != [] && m.current !in m.memory
    && var n := |m.trace| - 1;
       m.trace[n] == Initialized(m.current) && inits(m.current, m.trace[..n]).None?
  }

  /** The state that is initialized first after a transition. */
  function First(m: Chart, history: bool): State {
    if history && m.current in m.memory then m.memory[m.current] else m.current
  }

  /** What a transition to r's target and the initialization that follows do. */
  function Opening(m: Chart, r: Request): seq<Action>
    requires MemoryOk(Transition(m, r.target).memory)
  {
    var entered := Transition(m, r.target);
    var h := First(entered, r.history);
    Exits(ExitChain(m.current, r.target)) + Entries(EntryChain(r.target, m.current, true))
    + Entries(Down(h, r.target)) + [Initialized(h)]
  }

  // ---------- One run-to-completion ----------

  /** A transition to a substate leaves nothing. */
  lemma DownOnly(s: State, t: State)
    requires Below(t, s)
    ensures ExitChain(s, t) == [] && EntryChain(t, s, true) == Down(t, s)
  {
    TransitionChains(s, t);
    JoinIsJoin(s, t);
    assert Up(s, Join(s, t)) == [];
  }

  lemma NoActions(s: State)
    ensures Exits([]) == [] && Entries([]) == [] && Down(s, s) == []
  {
  }

  lemma StepDown(m: Chart, t: State)
    requires Below(t, m.current)
    ensures Transition(m, t).trace == m.trace + Entries(Down(t, m.current)) && Transition(m, t).current == t
  {
    DownOnly(m.current, t);
    NoActions(t);
    assert m.trace + [] == m.trace;
  }

  /** Neither exits nor entries are initializations. */
  lemma TransitionInitsNothing(m: Chart, t: State)
    ensures m.trace <= Transition(m, t).trace
    ensures forall i | |m.trace| <= i < |Transition(m, t).trace| :: !Transition(m, t).trace[i].Initialized?
  {
    hide ExitChain, EntryChain, Remembered;
  }

  lemma StillGoesOn(trace: seq<Action>, longer: seq<Action>, i: nat, more: seq<Action>)
    requires GoesOn(trace, i, more) && trace <= longer
    ensures GoesOn(longer, i, more)
  {
    assert longer == trace + longer[|trace|..];
    assert longer[i..] == trace[i..] + longer[|trace|..];
  }

  lemma StillCarriedOut(trace: seq<Action>, longer: seq<Action>, from: nat, inits: Inits)
    requires AllCarriedOut(trace, from, inits) && trace <= longer && AllCarriedOut(longer, |trace|, inits)
    ensures AllCarriedOut(longer, from, inits)
  {
    hide Reached, GoesOn;
    forall i | from <= i < |longer| && longer[i].Initialized? && inits(longer[i].s, longer[..i]).Some?
      ensures CarriedOut(longer, i, longer[i].s, inits(longer[i].s, longer[..i]).value)
    {
      if i < |trace| {
        assert longer[..i] == trace[..i] && longer[i] == trace[i];
        var s, r := trace[i].s, inits(trace[i].s, trace[..i]).value;
        var h :| Reached(trace, i, s, r, h);
        StillReached(trace, longer, i, s, r, h);
      }
    }
  }

  lemma StillReached(trace: seq<Action>, longer: seq<Action>, i: nat, s: State, r: Request, h: State)
    requires IsChild(r.target, s) && Reached(trace, i, s, r, h) && trace <= longer
    ensures Reached(longer, i, s, r, h)
  {
    StillGoesOn(trace, longer, i + 1, Entries(Down(r.target, s)) + Entries(Down(h, r.target)) + [Initialized(h)]);
  }

  /** What a run-to-completion with the request r makes of m. */
  ghost predicate Completes(m: Chart, r: Request, m': Chart, inits: Inits) {
    && MemoryOk(Transition(m, r.target).memory)
    && m.trace + Opening(m, r) <= m'.trace
    && AllCarriedOut(m'.trace, |m.trace|, inits)
    && AtRest(m', inits)
    && IsChild(m'.current, First(Transition(m, r.target), r.history))
  }

  /** The current state after its init action was called. */
  function Called(m: Chart): Chart {
    m.(memory := m.memory - {m.current}, trace := m.trace + [Initialized(m.current)])
  }

  lemma OpeningIs(m: Chart, r: Request)
    requires MemoryOk(Transition(m, r.target).memory)
    ensures var t := Transition(m, r.target);
            var h := First(t, r.history);
            && t.current == r.target && IsChild(h, r.target)
            && m.trace + Opening(m, r) == t.trace + Entries(Down(h, r.target)) + [Initialized(h)]
  {
  }

  lemma InitIsCarriedOut(trace: seq<Action>, before: seq<Action>, s: State, r: Request, h: State)
    requires IsChild(r.target, s) && IsChild(h, r.target) && (!r.history ==> h == r.target)
    requires before + [Initialized(s)] + Entries(Down(r.target, s)) + Entries(Down(h, r.target)) + [Initialized(h)]
             <= trace
    ensures trace[..|before|] == before && trace[|before|] == Initialized(s) && CarriedOut(trace, |before|, s, r)
  {
    hide Entries, Down, IsChild;
    var more := Entries(Down(r.target, s)) + Entries(Down(h, r.target)) + [Initialized(h)];
    var begun := before + [Initialized(s)] + more;
    assert begun == before + [Initialized(s)] + Entries(Down(r.target, s)) + Entries(Down(h, r.target))
                    + [Initialized(h)];
    assert begun[|before| + 1..] == more;
    StillGoesOn(begun, trace, |before| + 1, more);
    assert Reached(trace, |before|, s, r, h);
  }

  lemma OnlyThatInit(start: seq<Action>, entered: seq<Action>, s: State, trace: seq<Action>, inits: Inits)
    requires start <= entered && entered + [Initialized(s)] <= trace
    requires forall i | |start| <= i < |entered| :: !entered[i].Initialized?
    requires var r := inits(s, entered); r.Some? ==> CarriedOut(trace, |entered|, s, r.value)
    requires AllCarriedOut(trace, |entered| + 1, inits)
    ensures AllCarriedOut(trace, |start|, inits)
  {
    hide CarriedOut;
    assert trace[..|entered|] == entered;
    forall i | |start| <= i < |entered|
      ensures !trace[i].Initialized?
    {
      assert trace[i] == entered[i];
    }
  }

  lemma CompletesNow(m: Chart, r: Request, inits: Inits)
    requires var t := Transition(m, r.target);
             MemoryOk(t.memory) && First(t, r.history) == r.target && inits(r.target, t.trace).None?
    ensures Completes(m, r, Called(Transition(m, r.target)), inits)
  {
    var t := Transition(m, r.target);
    OpeningIs(m, r);
    TransitionInitsNothing(m, r.target);
    NoActions(r.target);
    hide Transition, Opening, Reached, MemoryOk;
    assert t.trace + [] == t.trace;
    assert Called(t).trace[..|t.trace|] == t.trace;
  }

  lemma CompletesLater(m: Chart, r: Request, q: Request, m': Chart, inits: Inits)
    requires var t := Transition(m, r.target);
             && MemoryOk(t.memory) && First(t, r.history) == r.target && inits(r.target, t.trace) == Some(q)
             && Below(q.target, r.target) && Completes(Called(t), q, m', inits)
    ensures Completes(m, r, m', inits)
  {
    var t := Transition(m, r.target);
    OpeningIs(m, r);
    TransitionInitsNothing(m, r.target);
    NoActions(r.target);
    OpeningIs(Called(t), q);
    StepDown(Called(t), q.target);
    hide Transition, Opening, Reached, MemoryOk, First, AtRest;
    var h := First(Transition(Called(t), q.target), q.history);
    ChildTransitive(m'.current, h, q.target);
    ChildTransitive(m'.current, q.target, r.target);
    assert t.trace + [] == t.trace;
    InitIsCarriedOut(m'.trace, t.trace, r.target, q, h);
    OnlyThatInit(m.trace, t.trace, r.target, m'.trace, inits);
  }

  lemma CompletesByHistory(m: Chart, r: Request, m': Chart, inits: Inits)
    requires var t := Transition(m, r.target);
             && MemoryOk(t.memory) && r.history && r.target in t.memory
             && Completes(t.(memory := t.memory - {r.target}), Request(t.memory[r.target], false), m', inits)
    ensures Completes(m, r, m', inits)
  {
    var t := Transition(m, r.target);
    var h := t.memory[r.target];
    var m2 := t.(memory := t.memory - {r.target});
    OpeningIs(m, r);
    TransitionInitsNothing(m, r.target);
    OpeningIs(m2, Request(h, false));
    StepDown(m2, h);
    NoActions(h);
    hide Transition, Opening, Reached, MemoryOk, AtRest, CarriedOut;
    assert m.trace + Opening(m, r) == m2.trace + Opening(m2, Request(h, false)) by {
      assert m2.trace + Entries(Down(h, r.target)) + [] == m2.trace + Entries(Down(h, r.target));
    }
    FromEarlier(m.trace, t.trace, m'.trace, inits);
  }

  lemma FromEarlier(start: seq<Action>, entered: seq<Action>, trace: seq<Action>, inits: Inits)
    requires start <= entered <= trace && forall i | |start| <= i < |entered| :: !entered[i].Initialized?
    requires AllCarriedOut(trace, |entered|, inits)
    ensures AllCarriedOut(trace, |start|, inits)
  {
    hide CarriedOut;
    forall i | |start| <= i < |entered|
      ensures !trace[i].Initialized?
    {
      assert trace[i] == entered[i];
    }
  }

  /** One turn of the inner loop, told by history and init action alone. */
  lemma SettleParts(states: set<State>, m: Chart, r: Request, inits: Inits)
    requires Closed(states) && Within(states, m) && Obeys(states, inits) && r.target in states
    ensures var t := Transition(m, r.target);
            var m' := Settle(states, m, r, inits);
            && t.current == r.target && MemoryOk(t.memory)
            && if r.history && r.target in t.memory then
                 var m2, q := t.(memory := t.memory - {r.target}), Request(t.memory[r.target], false);
                 && Within(states, m2) && q.target in states && Under(states, q.target) < Under(states, r.target)
                 && m' == Settle(states, m2, q, inits)
               else
                 var m2, q := Called(t), inits(r.target, t.trace);
                 && Within(states, m2)
                 && (q.None? ==> m' == m2)
                 && (q.Some? ==> && q.value.target in states && Below(q.value.target, r.target)
                                 && Under(states, q.value.target) < Under(states, r.target)
                                 && m' == Settle(states, m2, q.value, inits))
  {
    TransitionWithin(states, m, r.target);
    SettleStep(states, m, r, inits);
    InitWithin(states, Transition(m, r.target), r.history, inits);
    hide Settle, Under, Below, Closed, Obeys;
  }

  /** Run-to-completion begins with the transition that is asked for and goes on, from init action to init action and
      through remembered states, until nothing more is asked for. */
  lemma {:induction false} SettleCompletes(states: set<State>, m: Chart, r: Request, inits: Inits)
    requires Closed(states) && Within(states, m) && Obeys(states, inits) && r.target in states
    ensures Completes(m, r, Settle(states, m, r, inits), inits)
    decreases Under(states, r.target)
  {
    SettleParts(states, m, r, inits);
    hide Transition, Within, Obeys, Closed, Settle, Under, Completes, Below, MemoryOk;
    var t := Transition(m, r.target);
    if r.history && r.target in t.memory {
      var m2, q := t.(memory := t.memory - {r.target}), Request(t.memory[r.target], false);
      SettleCompletes(states, m2, q, inits);
      CompletesByHistory(m, r, Settle(states, m, r, inits), inits);
    } else {
      var q := inits(r.target, t.trace);
      if q.None? {
        CompletesNow(m, r, inits);
      } else {
        SettleCompletes(states, Called(t), q.value, inits);
        CompletesLater(m, r, q.value, Settle(states, m, r, inits), inits);
      }
    }
  }

  // ---------- Whole lives ----------

  lemma ExtendsTrace(m: Chart, r: Request, m': Chart, inits: Inits)
    requires Completes(m, r, m', inits) && AllCarriedOut(m.trace, 0, inits)
    ensures m.trace <= m'.trace && AllCarriedOut(m'.trace, 0, inits)
  {
    hide Opening, Reached;
    StillCarriedOut(m.trace, m'.trace, 0, inits);
  }

  /** In a life of a machine that began in IDLE, whatever its events, every request of an init action has been carried
      out; and if a first state was asked for, the machine always stops where nothing more is asked for. */
  lemma {:induction false} LifeCompletes(states: set<State>, m: Chart, r: Option<Request>,
                                         handlers: seq<Option<Request>>, inits: Inits)
    requires Closed(states) && Within(states, m) && Obeys(states, inits)
    requires Known(states, [r]) && Known(states, handlers)
    requires AllCarriedOut(m.trace, 0, inits)
    ensures var m' := Rattle(states, m, r, handlers, inits);
            && m.trace <= m'.trace && AllCarriedOut(m'.trace, 0, inits)
            && (r.Some? || AtRest(m, inits) ==> AtRest(m', inits))
    decreases |handlers|
  {
    RattleStep(states, m, r, handlers, inits);
    hide Within, Obeys, Closed, Known, Settle, Rattle, Completes, AllCarriedOut, AtRest;
    if r.Some? {
      SettleCompletes(states, m, r.value, inits);
      var m1 := Settle(states, m, r.value, inits);
      ExtendsTrace(m, r.value, m1, inits);
      assert AtRest(m1, inits) by { CompletesToRest(m, r.value, m1, inits); }
    }
    if handlers != [] {
      LifeCompletes(states, Settled(states, m, r, inits), handlers[0], handlers[1..], inits);
    }
  }

  /** What a request, if there is one, makes of m. */
  ghost predicate Handles(m: Chart, r: Option<Request>, m': Chart, inits: Inits) {
    if r.None? then m' == m else Completes(m, r.value, m', inits)
  }

  lemma SettledHandles(states: set<State>, m: Chart, r: Option<Request>, inits: Inits)
    requires Closed(states) && Within(states, m) && Obeys(states, inits) && Known(states, [r])
    ensures Rattle(states, m, r, [], inits) == Settled(states, m, r, inits)
    ensures Handles(m, r, Rattle(states, m, r, [], inits), inits)
  {
    RattleStep(states, m, r, [], inits);
    hide Within, Obeys, Closed, Known, Settle, Rattle, Completes;
    if r.Some? {
      SettleCompletes(states, m, r.value, inits);
    }
  }

  /** Events are handled one after the other, each when the one before it has been run to completion. */
  lemma {:induction false} EventsAreHandled(states: set<State>, m: Chart, r: Option<Request>,
                                            handlers: seq<Option<Request>>, inits: Inits, k: nat)
    requires Closed(states) && Within(states, m) && Obeys(states, inits)
    requires Known(states, [r]) && Known(states, handlers) && k < |handlers|
    ensures Known(states, handlers[..k]) && Known(states, handlers[..k + 1])
    ensures Handles(m, r, Rattle(states, m, r, [], inits), inits)
    ensures Handles(Rattle(states, m, r, handlers[..k], inits), handlers[k],
                    Rattle(states, m, r, handlers[..k + 1], inits), inits)
    decreases k
  {
    assert Known(states, handlers[..k]) && Known(states, handlers[..k + 1]) by { KnownPart(states, handlers, k); }
    SettledHandles(states, m, r, inits);
    RattleStep(states, m, r, handlers[..k + 1], inits);
    var m1 := Settled(states, m, r, inits);
    var first, rest := handlers[0], handlers[1..];
    assert Known(states, [first]) && Known(states, rest) by { RattleStep(states, m, r, handlers, inits); }
    hide Within, Obeys, Closed, Known, Settled, Rattle, Handles;
    assert handlers[..k + 1][0] == first && handlers[..k + 1][1..] == rest[..k];
    if k == 0 {
      assert handlers[..0] == [] && rest[..0] == [];
      SettledHandles(states, m1, first, inits);
    } else {
      RattleStep(states, m, r, handlers[..k], inits);
      assert handlers[..k][0] == first && handlers[..k][1..] == rest[..k - 1] && rest[..k - 1 + 1] == rest[..k];
      assert rest[k - 1] == handlers[k];
      EventsAreHandled(states, m1, first, rest, inits, k - 1);
    }
  }

  lemma KnownPart(states: set<State>, handlers: seq<Option<Request>>, k: nat)
    requires Known(states, handlers) && k < |handlers|
    ensures Known(states, handlers[..k]) && Known(states, handlers[..k + 1])
  {
  }

  lemma CompletesToRest(m: Chart, r: Request, m': Chart, inits: Inits)
    requires Completes(m, r, m', inits)
    ensures AtRest(m', inits)
  {
  }

  lemma IdleHasNothingToCarryOut(inits: Inits)
    ensures AllCarriedOut(IDLE.trace, 0, inits)
  {
  }

  lemma {:induction false} RattleWithin(states: set<State>, m: Chart, r: Option<Request>,
                                        handlers: seq<Option<Request>>, inits: Inits)
    requires Closed(states) && Within(states, m) && Obeys(states, inits)
    requires Known(states, [r]) && Known(states, handlers)
    ensures Within(states, Rattle(states, m, r, handlers, inits))
    decreases |handlers|
  {
    RattleStep(states, m, r, handlers, inits);
    hide Within, Obeys, Closed, Known, Settled, Rattle;
    if handlers != [] {
      RattleWithin(states, Settled(states, m, r, inits), handlers[0], handlers[1..], inits);
    }
  }

  lemma RecalledFirst(m: Chart, a: State, s: State)
    requires Recalls(Transition(m, a), a, s) && MemoryOk(Transition(m, a).memory)
    ensures First(Transition(m, a), true) == s && IsChild(s, a)
  {
  }

  lemma HistoryOpens(states: set<State>, m: Chart, a: State, s: State, inits: Inits)
    requires Closed(states) && Within(states, m) && Obeys(states, inits) && a in states
    requires Recalls(Transition(m, a), a, s)
    ensures var m' := Settle(states, m, Request(a, true), inits);
            && IsChild(s, a) && IsChild(m'.current, s)
            && m.trace + Exits(ExitChain(m.current, a)) + Entries(EntryChain(a, m.current, true))
               + Entries(Down(s, a)) + [Initialized(s)] <= m'.trace
  {
    SettleCompletes(states, m, Request(a, true), inits);
    RecalledFirst(m, a, s);
    hide *;
    var m' := Settle(states, m, Request(a, true), inits);
    CompletesOpening(m, Request(a, true), m', inits);
    OpeningParts(m, a, s);
  }

  lemma CompletesOpening(m: Chart, r: Request, m': Chart, inits: Inits)
    requires Completes(m, r, m', inits)
    ensures MemoryOk(Transition(m, r.target).memory) && m.trace + Opening(m, r) <= m'.trace
    ensures IsChild(m'.current, First(Transition(m, r.target), r.history))
  {
  }

  lemma OpeningParts(m: Chart, a: State, s: State)
    requires MemoryOk(Transition(m, a).memory) && First(Transition(m, a), true) == s && IsChild(s, a)
    ensures m.trace + Opening(m, Request(a, true))
            == m.trace + Exits(ExitChain(m.current, a)) + Entries(EntryChain(a, m.current, true)) + Entries(Down(s, a))
               + [Initialized(s)]
  {
    hide ExitChain, EntryChain, Exits, Entries, Down, Transition, MemoryOk;
  }

  /** A machine that leaves the state s under a state a with deep history, stays elsewhere, and is then asked for a with
      its history enters a, goes down to s and initializes it; with shallow history it does so with the state under a on
      the way to s. */
  lemma HistoryIsEntered(states: set<State>, m: Chart, away: Request, handlers: seq<Option<Request>>, inits: Inits,
                         a: State)
    requires Closed(states) && Within(states, m) && Obeys(states, inits)
    requires Known(states, [Some(away)]) && Known(states, handlers)
    requires AllApart([Some(away)], a) && AllApart(handlers, a)
    requires a.Sub? && a.strategy != NoHistory && Below(m.current, a)
    ensures var m' := Rattle(states, m, Some(away), handlers, inits);
            var s := if a.strategy == Deep then m.current else Towards(a, m.current);
            && a in states && Within(states, m') && IsChild(s, a)
            && var m'' := Settle(states, m', Request(a, true), inits);
               && IsChild(m''.current, s)
               && m'.trace + Exits(ExitChain(m'.current, a)) + Entries(EntryChain(a, m'.current, true))
                  + Entries(Down(s, a)) + [Initialized(s)] <= m''.trace
  {
    assert a in states by { ClosedUpwards(states, m.current, a); }
    RattleWithin(states, m, Some(away), handlers, inits);
    HistoryReturns(states, m, away, handlers, inits, a);
    hide *;
    var s := if a.strategy == Deep then m.current else Towards(a, m.current);
    HistoryOpens(states, Rattle(states, m, Some(away), handlers, inits), a, s, inits);
  }
}
