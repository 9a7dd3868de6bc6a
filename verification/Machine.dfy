/** The machine of inet/src/util/Macho.cc, which carries out the transitions of Statechart in place. What a state
    instance holds (history and box) is kept here by state. */
module MachineModel {
  import opened Options
  import opened StateTree
  import opened Statechart

  class Machine {
    ghost const states: set<State>
    const inits: Inits
    var current: Option<State>
    var pending: Option<Request>
    var memory: Memory
    var boxes: set<State>
    var trace: seq<Action>

    ghost predicate Running()
      reads this
    {
      current.Some?
    }

    ghost function View(): Chart
      requires Running()
      reads this
    {
      Chart(current.value, memory, boxes, trace)
    }

    /** What holds whenever no transition is under way. */
    ghost predicate Valid()
      reads this
    {
      Running() && Closed(states) && Obeys(states, inits) && Within(states, View()) && Inv(View())
    }

    /** A machine that has been started is in Root until its first transition. */
    constructor (ghost states: set<State>, inits: Inits)
      requires Closed(states) && Obeys(states, inits)
      ensures Valid() && View() == IDLE && pending.None? && this.states == states && this.inits == inits
    {
      this.states := states;
      this.inits := inits;
      current, pending, memory, boxes, trace := Some(Root), None, map[], {}, [];
      new;
      IdleIsFine(states);
    }

    /** createBox */
    method CreateBox(s: State)
      modifies `boxes
      ensures boxes == old(boxes) + Boxed([s])
    {
      if s !in boxes && BoxOf(s) != Empty {
        boxes := boxes + {s};
      }
    }

    /** _deleteBox, which asserts that there is a box to delete. */
    method DeleteBox(s: State)
      requires BoxOf(s) == Own ==> s in boxes
      modifies `boxes
      ensures boxes == old(boxes) - Unboxed([s])
    {
      if BoxOf(s) == Own {
        boxes := boxes - {s};
      }
    }

    /** entry */
    method Entry(s: State, previous: State, first: bool)
      modifies `trace, `boxes
      ensures trace == old(trace) + Entries(EntryChain(s, previous, first))
      ensures boxes == old(boxes) + Boxed(EntryChain(s, previous, first))
      decreases s
    {
      if s.Root? {
        return;
      }
      hide IsChild, EntryChain, Entries, Boxed;
      EnteredLast(s, previous, first);
      if first || !IsChild(previous, s) {
        Entry(s.parent, previous, false);
        CreateBox(s);
        trace := trace + [Entered(s)];
      }
    }

    /** exit */
    method Exit(s: State, next: State)
      requires forall x | x in ExitChain(s, next) && BoxOf(x) == Own :: x in boxes
      modifies `trace, `boxes
      ensures trace == old(trace) + Exits(ExitChain(s, next))
      ensures boxes == old(boxes) - Unboxed(ExitChain(s, next))
      decreases s
    {
      if s.Root? {
        return;
      }
      hide IsChild, ExitChain, Exits, Unboxed;
      ExitedFirst(s, next);
      if s == next || !IsChild(next, s) {
        trace := trace + [Exited(s)];
        if BoxOf(s) != Empty {
          DeleteBox(s);
        }
        Exit(s.parent, next);
      }
    }

    /** saveHistory of the state p and what it bubbles up. */
    method SaveHistory(p: State, shallow: State, deep: State)
      modifies `memory
      ensures memory == Saved(old(memory), p, shallow, deep)
      decreases p, 1
    {
      if p.Root? {
        return;
      }
      match p.strategy {
        case Deep => memory := memory[p := deep];
        case Shallow => memory := memory[p := shallow];
        case NoHistory =>
      }
      if HistoryAbove(p) {
        SetHistorySuper(p, deep);
      }
    }

    /** setHistorySuper of the state s. */
    method SetHistorySuper(s: State, deep: State)
      modifies `memory
      ensures memory == if s.Root? then old(memory) else Saved(old(memory), s.parent, s, deep)
      decreases s, 0
    {
      if s.Sub? {
        SaveHistory(s.parent, s, deep);
      }
    }

    /** init of the current state. */
    method Init(history: bool)
      requires Running() && pending.None?
      modifies `memory, `trace, `pending
      ensures View() == Inited(old(View()), history)
      ensures pending == Wanted(old(View()), history, inits)
    {
      var s := current.value;
      if history && s in memory {
        pending := Some(Request(memory[s], false));
      } else {
        pending := inits(s, trace);
        trace := trace + [Initialized(s)];
      }
      memory := memory - {s};
    }

    /** One turn of the inner loop of rattleOn. */
    method Perform()
      requires Valid() && pending.Some? && pending.value.target in states
      modifies this
      ensures Valid()
      ensures var r := old(pending.value);
              var entered := Transition(old(View()), r.target);
              View() == Inited(entered, r.history) && pending == Wanted(entered, r.history, inits)
    {
      hide Inv, Within, Closed, Obeys, Known, Inited, Wanted, ExitChain, EntryChain;
      hide Saved, Exits, Entries, Boxed, Unboxed;
      var r := pending.value;
      ghost var entered := Transition(View(), r.target);
      BoxesToDelete(View(), r.target);
      TransitionWithin(states, View(), r.target);
      TransitionKeepsInv(View(), r.target);
      InitWithin(states, entered, r.history, inits);
      InitKeepsInv(entered, r.history);
      var previous := current.value;
      Exit(previous, r.target);
      SetHistorySuper(previous, previous);
      current := Some(r.target);
      Entry(r.target, previous, true);
      pending := None;
      assert View() == entered;
      Init(r.history);
    }

    /** rattleOn; handlers are the events that are dispatched one after the other, each given by what its handler asks
        for. */
    method RattleOn(handlers: seq<Option<Request>>)
      requires Valid() && Known(states, [pending]) && Known(states, handlers)
      modifies this
      ensures Valid() && pending.None?
      ensures View() == Rattle(states, old(View()), old(pending), handlers, inits)
    {
      hide Inv, Within, Closed, Obeys, Known, Inited, Wanted, Transition, Settle, Rattle;
      var i := 0;
      assert handlers[0..] == handlers;
      while pending.Some? || i < |handlers|
        invariant 0 <= i <= |handlers| && Valid()
        invariant Known(states, [pending]) && Known(states, handlers[i..])
        invariant Rattle(states, View(), pending, handlers[i..], inits)
                  == Rattle(states, old(View()), old(pending), handlers, inits)
        decreases |handlers| - i, pending.Some?
      {
        RattleStep(states, View(), pending, handlers[i..], inits);
        ghost var goal := Settled(states, View(), pending, inits);
        while pending.Some?
          invariant Valid() && (pending.Some? ==> pending.value.target in states)
          invariant Settled(states, View(), pending, inits) == goal
          decreases pending.Some?, if pending.Some? then Under(states, pending.value.target) else {}
        {
          SettleStep(states, View(), pending.value, inits);
          Perform();
        }
        if i < |handlers| {
          assert handlers[i..][0] == handlers[i] && handlers[i..][1..] == handlers[i + 1..];
          pending := handlers[i];
          i := i + 1;
        } else {
          NothingPending(states, View(), inits);
        }
      }
      assert handlers[i..] == [];
      NothingPending(states, View(), inits);
    }

    /** setState */
    method SetState(r: Request)
      requires Valid() && pending.None? && r.target in states
      modifies this
      ensures Valid() && pending.None?
      ensures View() == Settle(states, old(View()), r, inits)
    {
      hide Inv, Within, Closed, Obeys, Settle;
      pending := Some(r);
      RattleOn([]);
    }

    /** clearHistoryDeep: s and everything below it forget. */
    method ClearHistoryDeep(s: State)
      requires Valid()
      modifies `memory
      ensures Valid()
      ensures forall a :: a in memory <==> a in old(memory) && !IsChild(a, s)
      ensures forall a | a in memory :: memory[a] == old(memory)[a]
    {
      hide IsChild, Inv, Closed, Obeys;
      var rest := memory.Keys;
      while rest != {}
        invariant rest <= old(memory).Keys
        invariant forall a :: a in memory <==> a in old(memory) && (a in rest || !IsChild(a, s))
        invariant forall a | a in memory :: memory[a] == old(memory)[a]
        decreases rest
      {
        var a :| a in rest;
        if IsChild(a, s) {
          memory := memory - {a};
        }
        rest := rest - {a};
      }
      assert Inv(View()) by { MemoryIsFree(old(View()), memory); }
    }

    /** shutdown */
    method Shutdown()
      requires Valid() && pending.None?
      modifies this
      ensures !Running() && Live(trace) == {} && forall s | s in boxes :: BoxOf(s) == Persistent
    {
      hide Inv, Within, Obeys, Settle, Transition, Inited, Live;
      ShutdownLeavesNothing(states, View(), inits);
      SetState(Request(Root, false));
      current := None;
    }
  }

  lemma MemoryIsFree(m: Chart, memory: Memory)
    requires Inv(m)
    ensures Inv(m.(memory := memory))
  {
  }

  lemma {:induction false} ExitsAbove(s: State, next: State, x: State)
    requires x in ExitChain(s, next)
    ensures IsChild(s, x)
  {
    if x != s {
      ExitsAbove(s.parent, next, x);
    }
  }

  lemma ExitedFirst(s: State, next: State)
    requires s.Sub?
    ensures s !in ExitChain(s.parent, next)
    ensures var leaves, rest := s == next || !IsChild(next, s), ExitChain(s.parent, next);
            && (forall x | x in ExitChain(s, next) :: leaves && (x == s || x in rest))
            && (leaves ==> s in ExitChain(s, next) && forall x | x in rest :: x in ExitChain(s, next))
            && Exits(ExitChain(s, next)) == (if leaves then [Exited(s)] + Exits(rest) else [])
            && Unboxed(ExitChain(s, next)) == if leaves then Unboxed([s]) + Unboxed(rest) else {}
  {
    hide Exits, Unboxed;
    NotInRest(s, next);
    OneExit(s, ExitChain(s.parent, next));
    NoExits();
  }

  lemma NotInRest(s: State, next: State)
    requires s.Sub?
    ensures s !in ExitChain(s.parent, next)
  {
    assert Depth(s) == 1 + Depth(s.parent);
    if s in ExitChain(s.parent, next) {
      ExitsAbove(s.parent, next, s);
      ChildIsDeeper(s.parent, s);
    }
  }

  lemma OneExit(s: State, rest: seq<State>)
    ensures Exits([s] + rest) == [Exited(s)] + Exits(rest)
    ensures Unboxed([s] + rest) == Unboxed([s]) + Unboxed(rest)
  {
  }

  lemma NoExits()
    ensures Exits([]) == [] && Unboxed([]) == {}
  {
  }

  lemma EnteredLast(s: State, previous: State, first: bool)
    requires s.Sub?
    ensures var enters, rest := first || !IsChild(previous, s), EntryChain(s.parent, previous, false);
            && Entries(EntryChain(s, previous, first)) == (if enters then Entries(rest) + [Entered(s)] else [])
            && Boxed(EntryChain(s, previous, first)) == if enters then Boxed(rest) + Boxed([s]) else {}
  {
    if first || !IsChild(previous, s) {
      assert EntryChain(s, previous, first) == EntryChain(s.parent, previous, false) + [s];
    }
  }
}
