/** The states of a hierarchical state machine (inet/src/util/Macho.h) and the two recursions that decide which of
    them a transition leaves and enters (inet/src/util/Macho.cc, exit and entry). */
module StateTree {
  datatype Strategy = NoHistory | Shallow | Deep

  /** What kind of box a state has: the shared empty one, one of its own, or one that survives the state. */
  datatype Box = Empty | Own | Persistent

  /** A state is known by its superstate and its id; Root is above the top state. */
  datatype State = Root | Sub(parent: State, id: nat, strategy: Strategy, box: Box)

  /** isChild: s is a or below it. */
  predicate IsChild(s: State, a: State) {
    s == a || (s.Sub? && IsChild(s.parent, a))
  }

  predicate Below(s: State, a: State) {
    s != a && IsChild(s, a)
  }

  function Depth(s: State): nat {
    if s.Root? then 0 else 1 + Depth(s.parent)
  }

  lemma {:induction false} ChildIsDeeper(s: State, a: State)
    requires IsChild(s, a)
    ensures s == a || Depth(a) < Depth(s)
  {
    if s != a {
      ChildIsDeeper(s.parent, a);
    }
  }

  lemma {:induction false} RootAboveAll(s: State)
    ensures IsChild(s, Root)
  {
    if s.Sub? {
      RootAboveAll(s.parent);
    }
  }

  lemma {:induction false} ChildTransitive(s: State, a: State, b: State)
    requires IsChild(s, a) && IsChild(a, b)
    ensures IsChild(s, b)
  {
    if s != a {
      ChildTransitive(s.parent, a, b);
    }
  }

  lemma ChildAntisymmetric(s: State, a: State)
    requires IsChild(s, a) && IsChild(a, s)
    ensures s == a
  {
    ChildIsDeeper(s, a);
    ChildIsDeeper(a, s);
  }

  /** The superstates of a state form a chain. */
  lemma {:induction false} SuperstatesAreChain(s: State, a: State, b: State)
    requires IsChild(s, a) && IsChild(s, b)
    ensures IsChild(a, b) || IsChild(b, a)
  {
    if s != a && s != b {
      SuperstatesAreChain(s.parent, a, b);
    }
  }

  // ---------- exit and entry ----------

  /** The states that exit leaves, in that order. */
  function ExitChain(s: State, next: State): seq<State> {
    if s.Sub? && (s == next || !IsChild(next, s)) then [s] + ExitChain(s.parent, next) else []
  }

  /** The states that entry enters, in that order. */
  function EntryChain(t: State, previous: State, first: bool): seq<State> {
    if t.Sub? && (first || !IsChild(previous, t)) then EntryChain(t.parent, previous, false) + [t] else []
  }

  /** From s up to the state under j. */
  function Up(s: State, j: State): seq<State>
    requires IsChild(s, j)
  {
    if s == j then [] else [s] + Up(s.parent, j)
  }

  /** From the state under j down to t. */
  function Down(t: State, j: State): seq<State>
    requires IsChild(t, j)
  {
    if t == j then [] else Down(t.parent, j) + [t]
  }

  /** The lowest state that is above t and is s or above s. */
  ghost predicate IsJoin(j: State, s: State, t: State) {
    Below(t, j) && IsChild(s, j) && forall k :: Below(t, k) && IsChild(s, k) ==> IsChild(j, k)
  }

  ghost predicate IsLeastCommon(j: State, s: State, t: State) {
    IsChild(t, j) && IsChild(s, j) && forall k :: IsChild(t, k) && IsChild(s, k) ==> IsChild(j, k)
  }

  function Join(s: State, t: State): (j: State)
    requires t.Sub?
    ensures IsChild(s, j) && IsChild(t.parent, j)
  {
    if IsChild(s, t.parent) then t.parent
    else
      RootAboveAll(s);
      Join(s, t.parent)
  }

  lemma {:induction false} ParentsBelow(t: State, k: State)
    requires t.Sub?
    ensures Below(t, k) <==> IsChild(t.parent, k)
  {
    assert Depth(t) == 1 + Depth(t.parent);
    if IsChild(t.parent, t) {
      ChildIsDeeper(t.parent, t);
    }
  }

  lemma {:induction false} JoinIsJoin(s: State, t: State)
    requires t.Sub?
    ensures IsJoin(Join(s, t), s, t)
  {
    ParentsBelow(t, Join(s, t));
    forall k | Below(t, k) && IsChild(s, k)
      ensures IsChild(Join(s, t), k)
    {
      ParentsBelow(t, k);
      if !IsChild(s, t.parent) {
        RootAboveAll(s);
        JoinIsJoin(s, t.parent);
      }
    }
  }

  /** The join is the least common superstate, or the parent of t if t is s or above it. */
  lemma JoinCases(s: State, t: State)
    requires t.Sub?
    ensures IsChild(s, t) ==> Join(s, t) == t.parent
    ensures !IsChild(s, t) ==> IsLeastCommon(Join(s, t), s, t)
  {
    JoinIsJoin(s, t);
    if IsChild(s, t) {
      ChildTransitive(s, t, t.parent);
    }
  }

  lemma {:induction false} ExitUpTo(s: State, t: State, j: State)
    requires IsJoin(j, s, t)
    ensures ExitChain(s, t) == Up(s, j)
  {
    if s != j {
      if Below(t, s) {
        ChildAntisymmetric(s, j);
      }
      forall k | Below(t, k) && IsChild(s.parent, k)
        ensures IsChild(j, k)
      {
        ParentsBelow(s, k);
      }
      ExitUpTo(s.parent, t, j);
    }
  }

  lemma {:induction false} EntryDownTo(t: State, s: State, j: State)
    requires IsChild(t, j) && IsChild(s, j)
    requires forall k :: IsChild(t, k) && IsChild(s, k) ==> IsChild(j, k)
    ensures EntryChain(t, s, false) == Down(t, j)
  {
    if t != j {
      if IsChild(s, t) {
        ChildAntisymmetric(t, j);
      }
      forall k | IsChild(t.parent, k) && IsChild(s, k)
        ensures IsChild(j, k)
      {
        ParentsBelow(t, k);
      }
      EntryDownTo(t.parent, s, j);
    }
  }

  /** A transition from s to t leaves the chain from s up to the join and enters the chain from there down to t. */
  lemma TransitionChains(s: State, t: State)
    requires t.Sub?
    ensures ExitChain(s, t) == Up(s, Join(s, t))
    ensures EntryChain(t, s, true) == Down(t, Join(s, t))
  {
    var j := Join(s, t);
    JoinIsJoin(s, t);
    ExitUpTo(s, t, j);
    ParentsBelow(t, j);
    forall k | IsChild(t.parent, k) && IsChild(s, k)
      ensures IsChild(j, k)
    {
      ParentsBelow(t, k);
    }
    EntryDownTo(t.parent, s, j);
  }

  /** On the way to Root everything is left. */
  lemma {:induction false} ExitAll(s: State)
    ensures IsChild(s, Root) && ExitChain(s, Root) == Up(s, Root)
  {
    RootAboveAll(s);
    if s.Sub? {
      ExitAll(s.parent);
    }
  }

  // ---------- History ----------

  /** Whether _setHistorySuper, called on a state's superclass, does anything: some superstate has a strategy. */
  predicate HistoryAbove(s: State) {
    s.Sub? && s.parent.Sub? && (s.parent.strategy != NoHistory || HistoryAbove(s.parent))
  }

  type Memory = map<State, State>

  /** _saveHistory of p with the bubbling up that follows it. */
  function Saved(memory: Memory, p: State, shallow: State, deep: State): Memory
    decreases p
  {
    if p.Root? then memory
    else
      var here := match p.strategy
                  case Deep => memory[p := deep]
                  case Shallow => memory[p := shallow]
                  case NoHistory => memory;
      if HistoryAbove(p) then Saved(here, p.parent, p, deep) else here
  }

  /** setHistorySuper, called on the state that is left with itself. */
  function Remembered(memory: Memory, s: State): Memory {
    if s.Root? then memory else Saved(memory, s.parent, s, s)
  }

  /** The state under a on the way to s. */
  function Towards(a: State, s: State): (c: State)
    requires Below(s, a)
    ensures c.Sub? && c.parent == a && IsChild(s, c)
  {
    if s.parent == a then s else Towards(a, s.parent)
  }

  /** What a state's memory holds after s has been left. */
  ghost predicate RemembersAt(memory: Memory, memory': Memory, a: State, s: State) {
    if Below(s, a) && a.Sub? && a.strategy != NoHistory then
      a in memory' && memory'[a] == if a.strategy == Deep then s else Towards(a, s)
    else
      (a in memory' <==> a in memory) && (a in memory ==> memory'[a] == memory[a])
  }

  lemma {:induction false} NothingAbove(p: State, a: State)
    requires p.Sub? && !HistoryAbove(p) && Below(p, a) && a.Sub?
    ensures a.strategy == NoHistory
  {
    if p.parent != a {
      assert IsChild(p.parent, a);
      NothingAbove(p.parent, a);
    }
  }

  lemma {:induction false} TowardsUp(a: State, x: State, s: State)
    requires x.Sub? && IsChild(s, x) && Below(x, a) && Below(s, a)
    ensures Towards(a, x) == Towards(a, s)
  {
    if s != x {
      ParentsBelow(s, x);
      ParentsBelow(x, a);
      ChildTransitive(s.parent, x, a);
      if s.parent == a {
        ChildAntisymmetric(x, a);
      }
      TowardsUp(a, x, s.parent);
    }
  }

  /** Bubbling on from p keeps what is remembered below and sets what is above. */
  lemma {:induction false} SavedAt(memory: Memory, p: State, c: State, s: State, a: State)
    requires c.Sub? && c.parent == p && IsChild(s, c)
    ensures var memory' := Saved(memory, p, c, s);
            if IsChild(p, a) && a.Sub? && a.strategy != NoHistory then
              a in memory' && Below(s, a) && memory'[a] == if a.strategy == Deep then s else Towards(a, s)
            else (a in memory' <==> a in memory) && (a in memory ==> memory'[a] == memory[a])
    decreases p
  {
    if p.Sub? {
      var here := match p.strategy
                  case Deep => memory[p := s]
                  case Shallow => memory[p := c]
                  case NoHistory => memory;
      if IsChild(p, a) {
        ParentsBelow(c, a);
        ChildTransitive(s, c, a);
        if s == a {
          ChildAntisymmetric(s, c);
        }
        if a == p {
          TowardsUp(p, c, s);
        }
      }
      if HistoryAbove(p) {
        ChildTransitive(s, c, p);
        SavedAt(here, p.parent, p, s, a);
        ParentsBelow(p, a);
      } else if Below(p, a) && a.Sub? {
        NothingAbove(p, a);
      }
    }
  }

  /** After s has been left, every superstate with deep history remembers s, every one with shallow history the state
      under it on the way to s, and nothing else has changed, however many states without history lie between. */
  lemma HistoryIsRemembered(memory: Memory, s: State, a: State)
    ensures RemembersAt(memory, Remembered(memory, s), a, s)
  {
    if s.Sub? {
      SavedAt(memory, s.parent, s, s, a);
      ParentsBelow(s, a);
    }
  }

  /** Only states below a state are remembered by it. */
  ghost predicate MemoryOk(memory: Memory) {
    forall a | a in memory :: Below(memory[a], a)
  }

  lemma TowardsIsBelow(a: State, s: State)
    requires Below(s, a)
    ensures Below(Towards(a, s), a)
  {
    ParentsBelow(Towards(a, s), a);
  }

  lemma MemoryStaysOk(memory: Memory, s: State)
    requires MemoryOk(memory)
    ensures MemoryOk(Remembered(memory, s))
  {
    hide Remembered, Below;
    var memory' := Remembered(memory, s);
    forall a | a in memory'
      ensures Below(memory'[a], a)
    {
      HistoryIsRemembered(memory, s, a);
      if Below(s, a) {
        TowardsIsBelow(a, s);
      }
    }
  }
}
