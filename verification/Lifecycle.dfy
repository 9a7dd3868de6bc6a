/** Staged operations over a module tree, on values (inet/src/base/LifecycleController.cc): what a controller has called
    and what it waits for after it was told to start and after each completion. */
module Lifecycle {
  import opened ModuleTree

  /** handleOperationStage calls, completions reported by modules, and the invocation of the operation's callback. */
  datatype Event = Call(id: nat, stage: nat) | Completion(id: nat, stage: nat) | Finished

  /** An operation and its modules' answers: whether a module is done with a stage when handleOperationStage returns. */
  datatype Plan = Plan(root: Module, stages: nat, answers: (nat, nat) -> bool, callback: bool)

  /** pending are the modules whose callbacks are in pendingList. */
  datatype Op = Op(stage: nat, pending: seq<nat>, inside: bool, log: seq<Event>)

  function Calls(ids: seq<nat>, stage: nat): seq<Event> {
    seq(|ids|, i requires 0 <= i < |ids| => Call(ids[i], stage))
  }

  /** The modules that are not done at once. */
  function Waiting(p: Plan, ids: seq<nat>, stage: nat): seq<nat> {
    if ids == [] then []
    else
      var last := ids[|ids| - 1];
      Waiting(p, ids[..|ids| - 1], stage) + if p.answers(last, stage) then [] else [last]
  }

  function OneStage(p: Plan, op: Op): Op {
    var ids := Preorder(p.root);
    op.(pending := op.pending + Waiting(p, ids, op.stage), log := op.log + Calls(ids, op.stage))
  }

  /** resumeOperation */
  function Resumed(p: Plan, op: Op): Op
    decreases p.stages - op.stage
  {
    if op.stage >= p.stages then if p.callback && !op.inside then op.(log := op.log + [Finished]) else op
    else
      var o := OneStage(p, op);
      if o.pending == [] then Resumed(p, o.(stage := o.stage + 1)) else o
  }

  /** initiateOperation */
  function Initiated(p: Plan): Op {
    Resumed(p, Op(0, [], true, []))
  }

  function Without(s: seq<nat>, x: nat): seq<nat> {
    if s == [] then [] else if s[0] == x then s[1..] else [s[0]] + Without(s[1..], x)
  }

  function Reported(op: Op, id: nat): Op {
    op.(pending := Without(op.pending, id), log := op.log + [Completion(id, op.stage)])
  }

  /** moduleOperationStageCompleted */
  function Completed(p: Plan, op: Op, id: nat): Op {
    var o := Reported(op, id);
    if o.pending == [] then Resumed(p, o.(stage := o.stage + 1, inside := false)) else o
  }

  /** After the operation was initiated and the modules of the list have completed what they were pending on. */
  function After(p: Plan, completions: seq<nat>): Op {
    if completions == [] then Initiated(p)
    else Completed(p, After(p, completions[..|completions| - 1]), completions[|completions| - 1])
  }

  /** Every completion is one that is pending: a callback is invoked once, in a later event. */
  predicate Legal(p: Plan, completions: seq<nat>) {
    forall i | 0 <= i < |completions| :: completions[i] in After(p, completions[..i]).pending
  }

  // ---------- Which calls are made ----------

  /** The calls in a log. */
  function CallsIn(log: seq<Event>): seq<Event> {
    if log == [] then []
    else
      var e := log[|log| - 1];
      CallsIn(log[..|log| - 1]) + if e.Call? then [e] else []
  }

  /** One call to every participant in order, stage after stage. */
  function AllCalls(ids: seq<nat>, stages: nat): seq<Event> {
    if stages == 0 then [] else AllCalls(ids, stages - 1) + Calls(ids, stages - 1)
  }

  /** The stages whose calls have been made. */
  function StagesCalled(p: Plan, op: Op): nat {
    if op.pending == [] then op.stage else op.stage + 1
  }

  lemma {:induction false} CallsInCalls(log: seq<Event>, ids: seq<nat>, stage: nat)
    ensures CallsIn(log + Calls(ids, stage)) == CallsIn(log) + Calls(ids, stage)
  {
    var more := Calls(ids, stage);
    if ids == [] {
      assert log + more == log;
    } else {
      var n := |ids| - 1;
      assert (log + more)[..|log| + n] == log + Calls(ids[..n], stage);
      CallsInCalls(log, ids[..n], stage);
      assert Calls(ids[..n], stage) + [more[n]] == more;
    }
  }

  lemma CallsInOther(log: seq<Event>, e: Event)
    requires !e.Call?
    ensures CallsIn(log + [e]) == CallsIn(log)
  {
    assert (log + [e])[..|log|] == log;
  }

  /** The calls are those of a whole number of stages. */
  ghost predicate InOrder(p: Plan, op: Op) {
    CallsIn(op.log) == AllCalls(Preorder(p.root), StagesCalled(p, op))
  }

  /** At rest an operation waits for something, or is over. */
  ghost predicate AtRest(p: Plan, op: Op) {
    op.stage <= p.stages && (op.pending == [] <==> op.stage == p.stages)
  }

  lemma {:induction false} ResumedInOrder(p: Plan, op: Op)
    requires op.stage <= p.stages && op.pending == [] && InOrder(p, op)
    ensures InOrder(p, Resumed(p, op)) && AtRest(p, Resumed(p, op))
    decreases p.stages - op.stage
  {
    hide CallsIn, Preorder, Calls, Waiting;
    if op.stage == p.stages {
      CallsInOther(op.log, Finished);
    } else {
      CallsInCalls(op.log, Preorder(p.root), op.stage);
      var o := OneStage(p, op);
      if o.pending == [] {
        ResumedInOrder(p, o.(stage := o.stage + 1));
      }
    }
  }

  lemma {:induction false} WithoutOne(s: seq<nat>, x: nat)
    requires x in s
    ensures |Without(s, x)| == |s| - 1 && multiset(Without(s, x)) == multiset(s) - multiset{x}
  {
    assert s == [s[0]] + s[1..];
    if s[0] != x {
      WithoutOne(s[1..], x);
    }
  }

  lemma CompletedInOrder(p: Plan, op: Op, id: nat)
    requires AtRest(p, op) && InOrder(p, op) && id in op.pending
    ensures InOrder(p, Completed(p, op, id)) && AtRest(p, Completed(p, op, id))
  {
    hide CallsIn, AllCalls, Preorder, Without, Resumed;
    CallsInOther(op.log, Completion(id, op.stage));
    var o := Reported(op, id);
    if o.pending == [] {
      ResumedInOrder(p, o.(stage := o.stage + 1, inside := false));
    }
  }

  /** Under every order of completions, the participants are called stage by stage, in preorder, each once a stage;
      the operation either waits for a module or is over. */
  lemma {:induction false} StageByStage(p: Plan, completions: seq<nat>)
    requires Legal(p, completions)
    ensures InOrder(p, After(p, completions)) && AtRest(p, After(p, completions))
  {
    hide InOrder, AtRest, Resumed, Completed;
    if completions == [] {
      NothingCalled(p);
      ResumedInOrder(p, Op(0, [], true, []));
    } else {
      var n := |completions| - 1;
      LegalBefore(p, completions);
      StageByStage(p, completions[..n]);
      CompletedInOrder(p, After(p, completions[..n]), completions[n]);
    }
  }

  lemma NothingCalled(p: Plan)
    ensures InOrder(p, Op(0, [], true, []))
  {
  }

  lemma LegalBefore(p: Plan, completions: seq<nat>)
    requires Legal(p, completions) && completions != []
    ensures Legal(p, completions[..|completions| - 1])
    ensures completions[|completions| - 1] in After(p, completions[..|completions| - 1]).pending
  {
    var before := completions[..|completions| - 1];
    forall i | 0 <= i < |before|
      ensures before[i] in After(p, before[..i]).pending
    {
      assert before[..i] == completions[..i];
    }
  }

  // ---------- The barrier ----------

  /** Everyone has been called for the stage, and has been done at once or has completed it since. */
  ghost predicate StageOver(p: Plan, log: seq<Event>, stage: nat) {
    forall id | Participant(p.root, id) ::
      Call(id, stage) in log && (p.answers(id, stage) || Completion(id, stage) in log)
  }

  /** No call for a stage before all earlier stages are over. */
  ghost predicate Barrier(p: Plan, log: seq<Event>) {
    forall i, stage | 0 <= i < |log| && log[i].Call? && 0 <= stage < log[i].stage :: StageOver(p, log[..i], stage)
  }

  /** Where an operation stands: the earlier stages are over, and so would this one be without those pending. */
  ghost predicate Standing(p: Plan, op: Op) {
    && Barrier(p, op.log)
    && (forall stage | 0 <= stage < op.stage :: StageOver(p, op.log, stage))
    && (op.pending != [] ==> forall id | Participant(p.root, id) ::
          Call(id, op.stage) in op.log
          && (p.answers(id, op.stage) || id in op.pending || Completion(id, op.stage) in op.log))
  }

  lemma StageStaysOver(p: Plan, log: seq<Event>, more: seq<Event>, stage: nat)
    requires StageOver(p, log, stage)
    ensures StageOver(p, log + more, stage)
  {
  }

  lemma BarrierStays(p: Plan, log: seq<Event>, more: seq<Event>, stage: nat)
    requires Barrier(p, log) && forall s | 0 <= s < stage :: StageOver(p, log, s)
    requires forall e | e in more :: e.Call? ==> e.stage == stage
    ensures Barrier(p, log + more)
  {
    hide StageOver;
    var all := log + more;
    forall i, s | 0 <= i < |all| && all[i].Call? && 0 <= s < all[i].stage
      ensures StageOver(p, all[..i], s)
    {
      if i < |log| {
        assert all[..i] == log[..i];
      } else {
        assert all[..i] == log + more[..i - |log|];
        assert all[i] in more;
        StageStaysOver(p, log, more[..i - |log|], s);
      }
    }
  }

  lemma {:induction false} WaitingAre(p: Plan, ids: seq<nat>, stage: nat, id: nat)
    ensures id in Waiting(p, ids, stage) <==> id in ids && !p.answers(id, stage)
  {
    if ids != [] {
      var n := |ids| - 1;
      assert ids == ids[..n] + [ids[n]];
      WaitingAre(p, ids[..n], stage, id);
    }
  }

  lemma OneStageStands(p: Plan, op: Op)
    requires Standing(p, op) && op.pending == []
    ensures var o := OneStage(p, op);
            Standing(p, o) && (o.pending == [] ==> Standing(p, o.(stage := o.stage + 1)))
  {
    PreorderListsOnce(p.root);
    hide StageOver, Barrier, Preorder, Participant, Waiting;
    var ids, o := Preorder(p.root), OneStage(p, op);
    BarrierStays(p, op.log, Calls(ids, op.stage), op.stage);
    forall s | 0 <= s < op.stage
      ensures StageOver(p, o.log, s)
    {
      StageStaysOver(p, op.log, Calls(ids, op.stage), s);
    }
    forall id | id in ids
      ensures Call(id, op.stage) in o.log && (p.answers(id, op.stage) || id in o.pending)
    {
      WaitingAre(p, ids, op.stage, id);
      var k :| 0 <= k < |ids| && ids[k] == id;
      assert o.log[|op.log| + k] == Call(id, op.stage);
    }
    if o.pending == [] {
      AllCalledMeansOver(p, o, op.stage);
    }
  }

  lemma AllCalledMeansOver(p: Plan, o: Op, stage: nat)
    requires o.pending == []
    requires forall id | Participant(p.root, id) ::
               Call(id, stage) in o.log && (p.answers(id, stage) || id in o.pending)
    ensures StageOver(p, o.log, stage)
  {
    hide Participant;
  }

  lemma {:induction false} ResumedStands(p: Plan, op: Op)
    requires Standing(p, op) && op.pending == []
    ensures Standing(p, Resumed(p, op))
    decreases p.stages - op.stage
  {
    hide Standing, OneStage;
    if op.stage >= p.stages {
      FinishStands(p, op);
    } else {
      OneStageStands(p, op);
      var o := OneStage(p, op);
      if o.pending == [] {
        assert o.stage == op.stage by { StageIsKept(p, op); }
        ResumedStands(p, o.(stage := o.stage + 1));
      }
    }
  }

  lemma StageIsKept(p: Plan, op: Op)
    ensures OneStage(p, op).stage == op.stage
  {
  }

  lemma FinishStands(p: Plan, op: Op)
    requires Standing(p, op) && op.pending == []
    ensures Standing(p, op.(log := op.log + [Finished]))
  {
    hide Barrier, StageOver;
    BarrierStays(p, op.log, [Finished], op.stage);
    forall s | 0 <= s < op.stage
      ensures StageOver(p, op.log + [Finished], s)
    {
      StageStaysOver(p, op.log, [Finished], s);
    }
  }

  lemma ReportedStands(p: Plan, op: Op, id: nat)
    requires Standing(p, op) && id in op.pending
    ensures var o := Reported(op, id);
            && Standing(p, o)
            && (o.pending == [] ==> Standing(p, o.(stage := o.stage + 1, inside := false)))
  {
    hide Barrier, Participant, Without;
    var e := Completion(id, op.stage);
    var o := Reported(op, id);
    WithoutOne(op.pending, id);
    BarrierStays(p, op.log, [e], op.stage);
    forall s | 0 <= s < op.stage
      ensures StageOver(p, o.log, s)
    {
      StageStaysOver(p, op.log, [e], s);
    }
    assert e == o.log[|op.log|];
    forall x | Participant(p.root, x)
      ensures Call(x, op.stage) in o.log
      ensures p.answers(x, op.stage) || x in o.pending || Completion(x, op.stage) in o.log
    {
      if x in op.pending && x != id {
        assert x in multiset(op.pending);
        assert x in multiset(o.pending);
      }
    }
  }

  lemma CompletedStands(p: Plan, op: Op, id: nat)
    requires Standing(p, op) && id in op.pending
    ensures Standing(p, Completed(p, op, id))
  {
    hide Standing, Without, Resumed;
    ReportedStands(p, op, id);
    var o := Reported(op, id);
    if o.pending == [] {
      ResumedStands(p, o.(stage := o.stage + 1, inside := false));
    }
  }

  lemma InitialStands(p: Plan)
    ensures Standing(p, Op(0, [], true, []))
  {
  }

  /** Under every order of completions no module is called for a stage before every module is done with all earlier
      stages, and an operation that is over has all its stages over. */
  lemma {:induction false} StagesAreBarriers(p: Plan, completions: seq<nat>)
    requires Legal(p, completions)
    ensures var op := After(p, completions);
            && Standing(p, op) && Barrier(p, op.log)
            && forall stage | 0 <= stage < op.stage :: StageOver(p, op.log, stage)
  {
    hide StageOver, Barrier, Resumed, Completed;
    if completions == [] {
      InitialStands(p);
      ResumedStands(p, Op(0, [], true, []));
    } else {
      var n := |completions| - 1;
      LegalBefore(p, completions);
      StagesAreBarriers(p, completions[..n]);
      CompletedStands(p, After(p, completions[..n]), completions[n]);
    }
  }

  // ---------- Completions and the callback ----------

  /** How many completions the stages from this one on will need. */
  function Owed(p: Plan, stage: nat): nat
    decreases p.stages - stage
  {
    if stage >= p.stages then 0 else |Waiting(p, Preorder(p.root), stage)| + Owed(p, stage + 1)
  }

  function Outstanding(p: Plan, op: Op): nat {
    |op.pending| + Owed(p, StagesCalled(p, op))
  }

  lemma {:induction false} ResumedOwes(p: Plan, op: Op)
    requires op.stage <= p.stages && op.pending == []
    ensures Outstanding(p, Resumed(p, op)) == Owed(p, op.stage)
    ensures Resumed(p, op).inside == op.inside
    decreases p.stages - op.stage
  {
    hide Preorder, Waiting, Calls;
    if op.stage < p.stages {
      var o := OneStage(p, op);
      if o.pending == [] {
        ResumedOwes(p, o.(stage := o.stage + 1));
      }
    }
  }

  /** However the completions are ordered, each brings the operation one closer to its end: those made and those
      outstanding add up to the number of answers that were not "done". */
  lemma {:induction false} CompletionsAddUp(p: Plan, completions: seq<nat>)
    requires Legal(p, completions)
    ensures Outstanding(p, After(p, completions)) + |completions| == Owed(p, 0)
  {
    hide Resumed, AtRest, Owed, Without, InOrder;
    if completions == [] {
      ResumedOwes(p, Op(0, [], true, []));
    } else {
      var n := |completions| - 1;
      LegalBefore(p, completions);
      CompletionsAddUp(p, completions[..n]);
      StageByStage(p, completions[..n]);
      CompletionOwesOneLess(p, After(p, completions[..n]), completions[n]);
    }
  }

  lemma CompletionOwesOneLess(p: Plan, op: Op, id: nat)
    requires AtRest(p, op) && id in op.pending
    ensures Outstanding(p, Completed(p, op, id)) == Outstanding(p, op) - 1
  {
    hide Resumed, Owed, Without;
    WithoutOne(op.pending, id);
    var o := Reported(op, id);
    if o.pending == [] {
      ResumedOwes(p, o.(stage := o.stage + 1, inside := false));
    }
  }

  predicate Over(p: Plan, op: Op) {
    op.pending == []
  }

  /** Nobody is ever pending. */
  ghost predicate AllAtOnce(p: Plan) {
    forall id, stage | Participant(p.root, id) && 0 <= stage < p.stages :: p.answers(id, stage)
  }

  lemma {:induction false} NothingOwed(p: Plan, stage: nat)
    ensures Owed(p, stage) == 0
            <==> forall id, s | Participant(p.root, id) && stage <= s < p.stages :: p.answers(id, s)
    decreases p.stages - stage
  {
    PreorderListsOnce(p.root);
    hide Preorder, Participant, Waiting;
    if stage < p.stages {
      NothingOwed(p, stage + 1);
      var w := Waiting(p, Preorder(p.root), stage);
      forall id
        ensures id in w <==> Participant(p.root, id) && !p.answers(id, stage)
      {
        WaitingAre(p, Preorder(p.root), stage, id);
      }
      if w != [] {
        assert w[0] in w;
      }
    }
  }

  /** initiateOperation ends the operation if and only if no module is ever pending; otherwise it is over after
      exactly as many completions as there were other answers. */
  lemma OverWhen(p: Plan, completions: seq<nat>)
    requires Legal(p, completions)
    ensures Over(p, After(p, [])) <==> AllAtOnce(p)
    ensures Over(p, After(p, completions)) <==> |completions| == Owed(p, 0)
  {
    hide Resumed, InOrder, Owed, Completed, Participant;
    StageByStage(p, []);
    CompletionsAddUp(p, []);
    StageByStage(p, completions);
    CompletionsAddUp(p, completions);
    NothingOwed(p, 0);
    OutstandingUntilOver(p, After(p, []));
    OutstandingUntilOver(p, After(p, completions));
  }

  lemma OutstandingUntilOver(p: Plan, op: Op)
    requires AtRest(p, op)
    ensures Outstanding(p, op) == 0 <==> op.pending == []
  {
  }

  function Finishes(log: seq<Event>): nat {
    if log == [] then 0 else Finishes(log[..|log| - 1]) + if log[|log| - 1] == Finished then 1 else 0
  }

  lemma {:induction false} NoFinish(log: seq<Event>, more: seq<Event>)
    requires Finished !in more
    ensures Finishes(log + more) == Finishes(log)
  {
    if more == [] {
      assert log + more == log;
    } else {
      var n := |more| - 1;
      assert (log + more)[..|log| + n] == log + more[..n];
      NoFinish(log, more[..n]);
    }
  }

  lemma {:induction false} ResumedFinishes(p: Plan, op: Op)
    requires op.stage <= p.stages && op.pending == []
    ensures var o := Resumed(p, op);
            && o.inside == op.inside
            && Finishes(o.log) == Finishes(op.log) + if p.callback && !op.inside && o.pending == [] then 1 else 0
    decreases p.stages - op.stage
  {
    hide Preorder, Waiting, Finishes;
    if op.stage == p.stages {
      OneFinish(op.log);
    } else {
      var o := OneStage(p, op);
      NoFinish(op.log, Calls(Preorder(p.root), op.stage));
      if o.pending == [] {
        ResumedFinishes(p, o.(stage := o.stage + 1));
      }
    }
  }

  lemma OneFinish(log: seq<Event>)
    ensures Finishes(log + [Finished]) == Finishes(log) + 1
  {
    assert (log + [Finished])[..|log|] == log;
  }

  /** A callback that was supplied is invoked exactly once when an operation that was pending is over, and never when
      the operation was over at once. */
  lemma {:induction false} CallbackOnce(p: Plan, completions: seq<nat>)
    requires Legal(p, completions)
    ensures var op := After(p, completions);
            Finishes(op.log) == if p.callback && completions != [] && Over(p, op) then 1 else 0
  {
    hide Resumed, Finishes, InOrder, Completed;
    if completions == [] {
      ResumedFinishes(p, Op(0, [], true, []));
      assert Finishes([]) == 0 by { NothingFinished(); }
    } else {
      var n := |completions| - 1;
      LegalBefore(p, completions);
      CallbackOnce(p, completions[..n]);
      StageByStage(p, completions[..n]);
      CompletionFinishes(p, After(p, completions[..n]), completions[n]);
    }
  }

  lemma CompletionFinishes(p: Plan, op: Op, id: nat)
    requires AtRest(p, op) && id in op.pending
    ensures var o := Completed(p, op, id);
            Finishes(o.log) == Finishes(op.log) + if p.callback && Over(p, o) then 1 else 0
  {
    hide Resumed, Finishes, Without;
    NoFinish(op.log, [Completion(id, op.stage)]);
    var o := Reported(op, id);
    if o.pending == [] {
      ResumedFinishes(p, o.(stage := o.stage + 1, inside := false));
    }
  }

  lemma NothingFinished()
    ensures Finishes([]) == 0
  {
  }

  // ---------- What one module sees ----------

  /** The stages a module is called for, in order. */
  function StagesOf(log: seq<Event>, id: nat): seq<nat> {
    if log == [] then []
    else
      var e := log[|log| - 1];
      StagesOf(log[..|log| - 1], id) + if e.Call? && e.id == id then [e.stage] else []
  }

  lemma {:induction false} StagesOfCalls(log: seq<Event>, id: nat)
    ensures StagesOf(log, id) == StagesOf(CallsIn(log), id)
  {
    if log != [] {
      var n := |log| - 1;
      StagesOfCalls(log[..n], id);
      var before := CallsIn(log[..n]);
      if log[n].Call? {
        assert (before + [log[n]])[..|before|] == before;
      } else {
        assert CallsIn(log) == before;
      }
    }
  }

  lemma {:induction false} StagesOfStage(log: seq<Event>, ids: seq<nat>, stage: nat, id: nat)
    requires NoDuplicates(ids)
    ensures StagesOf(log + Calls(ids, stage), id) == StagesOf(log, id) + if id in ids then [stage] else []
  {
    var more := Calls(ids, stage);
    if ids == [] {
      assert log + more == log;
    } else {
      var n := |ids| - 1;
      assert ids == ids[..n] + [ids[n]];
      assert (log + more)[..|log| + n] == log + Calls(ids[..n], stage);
      StagesOfStage(log, ids[..n], stage, id);
    }
  }

  function UpTo(n: nat): seq<nat> {
    seq(n, i => i)
  }

  lemma NoStages(id: nat)
    ensures StagesOf([], id) == []
  {
  }

  lemma {:induction false} StagesOfAll(ids: seq<nat>, stages: nat, id: nat)
    requires NoDuplicates(ids) && id in ids
    ensures StagesOf(AllCalls(ids, stages), id) == UpTo(stages)
  {
    hide StagesOf, Calls;
    if stages == 0 {
      assert StagesOf([], id) == [] by { NoStages(id); }
    } else {
      StagesOfAll(ids, stages - 1, id);
      StagesOfStage(AllCalls(ids, stages - 1), ids, stages - 1, id);
      assert UpTo(stages) == UpTo(stages - 1) + [stages - 1];
    }
  }

  /** A module that takes part in an operation that is over has been called for every stage, once, in order. */
  lemma EveryStageOnce(p: Plan, completions: seq<nat>, id: nat)
    requires Legal(p, completions) && Over(p, After(p, completions))
    requires DistinctIds(p.root) && Participant(p.root, id)
    ensures StagesOf(After(p, completions).log, id) == UpTo(p.stages)
  {
    PreorderListsOnce(p.root);
    hide Preorder, Participant, DistinctIds, Completed, Resumed, StagesOf, CallsIn, AllCalls;
    StageByStage(p, completions);
    StagesOfCalls(After(p, completions).log, id);
    StagesOfAll(Preorder(p.root), p.stages, id);
  }

  // ---------- For the controller that does this in place ----------

  lemma {:induction false} WaitingAppend(p: Plan, a: seq<nat>, b: seq<nat>, stage: nat)
    ensures Waiting(p, a + b, stage) == Waiting(p, a, stage) + Waiting(p, b, stage)
  {
    if b == [] {
      assert a + b == a;
    } else {
      var n := |b| - 1;
      assert (a + b)[..|a| + n] == a + b[..n];
      WaitingAppend(p, a, b[..n], stage);
    }
  }

  lemma CallsAppend(a: seq<nat>, b: seq<nat>, stage: nat)
    ensures Calls(a + b, stage) == Calls(a, stage) + Calls(b, stage)
  {
  }

  lemma {:induction false} WaitingDistinct(p: Plan, ids: seq<nat>, stage: nat)
    requires NoDuplicates(ids)
    ensures NoDuplicates(Waiting(p, ids, stage))
  {
    if ids != [] {
      var n := |ids| - 1;
      WaitingDistinct(p, ids[..n], stage);
      WaitingAre(p, ids[..n], stage, ids[n]);
    }
  }

  lemma {:induction false} ResumedDistinct(p: Plan, op: Op)
    requires op.pending == [] && DistinctIds(p.root)
    ensures NoDuplicates(Resumed(p, op).pending)
    decreases p.stages - op.stage
  {
    PreorderListsOnce(p.root);
    hide Preorder, Participant, DistinctIds, Waiting, Calls;
    if op.stage < p.stages {
      var o := OneStage(p, op);
      WaitingDistinct(p, Preorder(p.root), op.stage);
      if o.pending == [] {
        ResumedDistinct(p, o.(stage := o.stage + 1));
      }
    }
  }

  lemma WithoutFirst(s: seq<nat>, x: nat)
    requires s != []
    ensures Without(s, x) == if s[0] == x then s[1..] else [s[0]] + Without(s[1..], x)
  {
  }

  lemma RestIsDistinct(s: seq<nat>)
    requires s != [] && NoDuplicates(s)
    ensures NoDuplicates(s[1..]) && forall k | 0 < k < |s| :: s[k] != s[0]
  {
  }

  lemma OneTakenOut(s: seq<nat>, k: nat)
    requires 0 < k < |s|
    ensures s[1..][k - 1] == s[k]
    ensures [s[0]] + (s[1..][..k - 1] + s[1..][k - 1 + 1..]) == s[..k] + s[k + 1..]
  {
  }

  lemma {:induction false} WithoutAt(s: seq<nat>, k: nat)
    requires k < |s| && NoDuplicates(s)
    ensures Without(s, s[k]) == s[..k] + s[k + 1..]
  {
    WithoutFirst(s, s[k]);
    RestIsDistinct(s);
    hide Without, NoDuplicates;
    if k > 0 {
      WithoutAt(s[1..], k - 1);
      OneTakenOut(s, k);
    }
  }

  lemma RestDistinct(s: seq<nat>, k: nat)
    requires k < |s| && NoDuplicates(s)
    ensures NoDuplicates(s[..k] + s[k + 1..])
  {
    var rest := s[..k] + s[k + 1..];
    forall i, j | 0 <= i < j < |rest|
      ensures rest[i] != rest[j]
    {
      assert rest[i] == s[if i < k then i else i + 1];
      assert rest[j] == s[if j < k then j else j + 1];
    }
  }
}
