/** The controller of inet/src/base/LifecycleController.cc, which carries out an operation in place, with one object for
    every callback it hands out. */
module LifecycleControllerModel {
  import opened Lifecycle
  import opened ModuleTree

  /** The callback handed to a module; it knows its module only once the module has turned out to be pending. */
  class Callback {
    var id: nat

    constructor ()
    {
      id := 0;
    }

    method Init(id: nat)
      modifies this
      ensures this.id == id
    {
      this.id := id;
    }
  }

  class Controller {
    const plan: Plan
    var spareCallback: Callback?
    var currentStage: nat
    var pendingList: seq<Callback>
    var insideInitiateOperation: bool
    var log: seq<Event>

    /** Pending modules have callbacks of their own, and the spare one is nobody's. */
    ghost predicate Valid()
      reads this
    {
      && (forall i, j | 0 <= i < j < |pendingList| :: pendingList[i] != pendingList[j])
      && spareCallback !in pendingList
    }

    ghost function Ids(s: seq<Callback>): seq<nat>
      reads s
    {
      seq(|s|, i requires 0 <= i < |s| reads s => s[i].id)
    }

    ghost function View(): Op
      reads this, pendingList
    {
      Op(currentStage, Ids(pendingList), insideInitiateOperation, log)
    }

    /** Between events: no two callbacks are for the same module, and one is pending unless all stages are over. */
    ghost predicate Resting()
      reads this, pendingList
    {
      && Valid() && AtRest(plan, View()) && InOrder(plan, View())
      && DistinctIds(plan.root) && NoDuplicates(Ids(pendingList))
    }

    constructor (plan: Plan)
      ensures Valid() && this.plan == plan && pendingList == [] && log == []
    {
      this.plan := plan;
      spareCallback, currentStage, pendingList, insideInitiateOperation, log := null, 0, [], false, [];
    }

    /** What a traversal may do to callbacks: new pending ones are added, none of them used before. */
    twostate predicate OnlyAdds()
      reads this
    {
      && old(pendingList) <= pendingList
      && (forall c | c in pendingList :: c in old(pendingList) || c == old(spareCallback) || fresh(c))
      && (spareCallback == null || spareCallback == old(spareCallback) || fresh(spareCallback))
    }

    /** The part of doOneStage that concerns the module itself. */
    method CallModule(id: nat)
      requires Valid()
      modifies this, spareCallback
      ensures Valid() && OnlyAdds()
      ensures currentStage == old(currentStage) && insideInitiateOperation == old(insideInitiateOperation)
      ensures Ids(pendingList) == old(Ids(pendingList)) + Waiting(plan, [id], currentStage)
      ensures log == old(log) + Calls([id], currentStage)
    {
      var callback := spareCallback;
      if callback == null {
        callback := new Callback();
      }
      log := log + [Call(id, currentStage)];
      var done := plan.answers(id, currentStage);
      assert Waiting(plan, [id], currentStage) == if done then [] else [id] by {
        WaitingForOne(plan, id, currentStage);
      }
      if !done {
        callback.Init(id);
        pendingList := pendingList + [callback];
        spareCallback := null;
      } else {
        spareCallback := callback;
      }
    }

    /** doOneStage */
    method DoOneStage(m: Module)
      requires Valid()
      modifies this, spareCallback
      ensures Valid() && OnlyAdds()
      ensures currentStage == old(currentStage) && insideInitiateOperation == old(insideInitiateOperation)
      ensures Ids(pendingList) == old(Ids(pendingList)) + Waiting(plan, Preorder(m), currentStage)
      ensures log == old(log) + Calls(Preorder(m), currentStage)
      decreases m
    {
      hide Waiting, Calls;
      NobodyCalled(plan, currentStage);
      ghost var called: seq<nat> := [];
      if m.participates {
        CallModule(m.id);
        called := [m.id];
      }
      assert called + PreorderOf(m, 0) == called;
      for i := 0 to |m.children|
        invariant Valid() && OnlyAdds()
        invariant currentStage == old(currentStage) && insideInitiateOperation == old(insideInitiateOperation)
        invariant Ids(pendingList) == old(Ids(pendingList)) + Waiting(plan, called + PreorderOf(m, i), currentStage)
        invariant log == old(log) + Calls(called + PreorderOf(m, i), currentStage)
      {
        DoOneStage(m.children[i]);
        ghost var before, more := called + PreorderOf(m, i), Preorder(m.children[i]);
        WaitingAppend(plan, before, more, currentStage);
        CallsAppend(before, more, currentStage);
        assert called + PreorderOf(m, i + 1) == before + more;
      }
    }

    /** resumeOperation; callbacks that complete later come in later events. */
    method ResumeOperation() returns (done: bool)
      requires Valid() && pendingList == []
      modifies this, spareCallback
      ensures Valid() && OnlyAdds()
      ensures View() == Resumed(plan, old(View()))
      ensures done <==> pendingList == []
    {
      hide Preorder, Waiting, Calls;
      while currentStage < plan.stages
        invariant Valid() && pendingList == []
        invariant spareCallback == null || spareCallback == old(spareCallback) || fresh(spareCallback)
        invariant Resumed(plan, View()) == Resumed(plan, old(View()))
        decreases plan.stages - currentStage
      {
        DoOneStage(plan.root);
        if pendingList == [] {
          currentStage := currentStage + 1;
        } else {
          return false;
        }
      }
      if plan.callback && !insideInitiateOperation {
        log := log + [Finished];
      }
      done := true;
    }

    /** initiateOperation */
    method InitiateOperation() returns (done: bool)
      requires Valid() && pendingList == [] && log == [] && DistinctIds(plan.root)
      modifies this, spareCallback
      ensures Resting()
      ensures View() == After(plan, [])
      ensures done <==> AllAtOnce(plan)
    {
      hide Preorder, Waiting, Calls, InOrder, Resumed, AllAtOnce;
      currentStage := 0;
      insideInitiateOperation := true;
      ResumedDistinct(plan, View());
      StageByStage(plan, []);
      OverWhen(plan, []);
      done := ResumeOperation();
    }

    /** moduleOperationStageCompleted, when the callback of a pending module is invoked. */
    method ModuleOperationStageCompleted(callback: Callback)
      requires Resting() && callback in pendingList
      modifies this, spareCallback
      ensures Resting()
      ensures View() == Completed(plan, old(View()), old(callback.id))
    {
      hide Preorder, AtRest, Resumed, Without, InOrder, NoDuplicates;
      var k := 0;
      while pendingList[k] != callback
        invariant k < |pendingList| && callback !in pendingList[..k]
        decreases |pendingList| - k
      {
        k := k + 1;
      }
      assert callback.id == Ids(pendingList)[k];
      CompletedInOrder(plan, View(), callback.id);
      WithoutAt(Ids(pendingList), k);
      RestDistinct(Ids(pendingList), k);
      log := log + [Completion(callback.id, currentStage)];
      pendingList := pendingList[..k] + pendingList[k + 1..];
      assert View() == Reported(old(View()), old(callback.id));
      if pendingList == [] {
        currentStage := currentStage + 1;
        insideInitiateOperation := false;
        ResumedDistinct(plan, View());
        var _ := ResumeOperation();
      }
    }
  }

  lemma WaitingForOne(p: Plan, id: nat, stage: nat)
    ensures Waiting(p, [id], stage) == if p.answers(id, stage) then [] else [id]
  {
    assert [id][..0] == [];
  }

  lemma NobodyCalled(p: Plan, stage: nat)
    ensures Waiting(p, [], stage) == [] && Calls([], stage) == []
  {
  }
}
