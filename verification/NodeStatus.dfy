/** The status of a network node (inet/src/status/NodeStatus.cc), which takes part in every operation on the node. */
module NodeStatusModel {
  import opened Lifecycle
  import opened ModuleTree

  datatype Status = UP | DOWN | GOING_UP | GOING_DOWN

  datatype Operation = NodeStart | NodeShutdown | NodeCrash

  /** getNumStages; a crash has two stages although it is documented as having one. */
  function NumStages(operation: Operation): nat {
    match operation
    case NodeStart => 8
    case NodeShutdown => 8
    case NodeCrash => 2
  }

  /** The status, or the error or assertion that stops the simulation. */
  datatype Outcome = Now(status: Status) | WrongStatus | AssertionFailed

  function Before(operation: Operation): Status { if operation == NodeStart then DOWN else UP }
  function During(operation: Operation): Status { if operation == NodeStart then GOING_UP else GOING_DOWN }
  function Afterwards(operation: Operation): Status { if operation == NodeStart then UP else DOWN }

  /** handleOperationStage, for an operation of any number of stages. */
  function Stage(status: Status, operation: Operation, stages: nat, stage: nat): Outcome {
    if stage == 0 && status != Before(operation) then WrongStatus
    else
      var going := if stage == 0 then During(operation) else status;
      if stage + 1 != stages then Now(going)
      else if going != During(operation) then AssertionFailed
      else Now(Afterwards(operation))
  }

  /** The outcome of the stages of the list, one after the other. */
  function Through(status: Status, operation: Operation, stages: nat, list: seq<nat>): Outcome {
    if list == [] then Now(status)
    else
      match Through(status, operation, stages, list[..|list| - 1])
      case Now(s) => Stage(s, operation, stages, list[|list| - 1])
      case o => o
  }

  /** Through k of its stages, in order, an operation is under way, and after all of them the node has the new status
      and no assertion has failed; all that if and only if it began in the right status. */
  lemma {:induction false} StagesInOrder(status: Status, operation: Operation, stages: nat, k: nat)
    requires 0 < k <= stages
    ensures operation == NodeStart ==>
              Through(status, operation, stages, UpTo(k))
              == if status != DOWN then WrongStatus else Now(if k < stages then GOING_UP else UP)
    ensures operation != NodeStart ==>
              Through(status, operation, stages, UpTo(k))
              == if status != UP then WrongStatus else Now(if k < stages then GOING_DOWN else DOWN)
  {
    var list := UpTo(k);
    assert list[..k - 1] == UpTo(k - 1);
    if k > 1 {
      StagesInOrder(status, operation, stages, k - 1);
    }
  }

  /** An operation on a node that is over, whatever the order in which the other modules completed its stages, has
      taken the node from its status before to its status afterwards, or was refused at once. */
  lemma OperationChangesStatus(p: Plan, completions: seq<nat>, id: nat, status: Status, operation: Operation)
    requires Legal(p, completions) && Over(p, After(p, completions))
    requires DistinctIds(p.root) && Participant(p.root, id)
    requires p.stages == NumStages(operation)
    ensures Through(status, operation, p.stages, StagesOf(After(p, completions).log, id))
            == if operation == NodeStart then if status == DOWN then Now(UP) else WrongStatus
               else if status == UP then Now(DOWN) else WrongStatus
  {
    hide After, Legal, Participant, DistinctIds, Through;
    EveryStageOnce(p, completions, id);
    StagesInOrder(status, operation, p.stages, p.stages);
  }

  class NodeStatus {
    var state: Status

    constructor (initial: Status)
      ensures state == initial
    {
      state := initial;
    }

    /** handleOperationStage; false stands for the runtime error or the failed assertion. */
    method HandleOperationStage(operation: Operation, stages: nat, opStage: nat) returns (ok: bool)
      modifies this
      ensures ok <==> Stage(old(state), operation, stages, opStage).Now?
      ensures ok ==> Stage(old(state), operation, stages, opStage) == Now(state)
    {
      match operation {
        case NodeStart =>
          if opStage == 0 {
            if state != DOWN {
              return false;
            }
            state := GOING_UP;
          }
          if opStage == stages - 1 {
            if state != GOING_UP {
              return false;
            }
            state := UP;
          }
        case NodeShutdown =>
          if opStage == 0 {
            if state != UP {
              return false;
            }
            state := GOING_DOWN;
          }
          if opStage == stages - 1 {
            if state != GOING_DOWN {
              return false;
            }
            state := DOWN;
          }
        case NodeCrash =>
          if opStage == 0 {
            if state != UP {
              return false;
            }
            state := GOING_DOWN;
          }
          if opStage == stages - 1 {
            if state != GOING_DOWN {
              return false;
            }
            state := DOWN;
          }
      }
      ok := true;
    }
  }
}
