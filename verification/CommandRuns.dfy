/**
 Sequences of operator commands on the same tables.
 */
module CommandRuns {
  import opened TaskTables
  import Q = QueueControl
  import R = ContentReset
  import E = ErroredReset
  import I = ImageRepair

  datatype Command =
    | Clear(filter: Q.Filter, limit: nat)
    | RequeueStale(cutoff: int, queueName: string, taskType: string)
    | MoveMedia(statuses: seq<string>)
    | MoveQueue(source: string, target: string, statuses: seq<string>, taskType: string)
    | Reset(options: R.ResetOptions)
    | ResetErrored(selection: E.Selection)
    | RepairImages(ids: seq<int>, attempt: int -> I.Attempt)

  /** The tables after a command that is applied, at a given time. */
  function Apply(tb: Tables, c: Command, now: int): Tables {
    match c
    case Clear(filter, limit) => Q.Cleared(tb, filter, limit)
    case RequeueStale(cutoff, queueName, taskType) => Q.Requeued(tb, cutoff, queueName, taskType, now)
    case MoveMedia(statuses) => Q.MediaMoved(tb, statuses)
    case MoveQueue(source, target, statuses, taskType) => Q.Moved(tb, source, target, statuses, taskType)
    case Reset(options) => R.ResetTables(tb, options, now)
    case ResetErrored(selection) => E.ErroredTables(tb, selection, now)
    case RepairImages(ids, attempt) => I.RepairedAll(tb, ids, attempt, now)
  }

  function Run(tb: Tables, commands: seq<(Command, int)>): Tables
    decreases |commands|
  {
    if commands == [] then tb else Run(Apply(tb, commands[0].0, commands[0].1), commands[1..])
  }

  lemma ApplyKeepsInv(tb: Tables, c: Command, now: int)
    requires Inv(tb)
    ensures Inv(Apply(tb, c, now))
  {
    hide Inv;
    match c
    case Clear(filter, limit) =>
      var ids := Q.ClearedIds(tb, filter, limit);
      DeleteKeepsInv(tb, (t: Task) => t.id !in ids);
    case RequeueStale(cutoff, queueName, taskType) =>
      ChangeKeepsInv(tb, t => Q.Stale(cutoff, queueName, taskType, t), t => Q.Requeue(now, t));
    case MoveMedia(statuses) =>
      LocksMeanProcessing(tb);
      ChangeKeepsInv(tb, t => Q.MisplacedMedia(statuses, t), (t: Task) => t.(queueName := Q.MEDIA));
    case MoveQueue(source, target, statuses, taskType) =>
      LocksMeanProcessing(tb);
      ChangeKeepsInv(tb, t => Q.InQueue(source, statuses, taskType, t), (t: Task) => t.(queueName := target));
    case Reset(options) => R.ResetKeepsInv(tb, options, now);
    case ResetErrored(selection) => E.ErroredKeepsInv(tb, selection, now);
    case RepairImages(ids, attempt) => I.RepairedAllKeepsInv(tb, ids, attempt, now);
  }

  lemma LocksMeanProcessing(tb: Tables)
    requires Inv(tb)
    ensures forall t | t in tb.tasks :: Locked(t) ==> t.status == PROCESSING
  {
    forall t | t in tb.tasks ensures Locked(t) ==> t.status == PROCESSING {
      var i :| 0 <= i < |tb.tasks| && tb.tasks[i] == t;
      assert TaskOk(tb.nextId, tb.tasks[i]);
    }
  }

  /** Over every sequence of commands: unique task ids, locks only on processing tasks, unique active dedupe keys. */
  lemma {:induction false} RunKeepsInv(tb: Tables, commands: seq<(Command, int)>)
    requires Inv(tb)
    ensures Inv(Run(tb, commands))
    decreases |commands|
  {
    hide Inv, Apply;
    if commands != [] {
      ApplyKeepsInv(tb, commands[0].0, commands[0].1);
      RunKeepsInv(Apply(tb, commands[0].0, commands[0].1), commands[1..]);
    }
  }
}
