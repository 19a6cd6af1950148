/**
 The queue commands (scripts/queue_control.py): clear, requeue-stale, move-media and move-queue.
 An empty string or an empty list stands for a filter that is not set.
 */
module QueueControl {
  import opened Options
  import opened Lists
  import opened TaskTables
  import PairScores

  datatype Filter = Filter(
    statuses: seq<string>, queueName: string, taskType: string, contentIds: seq<int>, contentType: string,
    cutoff: Option<int>)

  /** How a command ended; refusing and a bad pair of queues are exits with an error. */
  datatype Outcome = DryRun | Refused | SameQueue | Done(count: nat)

  const MEDIA := "media"
  const MEDIA_TASK_TYPES: set<string> := {
    "download_audio", "download_tweet_video_audio", "process_podcast_media", "transcribe", "transcribe_tweet_video"
  }

  // ----- which rows -----

  /** When the task was last started, finished or created. */
  function Stamp(t: Task): Option<int> {
    if t.startedAt.Some? then t.startedAt else if t.completedAt.Some? then t.completedAt else t.createdAt
  }

  predicate OlderThan(t: Task, cutoff: int) {
    Stamp(t).Some? && cutoff >= Stamp(t).value
  }

  predicate Matches(contents: seq<Content>, f: Filter, t: Task) {
    && (f.statuses == [] || t.status in f.statuses)
    && (f.queueName == "" || t.queueName == f.queueName)
    && (f.taskType == "" || t.taskType == f.taskType)
    && (f.contentIds == [] || (t.contentId.Some? && t.contentId.value in f.contentIds))
    && (f.cutoff.None? || OlderThan(t, f.cutoff.value))
    && (f.contentType == "" || exists c | c in contents :: t.contentId == Some(c.id) && c.contentType == f.contentType)
  }

  predicate Stale(cutoff: int, queueName: string, taskType: string, t: Task) {
    && t.status == PROCESSING
    && (queueName == "" || t.queueName == queueName)
    && (taskType == "" || t.taskType == taskType)
    && OlderThan(t, cutoff)
  }

  predicate MisplacedMedia(statuses: seq<string>, t: Task) {
    t.taskType in MEDIA_TASK_TYPES && t.status in statuses && t.queueName != MEDIA
  }

  predicate InQueue(queueName: string, statuses: seq<string>, taskType: string, t: Task) {
    t.queueName == queueName && t.status in statuses && (taskType == "" || t.taskType == taskType)
  }

  /** A task is older by its start, else by its end, else by its creation; one without any of them is not. */
  lemma OlderExactly(t: Task, cutoff: int)
    ensures OlderThan(t, cutoff) <==>
            || (t.startedAt.Some? && t.startedAt.value <= cutoff)
            || (t.startedAt.None? && t.completedAt.Some? && t.completedAt.value <= cutoff)
            || (t.startedAt.None? && t.completedAt.None? && t.createdAt.Some? && t.createdAt.value <= cutoff)
  {
  }

  /** A task fails to match exactly when one of the filters that are set excludes it. */
  lemma MatchesExactly(contents: seq<Content>, f: Filter, t: Task)
    ensures !Matches(contents, f, t) <==>
            || (|f.statuses| > 0 && forall i | 0 <= i < |f.statuses| :: t.status != f.statuses[i])
            || (|f.queueName| > 0 && t.queueName != f.queueName)
            || (|f.taskType| > 0 && t.taskType != f.taskType)
            || (|f.contentIds| > 0 && forall i | 0 <= i < |f.contentIds| :: t.contentId != Some(f.contentIds[i]))
            || (f.cutoff.Some? && !OlderThan(t, f.cutoff.value))
            || (|f.contentType| > 0 &&
                forall c | c in contents && c.contentType == f.contentType :: t.contentId != Some(c.id))
  {
    hide OlderThan;
  }

  /** Stale are the processing tasks of the queue and type asked for that were started, or else made, by the cutoff. */
  lemma StaleExactly(cutoff: int, queueName: string, taskType: string, t: Task)
    ensures Stale(cutoff, queueName, taskType, t) <==>
            t.status == "processing" && queueName in {"", t.queueName} && taskType in {"", t.taskType} &&
            OlderThan(t, cutoff)
  {
    hide OlderThan;
  }

  function TaskIds(tasks: seq<Task>): (r: seq<int>)
    ensures |r| == |tasks| && forall i | 0 <= i < |r| :: r[i] == tasks[i].id
  {
    seq(|tasks|, i requires 0 <= i < |tasks| => tasks[i].id)
  }

  /** The ids `clear` deletes: those of the matching rows in ascending order, cut off at a limit that is not zero. */
  function ClearedIds(tb: Tables, f: Filter, limit: nat): seq<int> {
    var ids := PairScores.SortInts(TaskIds(Keep(tb.tasks, t => Matches(tb.contents, f, t))));
    if 0 < limit < |ids| then ids[..limit] else ids
  }

  // ----- what happens to them -----

  function Requeue(now: int, t: Task): Task {
    t.(status := PENDING, startedAt := None, completedAt := None, availableAt := now, lockedAt := None,
       lockedBy := None, leaseExpiresAt := None, errorMessage := None, retryCount := Some(Retries(t) + 1))
  }

  function Retries(t: Task): int {
    match t.retryCount case None => 0 case Some(n) => n
  }

  function Cleared(tb: Tables, f: Filter, limit: nat): Tables {
    var ids := ClearedIds(tb, f, limit);
    tb.(tasks := Keep(tb.tasks, (t: Task) => t.id !in ids))
  }

  function Requeued(tb: Tables, cutoff: int, queueName: string, taskType: string, now: int): Tables {
    tb.(tasks := Change(tb.tasks, t => Stale(cutoff, queueName, taskType, t), t => Requeue(now, t)))
  }

  function MediaMoved(tb: Tables, statuses: seq<string>): Tables {
    tb.(tasks := Change(tb.tasks, t => MisplacedMedia(statuses, t), (t: Task) => t.(queueName := MEDIA)))
  }

  function Moved(tb: Tables, source: string, target: string, statuses: seq<string>, taskType: string): Tables {
    tb.(tasks := Change(tb.tasks, t => InQueue(source, statuses, taskType, t), (t: Task) => t.(queueName := target)))
  }

  // ----- the commands on the session -----

  class Session {
    var tables: Tables

    constructor (initial: Tables)
      ensures tables == initial
    {
      tables := initial;
    }

    method ClearTasks(f: Filter, limit: nat, dryRun: bool, force: bool) returns (r: Outcome)
      modifies this
      ensures r.DryRun? <==> dryRun
      ensures r.Refused? <==> !dryRun && !force
      ensures tables == if !dryRun && force then Cleared(old(tables), f, limit) else old(tables)
      ensures r.Done? ==> r.count == |old(tables).tasks| - |tables.tasks|
    {
      var ids := ClearedIds(tables, f, limit);
      if dryRun {
        return DryRun;
      }
      if !force {
        return Refused;
      }
      if ids == [] {
        return Done(0);
      }
      var before := |tables.tasks|;
      KeepIsShorter(tables.tasks, (t: Task) => t.id !in ids);
      tables := tables.(tasks := Keep(tables.tasks, (t: Task) => t.id !in ids));
      return Done(before - |tables.tasks|);
    }

    method RequeueStaleProcessing(
      cutoff: int, queueName: string, taskType: string, now: int, dryRun: bool, force: bool) returns (r: Outcome)
      modifies this
      ensures r.DryRun? <==> dryRun
      ensures r.Refused? <==> !dryRun && !force
      ensures tables ==
              if !dryRun && force then Requeued(old(tables), cutoff, queueName, taskType, now) else old(tables)
      ensures r.Done? ==> r.count == |Positions(old(tables).tasks, t => Stale(cutoff, queueName, taskType, t))|
    {
      var p := t => Stale(cutoff, queueName, taskType, t);
      var rows := Positions(tables.tasks, p);
      if dryRun {
        return DryRun;
      }
      if !force {
        return Refused;
      }
      if rows == [] {
        assert Requeued(tables, cutoff, queueName, taskType, now).tasks == tables.tasks;
        return Done(0);
      }
      ghost var old_ := tables;
      for i := 0 to |rows|
        invariant tables == old_.(tasks := tables.tasks) && |tables.tasks| == |old_.tasks|
        invariant forall k | 0 <= k < |old_.tasks| ::
                    tables.tasks[k] == if k in rows[..i] then Requeue(now, old_.tasks[k]) else old_.tasks[k]
      {
        var row := rows[i];
        assert rows[..i + 1] == rows[..i] + [row];
        tables := tables.(tasks := tables.tasks[row := Requeue(now, tables.tasks[row])]);
      }
      assert rows[..|rows|] == rows;
      assert tables.tasks == Requeued(old_, cutoff, queueName, taskType, now).tasks;
      return Done(|rows|);
    }

    method MoveMediaTasks(statuses: seq<string>, dryRun: bool, force: bool) returns (r: Outcome)
      modifies this
      ensures r.DryRun? <==> dryRun
      ensures r.Refused? <==> !dryRun && !force
      ensures tables == if !dryRun && force then MediaMoved(old(tables), statuses) else old(tables)
      ensures r.Done? ==> r.count == |Positions(old(tables).tasks, t => MisplacedMedia(statuses, t))|
    {
      var rows := Positions(tables.tasks, t => MisplacedMedia(statuses, t));
      if dryRun {
        return DryRun;
      }
      if !force {
        return Refused;
      }
      ghost var old_ := tables;
      SetQueue(rows, MEDIA);
      assert tables.tasks == MediaMoved(old_, statuses).tasks;
      return Done(|rows|);
    }

    method MoveTasksBetweenQueues(
      source: string, target: string, statuses: seq<string>, taskType: string, dryRun: bool, force: bool)
      returns (r: Outcome)
      modifies this
      ensures r.SameQueue? <==> source == target
      ensures r.DryRun? <==> source != target && dryRun
      ensures r.Refused? <==> source != target && !dryRun && !force
      ensures tables == if r.Done? then Moved(old(tables), source, target, statuses, taskType) else old(tables)
      ensures r.Done? ==> r.count == |Positions(old(tables).tasks, t => InQueue(source, statuses, taskType, t))|
    {
      if source == target {
        return SameQueue;
      }
      var rows := Positions(tables.tasks, t => InQueue(source, statuses, taskType, t));
      if dryRun {
        return DryRun;
      }
      if !force {
        return Refused;
      }
      ghost var old_ := tables;
      SetQueue(rows, target);
      assert tables.tasks == Moved(old_, source, target, statuses, taskType).tasks;
      return Done(|rows|);
    }

    /** Every one of the rows is put into the queue. */
    method SetQueue(rows: seq<nat>, target: string)
      requires forall i | 0 <= i < |rows| :: rows[i] < |tables.tasks|
      modifies this
      ensures tables == old(tables).(tasks := tables.tasks) && |tables.tasks| == |old(tables).tasks|
      ensures forall k | 0 <= k < |tables.tasks| ::
                tables.tasks[k] ==
                if k in rows then old(tables).tasks[k].(queueName := target) else old(tables).tasks[k]
    {
      ghost var old_ := tables;
      for i := 0 to |rows|
        invariant tables == old_.(tasks := tables.tasks) && |tables.tasks| == |old_.tasks|
        invariant forall k | 0 <= k < |old_.tasks| ::
                    tables.tasks[k] == if k in rows[..i] then old_.tasks[k].(queueName := target) else old_.tasks[k]
      {
        assert rows[..i + 1] == rows[..i] + [rows[i]];
        tables := tables.(tasks := tables.tasks[rows[i] := tables.tasks[rows[i]].(queueName := target)]);
      }
      assert rows[..|rows|] == rows;
    }
  }

  lemma {:induction false} KeepIsShorter<T(!new)>(rows: seq<T>, p: T -> bool)
    ensures |Keep(rows, p)| <= |rows|
  {
    if rows != [] {
      KeepIsShorter(rows[1..], p);
    }
  }

  // ----- clearing -----

  /** Clearing without a limit deletes exactly the matching rows, and changes no other row. */
  lemma ClearedExactly(tb: Tables, f: Filter)
    requires Inv(tb)
    ensures Cleared(tb, f, 0).tasks == Keep(tb.tasks, t => !Matches(tb.contents, f, t))
  {
    ClearedIdsAre(tb, f);
    KeepSame(tb.tasks, (t: Task) => t.id !in ClearedIds(tb, f, 0), t => !Matches(tb.contents, f, t));
  }

  lemma {:induction false} KeepSame(tasks: seq<Task>, p: Task -> bool, q: Task -> bool)
    requires forall t | t in tasks :: p(t) == q(t)
    ensures Keep(tasks, p) == Keep(tasks, q)
  {
    if tasks != [] {
      assert tasks[0] in tasks && forall t | t in tasks[1..] :: t in tasks;
      KeepSame(tasks[1..], p, q);
    }
  }

  /** Among rows with unique ids, a row's id is cleared exactly when the row matches. */
  lemma ClearedIdsAre(tb: Tables, f: Filter)
    requires Inv(tb)
    ensures forall t | t in tb.tasks :: t.id in ClearedIds(tb, f, 0) <==> Matches(tb.contents, f, t)
  {
    var p := t => Matches(tb.contents, f, t);
    var kept := Keep(tb.tasks, p);
    var ids := TaskIds(kept);
    assert forall id :: id in PairScores.SortInts(ids) <==> id in multiset(PairScores.SortInts(ids));
    assert forall id :: id in ids <==> id in multiset(ids);
    forall t | t in tb.tasks ensures t.id in ids <==> p(t) {
      if p(t) {
        var i :| 0 <= i < |kept| && kept[i] == t;
        assert ids[i] == t.id;
      }
      if t.id in ids {
        var i :| 0 <= i < |kept| && ids[i] == t.id;
        SameIdSameTask(tb, kept[i], t);
      }
    }
  }

  lemma SameIdSameTask(tb: Tables, a: Task, b: Task)
    requires Inv(tb) && a in tb.tasks && b in tb.tasks && a.id == b.id
    ensures a == b
  {
  }

  /** With a limit, the deleted rows are the matching ones with the smallest ids. */
  lemma ClearedSmallestFirst(tb: Tables, f: Filter, limit: nat, gone: Task, left: Task)
    requires Inv(tb) && gone in tb.tasks && left in Cleared(tb, f, limit).tasks
    requires gone !in Cleared(tb, f, limit).tasks && Matches(tb.contents, f, left)
    ensures Matches(tb.contents, f, gone) && gone.id < left.id
  {
    hide Matches, Inv, ClearedIds, Keep;
    var all := ClearedIds(tb, f, 0);
    var cut := ClearedIds(tb, f, limit);
    ClearedIdsAre(tb, f);
    LimitKeepsSmallest(tb, f, limit);
    assert gone.id in cut && left.id in all && left.id !in cut;
    var i :| 0 <= i < |cut| && cut[i] == gone.id;
    var j :| 0 <= j < |all| && all[j] == left.id;
    assert all[i] == gone.id;
    assert forall k | 0 <= k < |cut| :: cut[k] in cut;
  }

  /** The command deletes as many rows as match, but no more than the limit, if that is not zero. */
  lemma ClearedCount(tb: Tables, f: Filter, limit: nat)
    requires Inv(tb)
    ensures var matching := |Keep(tb.tasks, t => Matches(tb.contents, f, t))|;
            |tb.tasks| - |Cleared(tb, f, limit).tasks| == if limit == 0 || matching < limit then matching else limit
  {
    hide Matches, Inv, Keep;
    var ids := ClearedIds(tb, f, limit);
    ClearedIdsOfTasks(tb, f, limit);
    TasksAreApart(tb);
    CountByIds(tb.tasks, ids);
  }

  lemma TasksAreApart(tb: Tables)
    requires Inv(tb)
    ensures TasksApart(tb.tasks)
  {
  }

  /** The ids to clear are different ids of tasks. */
  lemma ClearedIdsOfTasks(tb: Tables, f: Filter, limit: nat)
    requires Inv(tb)
    ensures Distinct(ClearedIds(tb, f, limit))
    ensures forall id | id in ClearedIds(tb, f, limit) :: HasId(tb.tasks, id)
    ensures var matching := |Keep(tb.tasks, t => Matches(tb.contents, f, t))|;
            |ClearedIds(tb, f, limit)| == if limit == 0 || matching < limit then matching else limit
  {
    hide Matches, Keep, Inv;
    var kept := Keep(tb.tasks, t => Matches(tb.contents, f, t));
    var ids := TaskIds(kept);
    var sorted := PairScores.SortInts(ids);
    MatchingApart(tb, f);
    SortedDistinct(ids);
    forall id | id in sorted ensures HasId(tb.tasks, id) {
      assert id in multiset(sorted) && id in multiset(ids);
      var i :| 0 <= i < |ids| && ids[i] == id;
      assert kept[i] in tb.tasks;
    }
    assert |sorted| == |multiset(sorted)| == |multiset(ids)| == |kept|;
  }

  predicate HasId(tasks: seq<Task>, id: int) {
    exists i :: 0 <= i < |tasks| && tasks[i].id == id
  }

  lemma MatchingApart(tb: Tables, f: Filter)
    requires Inv(tb)
    ensures Distinct(TaskIds(Keep(tb.tasks, t => Matches(tb.contents, f, t))))
  {
    hide Keep, Matches;
    KeepApart(tb.tasks, t => Matches(tb.contents, f, t));
  }

  lemma SortedDistinct(ids: seq<int>)
    requires Distinct(ids)
    ensures Distinct(PairScores.SortInts(ids))
  {
    var sorted := PairScores.SortInts(ids);
    forall i, j | 0 <= i < j < |sorted| && sorted[i] == sorted[j] ensures false {
      PairScores.CountedTwice(sorted, i, j);
      DistinctOnce(ids, sorted[j]);
    }
  }

  lemma {:induction false} DistinctOnce(ids: seq<int>, id: int)
    requires Distinct(ids)
    ensures multiset(ids)[id] <= 1
  {
    if ids != [] {
      assert ids == [ids[0]] + ids[1..];
      DistinctOnce(ids[1..], id);
      if id == ids[0] {
        assert id !in ids[1..];
      }
    }
  }

  /** Deleting by different ids deletes one row for each. */
  lemma {:induction false} CountByIds(tasks: seq<Task>, ids: seq<int>)
    requires TasksApart(tasks) && Distinct(ids) && forall id | id in ids :: HasId(tasks, id)
    ensures |Keep(tasks, (t: Task) => t.id !in ids)| + |ids| == |tasks|
    decreases |ids|
  {
    hide Keep, TasksApart;
    if ids == [] {
      assert Keep(tasks, (t: Task) => t.id !in ids) == tasks;
    } else {
      var x, rest := ids[0], ids[1..];
      CountByIds(tasks, rest);
      var left := Keep(tasks, (t: Task) => t.id !in rest);
      KeepApart(tasks, (t: Task) => t.id !in rest);
      assert x in ids && HasId(tasks, x);
      var i :| 0 <= i < |tasks| && tasks[i].id == x;
      assert tasks[i] in left;
      DropOne(left, tasks[i]);
      KeepTwice(tasks, (t: Task) => t.id !in rest, (t: Task) => t.id != x, (t: Task) => t.id !in ids);
    }
  }

  lemma {:induction false} DropOne(tasks: seq<Task>, gone: Task)
    requires TasksApart(tasks) && gone in tasks
    ensures |Keep(tasks, (t: Task) => t.id != gone.id)| + 1 == |tasks|
  {
    var p := (t: Task) => t.id != gone.id;
    if tasks[0] == gone {
      assert forall t | t in tasks[1..] :: p(t);
      assert Keep(tasks[1..], p) == tasks[1..];
    } else {
      assert gone in tasks[1..];
      DropOne(tasks[1..], gone);
    }
  }

  lemma {:induction false} KeepTwice(tasks: seq<Task>, p: Task -> bool, q: Task -> bool, both: Task -> bool)
    requires forall t :: both(t) == (p(t) && q(t))
    ensures Keep(Keep(tasks, p), q) == Keep(tasks, both)
  {
    if tasks != [] {
      KeepTwice(tasks[1..], p, q, both);
      if p(tasks[0]) {
        assert ([tasks[0]] + Keep(tasks[1..], p))[1..] == Keep(tasks[1..], p);
      }
    }
  }

  lemma LimitKeepsSmallest(tb: Tables, f: Filter, limit: nat)
    ensures ClearedIds(tb, f, limit) <= ClearedIds(tb, f, 0)
    ensures PairScores.Ascending(ClearedIds(tb, f, 0))
  {
    hide Matches, Keep, TaskIds;
  }

  // ----- requeueing -----

  /** Requeueing leaves no stale row, counts one more retry on each hit, and touches no other row. */
  lemma RequeuedFacts(tb: Tables, cutoff: int, queueName: string, taskType: string, now: int)
    ensures var after := Requeued(tb, cutoff, queueName, taskType, now);
            && |after.tasks| == |tb.tasks| && after.contents == tb.contents
            && forall i | 0 <= i < |tb.tasks| ::
                 var (t, t') := (tb.tasks[i], after.tasks[i]);
                 && !Stale(cutoff, queueName, taskType, t')
                 && t'.id == t.id
                 && (if Stale(cutoff, queueName, taskType, t)
                     then t'.status == PENDING && Retries(t') == Retries(t) + 1 && !Locked(t') && t'.availableAt == now
                          && t'.startedAt == t'.completedAt == None && t'.errorMessage == None
                          && t' == t.(status := t'.status, retryCount := t'.retryCount, availableAt := t'.availableAt,
                                      startedAt := None, completedAt := None, errorMessage := None,
                                      lockedAt := None, lockedBy := None, leaseExpiresAt := None)
                     else t' == t)
  {
  }

  /** So a second requeue with the same cutoff and filters changes nothing. */
  lemma RequeueTwice(tb: Tables, cutoff: int, queueName: string, taskType: string, now: int, later: int)
    ensures var once := Requeued(tb, cutoff, queueName, taskType, now);
            Requeued(once, cutoff, queueName, taskType, later) == once
  {
    var once := Requeued(tb, cutoff, queueName, taskType, now);
    RequeuedFacts(tb, cutoff, queueName, taskType, now);
    assert Requeued(once, cutoff, queueName, taskType, later).tasks == once.tasks;
  }

  // ----- moving -----

  /** Moving tasks to another queue and back restores the table exactly when no matching task was in that queue. */
  lemma MoveBackExactly(tb: Tables, source: string, target: string, statuses: seq<string>, taskType: string)
    requires source != target
    ensures Moved(Moved(tb, source, target, statuses, taskType), target, source, statuses, taskType) == tb <==>
            forall t | t in tb.tasks :: !InQueue(target, statuses, taskType, t)
  {
    var there := Moved(tb, source, target, statuses, taskType);
    var back := Moved(there, target, source, statuses, taskType);
    forall i | 0 <= i < |tb.tasks|
      ensures back.tasks[i] == tb.tasks[i] <==> !InQueue(target, statuses, taskType, tb.tasks[i])
    {
    }
    if forall t | t in tb.tasks :: !InQueue(target, statuses, taskType, t) {
      assert back.tasks == tb.tasks;
    } else {
      var t :| t in tb.tasks && InQueue(target, statuses, taskType, t);
      var i :| 0 <= i < |tb.tasks| && tb.tasks[i] == t;
      assert back.tasks[i] != tb.tasks[i];
    }
  }

  /**
   Moving puts the tasks of the source queue with one of the statuses, and of the type if one is given, into the target.
   */
  lemma MovedFacts(tb: Tables, source: string, target: string, statuses: seq<string>, taskType: string)
    ensures var after := Moved(tb, source, target, statuses, taskType);
            && |after.tasks| == |tb.tasks| && after.contents == tb.contents && after.nextId == tb.nextId
            && forall i | 0 <= i < |tb.tasks| ::
                 var (t, t') := (tb.tasks[i], after.tasks[i]);
                 && t' == t.(queueName := t'.queueName)
                 && (t.queueName == source && t.status in statuses && taskType in {"", t.taskType} ==>
                       t'.queueName == target)
                 && (t.queueName != source || t.status !in statuses || taskType !in {"", t.taskType} ==> t' == t)
  {
  }

  /** After the media move, every media task with one of the statuses is in the media queue. */
  lemma MediaMovedFacts(tb: Tables, statuses: seq<string>)
    ensures forall t | t in MediaMoved(tb, statuses).tasks && t.taskType in MEDIA_TASK_TYPES && t.status in statuses ::
            t.queueName == MEDIA
    ensures MediaMoved(MediaMoved(tb, statuses), statuses) == MediaMoved(tb, statuses)
    ensures MediaMoved(tb, statuses) == tb <==> forall t | t in tb.tasks :: !MisplacedMedia(statuses, t)
    ensures forall i | 0 <= i < |tb.tasks| ::
              var (t, t') := (tb.tasks[i], MediaMoved(tb, statuses).tasks[i]);
              t' == t.(queueName := t'.queueName) &&
                (t' != t ==> t.taskType in MEDIA_TASK_TYPES && t.status in statuses)
  {
    var once := MediaMoved(tb, statuses);
    assert MediaMoved(once, statuses).tasks == once.tasks;
    if t :| t in tb.tasks && MisplacedMedia(statuses, t) {
      var i :| 0 <= i < |tb.tasks| && tb.tasks[i] == t;
      assert once.tasks[i] != t;
    } else {
      assert once.tasks == tb.tasks;
    }
  }
}
