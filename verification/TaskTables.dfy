/**
 The task and content rows that the operator commands change, and what every command keeps.
 Times are numbers; an unset column is `None`.
 */
module TaskTables {
  import opened Options
  import opened JsonValues

  datatype Payload =
    | ContentPayload(contentType: string, url: string, source: Option<string>)
    | ErrorPayload(contentType: string, url: string, source: Option<string>, fromStatus: string, error: Option<string>)
    | ImagePayload
    | OtherPayload(value: Json)

  datatype Task = Task(
    id: int, taskType: string, contentId: Option<int>, status: string, queueName: string,
    createdAt: Option<int>, availableAt: int, startedAt: Option<int>, completedAt: Option<int>,
    lockedAt: Option<int>, lockedBy: Option<string>, leaseExpiresAt: Option<int>,
    errorMessage: Option<string>, retryCount: Option<int>, dedupeKey: Option<string>, payload: Payload)

  datatype Content = Content(
    id: int, contentType: string, url: string, source: Option<string>, status: string,
    errorMessage: Option<string>, retryCount: Option<int>, checkedOutBy: Option<string>, checkedOutAt: Option<int>,
    processedAt: Option<int>, updatedAt: Option<int>, createdAt: int, metadata: Fields)

  /** Both tables, and the next id the task sequence gives out. */
  datatype Tables = Tables(tasks: seq<Task>, contents: seq<Content>, nextId: int)

  const PENDING := "pending"
  const PROCESSING := "processing"
  const COMPLETED := "completed"
  const FAILED := "failed"
  const NEW := "new"

  // ----- rows chosen and rows changed -----

  /** The rows that satisfy `p`, in order. */
  function Keep<T(!new)>(rows: seq<T>, p: T -> bool): (r: seq<T>)
    ensures forall t :: t in r <==> t in rows && p(t)
    ensures (forall t | t in rows :: p(t)) ==> r == rows
  {
    if rows == [] then []
    else
      assert rows == [rows[0]] + rows[1..];
      if p(rows[0]) then [rows[0]] + Keep(rows[1..], p) else Keep(rows[1..], p)
  }

  /** The rows with `f` applied to those that satisfy `p`. */
  function Change<T>(rows: seq<T>, p: T -> bool, f: T -> T): (r: seq<T>)
    ensures |r| == |rows| && forall i | 0 <= i < |rows| :: r[i] == if p(rows[i]) then f(rows[i]) else rows[i]
  {
    seq(|rows|, i requires 0 <= i < |rows| => if p(rows[i]) then f(rows[i]) else rows[i])
  }

  /** The positions of the rows that satisfy `p`, as a query returns its rows. */
  function Positions<T>(rows: seq<T>, p: T -> bool): (r: seq<nat>)
    ensures forall k :: k in r <==> 0 <= k < |rows| && p(rows[k])
    ensures forall i | 0 <= i < |r| :: r[i] < |rows| && p(rows[r[i]])
    ensures forall i, j | 0 <= i < j < |r| :: r[i] < r[j]
  {
    if rows == [] then []
    else
      var n := |rows| - 1;
      var before := Positions(rows[..n], p);
      assert forall k | 0 <= k < n :: rows[..n][k] == rows[k];
      if p(rows[n]) then before + [n] else before
  }

  lemma LastPosition<T>(rows: seq<T>, p: T -> bool)
    requires rows != []
    ensures var n := |rows| - 1;
            Positions(rows, p) == Positions(rows[..n], p) + if p(rows[n]) then [n] else []
  {
  }

  lemma KeepNone<T(!new)>(p: T -> bool)
    ensures Keep([], p) == []
  {
  }

  lemma KeepLast<T(!new)>(rows: seq<T>, p: T -> bool)
    requires rows != []
    ensures var n := |rows| - 1;
            Keep(rows, p) == Keep(rows[..n], p) + if p(rows[n]) then [rows[n]] else []
  {
    hide Keep;
    var before, last := rows[..|rows| - 1], rows[|rows| - 1];
    LastApart(rows);
    KeepAppend(before, [last], p);
    KeepOne(last, p);
  }

  lemma LastApart<T>(rows: seq<T>)
    requires rows != []
    ensures rows == rows[..|rows| - 1] + [rows[|rows| - 1]]
  {
  }

  lemma KeepOne<T(!new)>(row: T, p: T -> bool)
    ensures Keep([row], p) == if p(row) then [row] else []
  {
    assert [row][1..] == [];
  }

  lemma {:induction false} KeepAppend<T(!new)>(a: seq<T>, b: seq<T>, p: T -> bool)
    ensures Keep(a + b, p) == Keep(a, p) + Keep(b, p)
  {
    if a == [] {
      assert a + b == b;
    } else {
      assert (a + b)[1..] == a[1..] + b;
      KeepAppend(a[1..], b, p);
    }
  }

  // ----- what every command keeps -----

  predicate Active(t: Task) {
    t.status == PENDING || t.status == PROCESSING
  }

  predicate Locked(t: Task) {
    t.lockedAt.Some? || t.lockedBy.Some? || t.leaseExpiresAt.Some?
  }

  predicate TaskOk(nextId: int, t: Task) {
    t.id < nextId && (Locked(t) ==> t.status == PROCESSING)
  }

  /** Task ids are unique, and no two active tasks share a dedupe key (a unique index of the table). */
  predicate TasksApart(tasks: seq<Task>) {
    && (forall i, j | 0 <= i < j < |tasks| :: tasks[i].id != tasks[j].id)
    && (forall i, j | 0 <= i < j < |tasks| && Active(tasks[i]) && Active(tasks[j]) && tasks[i].dedupeKey.Some? ::
          tasks[i].dedupeKey != tasks[j].dedupeKey)
  }

  predicate ContentsApart(contents: seq<Content>) {
    forall i, j | 0 <= i < j < |contents| :: contents[i].id != contents[j].id
  }

  /** Ids are unique, a lock or lease means the task is processing, and active dedupe keys are unique. */
  predicate Inv(tb: Tables) {
    && (forall i | 0 <= i < |tb.tasks| :: TaskOk(tb.nextId, tb.tasks[i]))
    && TasksApart(tb.tasks) && ContentsApart(tb.contents)
  }

  lemma {:induction false} KeepApart(tasks: seq<Task>, p: Task -> bool)
    requires TasksApart(tasks)
    ensures TasksApart(Keep(tasks, p))
  {
    if tasks != [] {
      var rest := Keep(tasks[1..], p);
      KeepApart(tasks[1..], p);
      forall j | 0 <= j < |rest|
        ensures tasks[0].id != rest[j].id
        ensures Active(tasks[0]) && Active(rest[j]) && tasks[0].dedupeKey.Some? ==>
                tasks[0].dedupeKey != rest[j].dedupeKey
      {
        assert rest[j] in tasks[1..];
      }
    }
  }

  /** Deleting rows keeps the invariant. */
  lemma DeleteKeepsInv(tb: Tables, p: Task -> bool)
    requires Inv(tb)
    ensures Inv(tb.(tasks := Keep(tb.tasks, p)))
  {
    KeepApart(tb.tasks, p);
    var r := Keep(tb.tasks, p);
    forall i | 0 <= i < |r| ensures TaskOk(tb.nextId, r[i]) {
      assert r[i] in tb.tasks;
    }
  }

  /** A change that keeps ids and dedupe keys, activates nothing and leaves rows lawful keeps the invariant. */
  lemma ChangeKeepsInv(tb: Tables, p: Task -> bool, f: Task -> Task)
    requires Inv(tb)
    requires forall t | p(t) && t in tb.tasks ::
               && f(t).id == t.id && f(t).dedupeKey == t.dedupeKey && (Active(f(t)) ==> Active(t))
               && (Locked(f(t)) ==> f(t).status == PROCESSING)
    ensures Inv(tb.(tasks := Change(tb.tasks, p, f)))
  {
    hide Active, Locked;
    var r := Change(tb.tasks, p, f);
    forall i | 0 <= i < |r|
      ensures r[i].id == tb.tasks[i].id && r[i].dedupeKey == tb.tasks[i].dedupeKey
      ensures Active(r[i]) ==> Active(tb.tasks[i])
      ensures TaskOk(tb.nextId, r[i])
    {
      assert tb.tasks[i] in tb.tasks;
    }
  }

  predicate FreshTasks(nextId: int, added: seq<Task>) {
    forall i | 0 <= i < |added| ::
      added[i].id == nextId + i && added[i].dedupeKey.None? && (Locked(added[i]) ==> added[i].status == PROCESSING)
  }

  /** New rows with the next ids, no dedupe key and no stray lock keep the invariant. */
  lemma InsertKeepsInv(tb: Tables, added: seq<Task>)
    requires Inv(tb) && FreshTasks(tb.nextId, added)
    ensures Inv(tb.(tasks := tb.tasks + added, nextId := tb.nextId + |added|))
  {
    hide Active, Locked;
    forall i | 0 <= i < |tb.tasks| ensures TaskOk(tb.nextId + |added|, tb.tasks[i]) {
      assert TaskOk(tb.nextId, tb.tasks[i]);
    }
  }

  /** Rewriting content rows under their ids keeps the invariant. */
  lemma ContentsKeepInv(tb: Tables, contents: seq<Content>)
    requires Inv(tb) && |contents| == |tb.contents|
    requires forall i | 0 <= i < |contents| :: contents[i].id == tb.contents[i].id
    ensures Inv(tb.(contents := contents))
  {
    hide TasksApart, TaskOk;
  }
}
