/**
 Resetting content: scripts/reset_content_processing.py, and its preview in admin/remote_ops.py.
 */
module ContentReset {
  import opened Options
  import opened JsonValues
  import opened TaskTables

  /** An empty content type and no cutoff mean that every row is targeted. */
  datatype ResetOptions = ResetOptions(cancelOnly: bool, cutoff: Option<int>, contentType: string)

  datatype Counts = Counts(deletedTasks: nat, resetContents: nat, createdTasks: nat)

  predicate TargetsSubset(o: ResetOptions) {
    o.cutoff.Some? || o.contentType != ""
  }

  /** When the content was last processed, changed or created. */
  function LastTouched(c: Content): int {
    if c.processedAt.Some? then c.processedAt.value
    else if c.updatedAt.Some? then c.updatedAt.value
    else c.createdAt
  }

  predicate Targeted(o: ResetOptions, c: Content) {
    (o.contentType == "" || c.contentType == o.contentType) && (o.cutoff.Some? ==> LastTouched(c) >= o.cutoff.value)
  }

  function ContentIds(contents: seq<Content>): (r: set<int>)
    ensures forall id :: id in r <==> exists c | c in contents :: c.id == id
  {
    set c | c in contents :: c.id
  }

  predicate TaskOf(ids: set<int>, t: Task) {
    t.contentId.Some? && t.contentId.value in ids
  }

  // ----- new tasks -----

  /** A pending `process_content` task as the table's column defaults complete it. */
  function ProcessTask(id: int, now: int, contentId: int, payload: Payload): Task {
    Task(id, "process_content", Some(contentId), PENDING, "content", Some(now), now, None, None, None, None, None,
      None, Some(0), None, payload)
  }

  /** One new task for each row, with consecutive ids. */
  function NewTasks(nextId: int, now: int, rows: seq<Content>, payload: Content -> Payload): (r: seq<Task>)
    ensures |r| == |rows| && forall i | 0 <= i < |r| ::
            r[i] == ProcessTask(nextId + i, now, rows[i].id, payload(rows[i]))
  {
    seq(|rows|, i requires 0 <= i < |rows| => ProcessTask(nextId + i, now, rows[i].id, payload(rows[i])))
  }

  function PlainPayload(c: Content): Payload {
    ContentPayload(c.contentType, c.url, c.source)
  }

  // ----- the reset -----

  function Fresh(now: int, c: Content): Content {
    c.(status := NEW, errorMessage := None, retryCount := Some(0), checkedOutBy := None, checkedOutAt := None,
       processedAt := None, metadata := Empty, updatedAt := Some(now))
  }

  /** Deleting the tasks of the targeted rows, or of all rows. */
  function Cancelled(tb: Tables, o: ResetOptions): Tables {
    if TargetsSubset(o) then
      var ids := ContentIds(Keep(tb.contents, c => Targeted(o, c)));
      tb.(tasks := Keep(tb.tasks, t => !TaskOf(ids, t)))
    else tb.(tasks := [])
  }

  function ResetTables(tb: Tables, o: ResetOptions, now: int): Tables {
    if o.cancelOnly then Cancelled(tb, o)
    else
      var rows := Keep(tb.contents, c => Targeted(o, c));
      Tables(
        Cancelled(tb, o).tasks + NewTasks(tb.nextId, now, rows, PlainPayload),
        Change(tb.contents, c => Targeted(o, c), c => Fresh(now, c)),
        tb.nextId + |rows|)
  }

  /** No ids at all stand for an empty set when the rows are looked up again. */
  function OrNone(ids: Option<set<int>>): set<int> {
    match ids case None => {} case Some(s) => s
  }

  /** What a reset did, read off the tables before and after: rows gone, rows rewritten, rows added. */
  function EffectCounts(tb: Tables, o: ResetOptions, now: int): Counts {
    CancelledIsShorter(tb, o);
    Counts(
      |tb.tasks| - |Cancelled(tb, o).tasks|,
      if o.cancelOnly then 0 else |Positions(tb.contents, c => Targeted(o, c))|,
      if o.cancelOnly then 0 else |ResetTables(tb, o, now).tasks| - |Cancelled(tb, o).tasks|)
  }

  lemma CancelledIsShorter(tb: Tables, o: ResetOptions)
    ensures |Cancelled(tb, o).tasks| <= |tb.tasks|
  {
    if TargetsSubset(o) {
      var ids := ContentIds(Keep(tb.contents, c => Targeted(o, c)));
      KeepSplits(tb.tasks, t => TaskOf(ids, t), t => !TaskOf(ids, t));
    }
  }

  class Session {
    var tables: Tables

    constructor (initial: Tables)
      ensures tables == initial
    {
      tables := initial;
    }

    method PerformReset(o: ResetOptions, now: int) returns (r: Counts)
      requires ContentsApart(tables.contents)
      modifies this
      ensures tables == ResetTables(old(tables), o, now)
      ensures r == EffectCounts(old(tables), o, now)
    {
      hide Keep, Change, Positions, ContentIds, Targeted, Fresh, ContentsApart, TaskOf;
      var before := tables;
      var rows: seq<Content> := [];
      if !o.cancelOnly || TargetsSubset(o) {
        rows := Keep(tables.contents, c => Targeted(o, c));
      }
      var ids: Option<set<int>> := if TargetsSubset(o) then Some(ContentIds(rows)) else None;
      var deleted := DeleteProcessingTasks(ids);
      assert tables == Cancelled(before, o);
      if o.cancelOnly {
        return Counts(deleted, 0, 0);
      }
      if ids.Some? && ids.value == {} {
        NoRowsNoChange(before.contents, o, now, rows);
        assert NewTasks(before.nextId, now, rows, PlainPayload) == [];
        return Counts(deleted, 0, 0);
      }
      var chosen := (c: Content) => ids.Some? ==> c.id in ids.value;
      var resetCount := |Positions(tables.contents, chosen)|;
      tables := tables.(contents := Change(tables.contents, chosen, c => Fresh(now, c)));
      ChosenAreTargeted(before.contents, o, now, rows, chosen);
      if rows == [] {
        rows := Keep(tables.contents, (c: Content) => c.id in OrNone(ids));
        NoRowsNoTasks(before.contents, tables.contents, o, ids, rows);
      }
      var tasksToCreate := NewTasks(tables.nextId, now, rows, PlainPayload);
      tables := tables.(tasks := tables.tasks + tasksToCreate, nextId := tables.nextId + |tasksToCreate|);
      return Counts(deleted, resetCount, |tasksToCreate|);
    }

    /** No ids at all means every task; an empty set of ids means none. */
    method DeleteProcessingTasks(ids: Option<set<int>>) returns (deleted: nat)
      modifies this
      ensures tables == old(tables).(
                tasks := if ids.Some? then Keep(old(tables).tasks, t => !TaskOf(ids.value, t)) else [])
      ensures deleted == |old(tables).tasks| - |tables.tasks|
    {
      if ids.Some? && ids.value == {} {
        return 0;
      }
      var before := tables.tasks;
      var kept := if ids.Some? then Keep(before, t => !TaskOf(ids.value, t)) else [];
      tables := tables.(tasks := kept);
      if ids.Some? {
        KeepSplits(before, t => TaskOf(ids.value, t), t => !TaskOf(ids.value, t));
      }
      return |before| - |kept|;
    }

    /** The preview: it only counts. */
    method PreviewResetContent(o: ResetOptions) returns (r: Counts)
      ensures r == PreviewCounts(tables, o)
    {
      var rows := Keep(tables.contents, c => Targeted(o, c));
      var ids: Option<set<int>> := if TargetsSubset(o) then Some(ContentIds(rows)) else None;
      var tasks := tables.tasks;
      if ids.Some? {
        if ids.value != {} {
          tasks := Keep(tasks, t => TaskOf(ids.value, t));
        } else {
          NoTasksOf(tasks);
          tasks := [];
        }
      }
      var resetContents := if o.cancelOnly then 0 else if ids.Some? then |rows| else |tables.contents|;
      return Counts(|tasks|, resetContents, if o.cancelOnly then 0 else resetContents);
    }
  }

  /** What the preview counts: the tasks of the targeted rows, and those rows. */
  function PreviewCounts(tb: Tables, o: ResetOptions): Counts {
    var rows := Keep(tb.contents, c => Targeted(o, c));
    var ids := ContentIds(rows);
    var tasks := if TargetsSubset(o) then Keep(tb.tasks, t => TaskOf(ids, t)) else tb.tasks;
    var reset := if o.cancelOnly then 0 else |rows|;
    Counts(|tasks|, reset, reset)
  }

  /** The separately written preview predicts what the reset does, for every table and every option. */
  lemma PreviewEqualsEffect(tb: Tables, o: ResetOptions, now: int)
    ensures PreviewCounts(tb, o) == EffectCounts(tb, o, now)
  {
    PositionsCount(tb.contents, c => Targeted(o, c), c => Targeted(o, c));
    if TargetsSubset(o) {
      var ids := ContentIds(Keep(tb.contents, c => Targeted(o, c)));
      KeepSplits(tb.tasks, t => TaskOf(ids, t), t => !TaskOf(ids, t));
    }
  }

  lemma NoTasksOf(tasks: seq<Task>)
    ensures Keep(tasks, t => TaskOf({}, t)) == []
  {
    var r := Keep(tasks, t => TaskOf({}, t));
    if r != [] {
      assert r[0] in r;
    }
  }

  lemma {:induction false} KeepSplits<T(!new)>(rows: seq<T>, p: T -> bool, q: T -> bool)
    requires forall t :: q(t) == !p(t)
    ensures |Keep(rows, p)| + |Keep(rows, q)| == |rows|
  {
    if rows != [] {
      KeepSplits(rows[1..], p, q);
    }
  }

  /** Among rows with unique ids, the ids of the targeted rows select exactly those rows. */
  lemma TargetedById(contents: seq<Content>, o: ResetOptions, rows: seq<Content>)
    requires ContentsApart(contents) && rows == Keep(contents, c => Targeted(o, c))
    ensures forall i | 0 <= i < |contents| :: contents[i].id in ContentIds(rows) <==> Targeted(o, contents[i])
  {
    forall i | 0 <= i < |contents| && contents[i].id in ContentIds(rows) ensures Targeted(o, contents[i]) {
      var c :| c in rows && c.id == contents[i].id;
      assert c in contents;
    }
    forall i | 0 <= i < |contents| && Targeted(o, contents[i]) ensures contents[i].id in ContentIds(rows) {
      assert contents[i] in rows;
    }
  }

  lemma ChosenAreTargeted(
    contents: seq<Content>, o: ResetOptions, now: int, rows: seq<Content>, chosen: Content -> bool)
    requires ContentsApart(contents) && rows == Keep(contents, c => Targeted(o, c))
    requires forall c :: chosen(c) <==> (TargetsSubset(o) ==> c.id in ContentIds(rows))
    ensures Change(contents, chosen, c => Fresh(now, c)) == Change(contents, c => Targeted(o, c), c => Fresh(now, c))
    ensures |Positions(contents, chosen)| == |Positions(contents, c => Targeted(o, c))|
  {
    hide Keep, Change, Positions, Fresh;
    TargetedById(contents, o, rows);
    PositionsCount(contents, chosen, c => Targeted(o, c));
    PositionsCount(contents, c => Targeted(o, c), c => Targeted(o, c));
  }

  /** Looking the rows up again finds none when there were none. */
  lemma NoRowsNoTasks(
    contents: seq<Content>, after: seq<Content>, o: ResetOptions, ids: Option<set<int>>, rows: seq<Content>)
    requires Keep(contents, c => Targeted(o, c)) == []
    requires ids == if TargetsSubset(o) then Some(ContentIds([])) else None
    requires rows == Keep(after, (c: Content) => c.id in OrNone(ids))
    ensures rows == []
  {
    HasMember(rows);
  }

  lemma HasMember<T(!new)>(rows: seq<T>)
    ensures rows != [] ==> exists c :: c in rows
  {
    if rows != [] {
      assert rows[0] in rows;
    }
  }

  lemma NoRowsNoChange(contents: seq<Content>, o: ResetOptions, now: int, rows: seq<Content>)
    requires rows == Keep(contents, c => Targeted(o, c)) && ContentIds(rows) == {}
    ensures rows == [] && Change(contents, c => Targeted(o, c), c => Fresh(now, c)) == contents
    ensures Positions(contents, c => Targeted(o, c)) == []
  {
    assert forall c | c in rows :: c.id in ContentIds(rows);
    HasMember(rows);
    PositionsCount(contents, c => Targeted(o, c), c => Targeted(o, c));
    forall i | 0 <= i < |contents| ensures !Targeted(o, contents[i]) {
      assert contents[i] !in rows;
    }
  }

  lemma {:induction false} PositionsCount<T(!new)>(rows: seq<T>, p: T -> bool, q: T -> bool)
    requires forall i | 0 <= i < |rows| :: p(rows[i]) == q(rows[i])
    ensures |Positions(rows, p)| == |Keep(rows, q)|
  {
    if rows != [] {
      hide Positions, Keep;
      var n := |rows| - 1;
      PositionsCount(rows[..n], p, q);
      LastPosition(rows, p);
      KeepLast(rows, q);
    }
  }

  // ----- which tasks a reset leaves -----

  function TasksFor(tasks: seq<Task>, id: int): seq<Task> {
    Keep(tasks, (t: Task) => t.contentId == Some(id))
  }

  lemma {:induction false} NoTasksFor(tasks: seq<Task>, id: int)
    requires forall t | t in tasks :: t.contentId != Some(id)
    ensures TasksFor(tasks, id) == []
  {
    if tasks != [] {
      assert tasks[0] in tasks && forall t | t in tasks[1..] :: t in tasks;
      NoTasksFor(tasks[1..], id);
    }
  }

  lemma {:induction false} TasksForNew(nextId: int, now: int, rows: seq<Content>, payload: Content -> Payload, k: nat)
    requires ContentsApart(rows) && k < |rows|
    ensures TasksFor(NewTasks(nextId, now, rows, payload), rows[k].id) == [NewTasks(nextId, now, rows, payload)[k]]
  {
    var added := NewTasks(nextId, now, rows, payload);
    assert added == added[..k] + [added[k]] + added[k + 1..];
    KeepAppend(added[..k] + [added[k]], added[k + 1..], (t: Task) => t.contentId == Some(rows[k].id));
    KeepAppend(added[..k], [added[k]], (t: Task) => t.contentId == Some(rows[k].id));
    NoTasksFor(added[..k], rows[k].id);
    NoTasksFor(added[k + 1..], rows[k].id);
  }

  lemma {:induction false} TasksForKept(tasks: seq<Task>, ids: set<int>, id: int)
    requires id !in ids
    ensures TasksFor(Keep(tasks, t => !TaskOf(ids, t)), id) == TasksFor(tasks, id)
  {
    if tasks != [] {
      TasksForKept(tasks[1..], ids, id);
    }
  }

  lemma KeptApart(contents: seq<Content>, p: Content -> bool)
    requires ContentsApart(contents)
    ensures ContentsApart(Keep(contents, p))
  {
    if contents != [] {
      var rest := Keep(contents[1..], p);
      KeptApart(contents[1..], p);
      forall j | 0 <= j < |rest| ensures contents[0].id != rest[j].id {
        assert rest[j] in contents[1..];
      }
    }
  }

  /** Tasks without the rows' tasks, then one new task for each row. */
  function Replaced(
    tasks: seq<Task>, nextId: int, now: int, rows: seq<Content>, payload: Content -> Payload): seq<Task> {
    Keep(tasks, t => !TaskOf(ContentIds(rows), t)) + NewTasks(nextId, now, rows, payload)
  }

  /** Each of the rows ends with exactly one task, the new one; the tasks of every other content are as before. */
  lemma ReplacedFacts(
    tasks: seq<Task>, nextId: int, now: int, rows: seq<Content>, payload: Content -> Payload, c: Content)
    requires ContentsApart(rows)
    ensures var after := TasksFor(Replaced(tasks, nextId, now, rows, payload), c.id);
            && (c in rows ==> |after| == 1 && exists id :: after[0] == ProcessTask(id, now, c.id, payload(c)))
            && (c.id !in ContentIds(rows) ==> after == TasksFor(tasks, c.id))
  {
    var kept := Keep(tasks, t => !TaskOf(ContentIds(rows), t));
    var added := NewTasks(nextId, now, rows, payload);
    KeepAppend(kept, added, (t: Task) => t.contentId == Some(c.id));
    if c in rows {
      NoTasksFor(kept, c.id);
      var k :| 0 <= k < |rows| && rows[k] == c;
      TasksForNew(nextId, now, rows, payload, k);
    }
    if c.id !in ContentIds(rows) {
      TasksForKept(tasks, ContentIds(rows), c.id);
      assert forall t | t in added :: t.contentId != Some(c.id);
      NoTasksFor(added, c.id);
    }
  }

  /**
   Rows of the content type, if one is given, that were last processed, else changed, else created at the cutoff or
   later.
   */
  lemma TargetedExactly(o: ResetOptions, c: Content)
    ensures Targeted(o, c) <==>
            && (o.contentType == "" || o.contentType == c.contentType)
            && (|| o.cutoff == None
                || (c.processedAt.Some? && c.processedAt.value >= o.cutoff.value)
                || (c.processedAt.None? && c.updatedAt.Some? && c.updatedAt.value >= o.cutoff.value)
                || (c.processedAt.None? && c.updatedAt.None? && c.createdAt >= o.cutoff.value))
  {
  }

  /** The row is as new, touched now, and what was found out about it is gone; what it is and when it came stay. */
  predicate IsFresh(before: Content, after: Content, now: int) {
    && after.status == "new" && after.metadata == Empty && after.errorMessage == None && after.retryCount == Some(0)
    && after.checkedOutBy == None && after.checkedOutAt == None && after.processedAt == None
    && after.updatedAt == Some(now)
    && after.id == before.id && after.contentType == before.contentType && after.url == before.url
    && after.source == before.source && after.createdAt == before.createdAt
  }

  /** A task that asks for the content to be processed: pending, never tried, held by nobody. */
  predicate IsProcessTask(t: Task, contentId: int, now: int) {
    && t.taskType == "process_content" && t.contentId == Some(contentId)
    && t.status == "pending" && t.queueName == "content" && t.createdAt == Some(now) && t.availableAt == now
    && t.startedAt == None && t.completedAt == None && t.errorMessage == None && t.retryCount == Some(0)
    && t.lockedAt == None && t.lockedBy == None && t.leaseExpiresAt == None && t.dedupeKey == None
  }

  lemma ProcessTaskFields(id: int, now: int, contentId: int, payload: Payload)
    ensures var t := ProcessTask(id, now, contentId, payload);
            IsProcessTask(t, contentId, now) && t.id == id && t.payload == payload
  {
  }

  lemma FreshFields(now: int, c: Content)
    ensures IsFresh(c, Fresh(now, c), now)
  {
  }

  /** After a reset, every targeted row is fresh and has one pending task; other rows and their tasks are unchanged. */
  lemma ResetFacts(tb: Tables, o: ResetOptions, now: int, k: nat)
    requires Inv(tb) && !o.cancelOnly && k < |tb.contents|
    ensures var after := ResetTables(tb, o, now); var c := tb.contents[k]; var left := TasksFor(after.tasks, c.id);
            && |after.contents| == |tb.contents|
            && (if Targeted(o, c)
                then IsFresh(c, after.contents[k], now) && |left| == 1 && IsProcessTask(left[0], c.id, now)
                     && left[0].payload == ContentPayload(c.contentType, c.url, c.source)
                else after.contents[k] == c && left == TasksFor(tb.tasks, c.id))
  {
    hide Keep, Change, Inv, NewTasks, Fresh, ProcessTask, IsProcessTask, IsFresh, Targeted, TasksFor;
    var rows := Keep(tb.contents, c => Targeted(o, c));
    FreshFields(now, tb.contents[k]);
    forall id {
      ProcessTaskFields(id, now, tb.contents[k].id, PlainPayload(tb.contents[k]));
    }
    UniqueContents(tb);
    KeptApart(tb.contents, c => Targeted(o, c));
    TargetedById(tb.contents, o, rows);
    if TargetsSubset(o) {
      ReplacedFacts(tb.tasks, tb.nextId, now, rows, PlainPayload, tb.contents[k]);
    } else {
      TargetedExactly(o, tb.contents[k]);
      ReplacedFacts([], tb.nextId, now, rows, PlainPayload, tb.contents[k]);
      EmptyReplaced(tb.nextId, now, rows);
    }
  }

  /**
   Cancelling only leaves the contents alone, and of the tasks exactly those that belong to no targeted row, if rows are
   targeted at all, and else none.
   */
  lemma CancelExactly(tb: Tables, o: ResetOptions)
    requires o.cancelOnly
    ensures var after := ResetTables(tb, o, 0);
            && after.contents == tb.contents && after.nextId == tb.nextId
            && (o.contentType == "" && o.cutoff == None ==> after.tasks == [])
            && (o.contentType != "" || o.cutoff != None ==>
                  after.tasks == Keep(tb.tasks, (t: Task) =>
                    forall c | c in tb.contents && Targeted(o, c) :: t.contentId != Some(c.id)))
  {
    hide Keep, Targeted;
    if TargetsSubset(o) {
      var ids := ContentIds(Keep(tb.contents, c => Targeted(o, c)));
      var others := (t: Task) => forall c | c in tb.contents && Targeted(o, c) :: t.contentId != Some(c.id);
      forall t: Task ensures !TaskOf(ids, t) == others(t) {
      }
      SameKept(tb.tasks, t => !TaskOf(ids, t), others);
    }
  }

  lemma {:induction false} SameKept(tasks: seq<Task>, p: Task -> bool, q: Task -> bool)
    requires forall t :: p(t) == q(t)
    ensures Keep(tasks, p) == Keep(tasks, q)
  {
    if tasks != [] {
      SameKept(tasks[1..], p, q);
    }
  }

  lemma UniqueContents(tb: Tables)
    requires Inv(tb)
    ensures ContentsApart(tb.contents)
  {
  }

  lemma EmptyReplaced(nextId: int, now: int, rows: seq<Content>)
    ensures Replaced([], nextId, now, rows, PlainPayload) == [] + NewTasks(nextId, now, rows, PlainPayload)
  {
  }

  lemma CancelKeepsInv(tb: Tables, o: ResetOptions)
    requires Inv(tb)
    ensures Inv(Cancelled(tb, o))
  {
    if TargetsSubset(o) {
      DeleteKeepsInv(tb, t => !TaskOf(ContentIds(Keep(tb.contents, c => Targeted(o, c))), t));
    }
  }

  /** A reset keeps the invariant. */
  lemma ResetKeepsInv(tb: Tables, o: ResetOptions, now: int)
    requires Inv(tb)
    ensures Inv(ResetTables(tb, o, now))
  {
    hide Inv, Keep, Targeted;
    CancelKeepsInv(tb, o);
    if !o.cancelOnly {
      var added := NewTasks(tb.nextId, now, Keep(tb.contents, c => Targeted(o, c)), PlainPayload);
      var cancelled := Cancelled(tb, o);
      InsertKeepsInv(cancelled, added);
      ContentsKeepInv(cancelled.(tasks := cancelled.tasks + added, nextId := tb.nextId + |added|),
        ResetTables(tb, o, now).contents);
    }
  }

  // ----- resetting again -----

  lemma {:induction false} KeepCount(a: seq<Content>, b: seq<Content>, p: Content -> bool)
    requires |a| == |b| && forall i | 0 <= i < |a| :: p(a[i]) == p(b[i])
    ensures |Keep(a, p)| == |Keep(b, p)|
  {
    if a != [] {
      KeepCount(a[1..], b[1..], p);
    }
  }

  lemma SameIds(a: seq<Content>, b: seq<Content>, p: Content -> bool)
    requires |a| == |b| && forall i | 0 <= i < |a| :: p(a[i]) == p(b[i]) && a[i].id == b[i].id
    ensures ContentIds(Keep(a, p)) <= ContentIds(Keep(b, p))
  {
    hide Keep, ContentIds;
    forall id | id in ContentIds(Keep(a, p)) ensures id in ContentIds(Keep(b, p)) {
      var i := KeptAt(a, p, id);
      IdOfKept(b, p, i);
    }
  }

  lemma KeptAt(rows: seq<Content>, p: Content -> bool, id: int) returns (i: nat)
    requires id in ContentIds(Keep(rows, p))
    ensures i < |rows| && p(rows[i]) && rows[i].id == id
  {
    hide Keep;
    var c :| c in Keep(rows, p) && c.id == id;
    i :| 0 <= i < |rows| && rows[i] == c;
  }

  lemma IdOfKept(rows: seq<Content>, p: Content -> bool, i: nat)
    requires i < |rows| && p(rows[i])
    ensures rows[i].id in ContentIds(Keep(rows, p))
  {
    hide Keep;
    assert rows[i] in Keep(rows, p);
  }

  /** A reset row counts as touched at the time of the reset, so a recent reset targets the same rows again. */
  lemma StillTargeted(tb: Tables, o: ResetOptions, now: int)
    requires !o.cancelOnly && (o.cutoff.Some? ==> now >= o.cutoff.value)
    ensures var after := ResetTables(tb, o, now).contents;
            |after| == |tb.contents|
            && forall i | 0 <= i < |after| ::
               Targeted(o, after[i]) == Targeted(o, tb.contents[i]) && after[i].id == tb.contents[i].id
  {
    hide Keep, NewTasks, Cancelled;
  }

  lemma OnlyNewTasksAreOf(tasks: seq<Task>, ids: set<int>, added: seq<Task>)
    requires forall t | t in added :: TaskOf(ids, t)
    ensures Keep(Keep(tasks, t => !TaskOf(ids, t)) + added, t => TaskOf(ids, t)) == added
    ensures Keep(Keep(tasks, t => !TaskOf(ids, t)) + added, t => !TaskOf(ids, t)) == Keep(tasks, t => !TaskOf(ids, t))
  {
    hide Keep;
    OthersStay(tasks, ids, added);
    var kept := Keep(tasks, t => !TaskOf(ids, t));
    KeepAppend(kept, added, t => TaskOf(ids, t));
    var none := Keep(kept, t => TaskOf(ids, t));
    HasMember(none);
  }

  lemma OthersStay(tasks: seq<Task>, ids: set<int>, added: seq<Task>)
    requires forall t | t in added :: TaskOf(ids, t)
    ensures Keep(Keep(tasks, t => !TaskOf(ids, t)) + added, t => !TaskOf(ids, t)) == Keep(tasks, t => !TaskOf(ids, t))
  {
    hide Keep;
    var kept := Keep(tasks, t => !TaskOf(ids, t));
    KeepAppend(kept, added, t => !TaskOf(ids, t));
    HasMember(Keep(added, t => !TaskOf(ids, t)));
    assert Keep(added, t => !TaskOf(ids, t)) == [];
  }

  /**
   Resetting again targets the same contents and deletes exactly the tasks the first reset created: what its deletion
   leaves is what the first one's left.
   */
  lemma ResetAgain(tb: Tables, o: ResetOptions, now: int, later: int)
    requires !o.cancelOnly && (o.cutoff.Some? ==> now >= o.cutoff.value)
    ensures var after := ResetTables(tb, o, now);
            && ContentIds(Keep(after.contents, c => Targeted(o, c))) ==
               ContentIds(Keep(tb.contents, c => Targeted(o, c)))
            && Cancelled(after, o).tasks == Cancelled(tb, o).tasks
            && after.tasks ==
               Cancelled(tb, o).tasks + NewTasks(tb.nextId, now, Keep(tb.contents, c => Targeted(o, c)), PlainPayload)
            && var n := EffectCounts(tb, o, now).resetContents;
               EffectCounts(after, o, later) == Counts(n, n, n)
  {
    hide Keep, Targeted, EffectCounts, ContentIds, TaskOf;
    var after := ResetTables(tb, o, now);
    var p := (c: Content) => Targeted(o, c);
    var rows := Keep(tb.contents, p);
    PreviewEqualsEffect(tb, o, now);
    PreviewEqualsEffect(after, o, later);
    StillTargeted(tb, o, now);
    KeepCount(after.contents, tb.contents, p);
    SameIds(after.contents, tb.contents, p);
    SameIds(tb.contents, after.contents, p);
    assert |Keep(after.contents, c => Targeted(o, c))| == |rows|;
    assert EffectCounts(tb, o, now).resetContents == |rows|;
    assert ContentIds(Keep(after.contents, c => Targeted(o, c))) == ContentIds(rows);
    if TargetsSubset(o) {
      var added := NewTasks(tb.nextId, now, rows, PlainPayload);
      NewTasksAreOf(tb.nextId, now, rows);
      OnlyNewTasksAreOf(tb.tasks, ContentIds(rows), added);
      assert after.tasks == Keep(tb.tasks, t => !TaskOf(ContentIds(rows), t)) + added;
    }
    assert PreviewCounts(after, o).deletedTasks == |rows|;
  }

  lemma NewTasksAreOf(nextId: int, now: int, rows: seq<Content>)
    ensures forall t | t in NewTasks(nextId, now, rows, PlainPayload) :: TaskOf(ContentIds(rows), t)
  {
  }
}
