/**
 Resetting failed, stuck or unsummarised articles and podcasts (scripts/reset_errored_content.py).
 */
module ErroredReset {
  import opened Options
  import opened JsonValues
  import opened TaskTables
  import opened ContentReset

  /** The cutoffs that are set, with the number of days already turned into one. */
  datatype Selection = Selection(
    daysCutoff: Option<int>, since: Option<int>, until: Option<int>, stuckCutoff: Option<int>, missingSummary: bool)

  predicate NotBefore(c: Content, cutoff: Option<int>) {
    cutoff.Some? ==> c.updatedAt.Some? && c.updatedAt.value >= cutoff.value
  }

  predicate ErroredStatus(s: Selection, c: Content) {
    || c.status == FAILED
    || (s.stuckCutoff.Some? && c.status == PROCESSING && c.updatedAt.Some? && c.updatedAt.value < s.stuckCutoff.value)
    || (s.missingSummary && c.status == COMPLETED && !Has(c.metadata, "summary"))
  }

  predicate Affected(s: Selection, c: Content) {
    && (c.contentType == "article" || c.contentType == "podcast")
    && ErroredStatus(s, c)
    && NotBefore(c, s.daysCutoff) && NotBefore(c, s.since)
    && (s.until.Some? ==> c.updatedAt.Some? && c.updatedAt.value < s.until.value)
  }

  /** The metadata is kept: it may hold partial results. */
  function Retried(now: int, c: Content): Content {
    c.(status := NEW, errorMessage := None, retryCount := Some(0), checkedOutBy := None, checkedOutAt := None,
       processedAt := None, updatedAt := Some(now))
  }

  /** The payload records what the row was reset from, with at most 500 characters of its error. */
  function RetryPayload(c: Content): Payload {
    ErrorPayload(c.contentType, c.url, c.source, c.status,
      if c.errorMessage.Some? && c.errorMessage.value != "" then Some(First500(c.errorMessage.value)) else None)
  }

  function First500(s: string): string {
    if |s| <= 500 then s else s[..500]
  }

  function ErroredTables(tb: Tables, s: Selection, now: int): Tables {
    var rows := Keep(tb.contents, c => Affected(s, c));
    if rows == [] then tb
    else
      Tables(
        Replaced(tb.tasks, tb.nextId, now, rows, RetryPayload),
        Change(tb.contents, c => Affected(s, c), c => Retried(now, c)),
        tb.nextId + |rows|)
  }

  class Session {
    var tables: Tables

    constructor (initial: Tables)
      ensures tables == initial
    {
      tables := initial;
    }

    method ResetErroredContent(s: Selection, now: int, dryRun: bool) returns (resetCount: nat)
      modifies this
      ensures tables == if dryRun then old(tables) else ErroredTables(old(tables), s, now)
      ensures resetCount == if dryRun then 0 else |Keep(old(tables).contents, c => Affected(s, c))|
    {
      hide Keep, Positions, Affected, Retried, RetryPayload, ContentIds, TaskOf, RowsAt, ProcessTask, Retrying,
        ErroredTables;
      var before := tables;
      var p := (c: Content) => Affected(s, c);
      var affected := Positions(tables.contents, p);
      var rows := RowsAt(tables.contents, affected);
      RowsAtPositions(tables.contents, p);
      if rows == [] {
        NothingErrored(tables, s, now);
        return 0;
      }
      if dryRun {
        return 0;
      }
      var contentIds := ContentIds(rows);
      tables := tables.(tasks := Keep(tables.tasks, t => !TaskOf(contentIds, t)));
      resetCount := 0;
      var newTasks: seq<Task> := [];
      RetryingStarts(before, affected, tables, now);
      for i := 0 to |affected|
        invariant resetCount == |newTasks| == i
        invariant Retrying(before, affected, now, i, tables, newTasks)
      {
        RetryingGoesOn(before, affected, now, i, tables, newTasks);
        var c := tables.contents[affected[i]];
        tables := tables.(contents := tables.contents[affected[i] := Retried(now, c)]);
        newTasks := newTasks + [ProcessTask(tables.nextId + i, now, c.id, RetryPayload(c))];
        resetCount := resetCount + 1;
      }
      RetryingEnds(before, s, affected, now, tables, newTasks);
      tables := tables.(tasks := tables.tasks + newTasks, nextId := tables.nextId + |newTasks|);
    }
  }

  /** In the loop: the rows' tasks are gone, the first `i` rows are retried, and their new tasks are ready. */
  ghost predicate Retrying(before: Tables, affected: seq<nat>, now: int, i: nat, tables: Tables, newTasks: seq<Task>) {
    && i <= |affected| && (forall j | 0 <= j < |affected| :: affected[j] < |before.contents|)
    && tables == Tables(
         Keep(before.tasks, t => !TaskOf(ContentIds(RowsAt(before.contents, affected)), t)),
         RetriedAt(before.contents, affected[..i], now),
         before.nextId)
    && newTasks == NewTasks(before.nextId, now, RowsAt(before.contents, affected)[..i], RetryPayload)
  }

  lemma NothingErrored(tb: Tables, s: Selection, now: int)
    requires Keep(tb.contents, c => Affected(s, c)) == []
    ensures ErroredTables(tb, s, now) == tb
  {
    hide Keep, Affected;
  }

  lemma RetryingStarts(before: Tables, affected: seq<nat>, tables: Tables, now: int)
    requires forall j | 0 <= j < |affected| :: affected[j] < |before.contents|
    requires var ids := ContentIds(RowsAt(before.contents, affected));
             tables == before.(tasks := Keep(before.tasks, t => !TaskOf(ids, t)))
    ensures Retrying(before, affected, now, 0, tables, [])
  {
    hide Keep, TaskOf, ContentIds;
    assert RetriedAt(before.contents, affected[..0], now) == before.contents;
    assert NewTasks(before.nextId, now, [], RetryPayload) == [];
    assert RowsAt(before.contents, affected)[..0] == [];
  }

  lemma RetryingGoesOn(before: Tables, affected: seq<nat>, now: int, i: nat, tables: Tables, newTasks: seq<Task>)
    requires Retrying(before, affected, now, i, tables, newTasks) && i < |affected|
    requires forall j, k | 0 <= j < k < |affected| :: affected[j] < affected[k]
    ensures affected[i] < |tables.contents|
    ensures var c := tables.contents[affected[i]];
            Retrying(before, affected, now, i + 1,
              tables.(contents := tables.contents[affected[i] := Retried(now, c)]),
              newTasks + [ProcessTask(tables.nextId + i, now, c.id, RetryPayload(c))])
  {
    hide Keep, TaskOf, ContentIds, Retried, RetriedAt, NewTasks, ProcessTask, RetryPayload;
    NextRow(before.contents, affected, now, i);
    NextNewTask(before.nextId, now, RowsAt(before.contents, affected), i);
  }

  lemma RetryingEnds(before: Tables, s: Selection, affected: seq<nat>, now: int, tables: Tables, newTasks: seq<Task>)
    requires affected == Positions(before.contents, c => Affected(s, c)) && affected != []
    requires Retrying(before, affected, now, |affected|, tables, newTasks)
    ensures tables.(tasks := tables.tasks + newTasks, nextId := tables.nextId + |newTasks|) ==
            ErroredTables(before, s, now)
  {
    hide Keep, TaskOf, ContentIds, Positions, Affected, RetriedAt, NewTasks, RowsAt, RetryPayload;
    RowsAtPositions(before.contents, c => Affected(s, c));
    AllRetried(before.contents, c => Affected(s, c), now);
    assert affected[..|affected|] == affected;
    var rows := RowsAt(before.contents, affected);
    assert rows[..|rows|] == rows;
  }

  lemma NextNewTask(nextId: int, now: int, rows: seq<Content>, i: nat)
    requires i < |rows|
    ensures NewTasks(nextId, now, rows[..i + 1], RetryPayload) ==
            NewTasks(nextId, now, rows[..i], RetryPayload) +
              [ProcessTask(nextId + i, now, rows[i].id, RetryPayload(rows[i]))]
  {
    hide RetryPayload;
  }

  /** The rows with those at the given positions retried. */
  function RetriedAt(contents: seq<Content>, positions: seq<nat>, now: int): (r: seq<Content>)
    requires forall i | 0 <= i < |positions| :: positions[i] < |contents|
    ensures |r| == |contents|
    ensures forall k | 0 <= k < |contents| :: r[k] == if k in positions then Retried(now, contents[k]) else contents[k]
  {
    seq(|contents|, k requires 0 <= k < |contents| => if k in positions then Retried(now, contents[k]) else contents[k])
  }

  lemma NextRow(contents: seq<Content>, positions: seq<nat>, now: int, i: nat)
    requires forall j | 0 <= j < |positions| :: positions[j] < |contents|
    requires forall j, k | 0 <= j < k < |positions| :: positions[j] < positions[k]
    requires i < |positions|
    ensures var r := RetriedAt(contents, positions[..i], now); var k := positions[i];
            r[k] == contents[k] && RetriedAt(contents, positions[..i + 1], now) == r[k := Retried(now, contents[k])]
  {
    hide Retried;
    assert positions[..i + 1] == positions[..i] + [positions[i]];
    assert forall j | 0 <= j < i :: positions[..i][j] < positions[i];
  }

  lemma AllRetried(contents: seq<Content>, p: Content -> bool, now: int)
    ensures RetriedAt(contents, Positions(contents, p), now) == Change(contents, p, c => Retried(now, c))
  {
    hide Retried;
  }

  function RowsAt(contents: seq<Content>, positions: seq<nat>): (r: seq<Content>)
    requires forall i | 0 <= i < |positions| :: positions[i] < |contents|
    ensures |r| == |positions| && forall i | 0 <= i < |r| :: r[i] == contents[positions[i]]
  {
    seq(|positions|, i requires 0 <= i < |positions| => contents[positions[i]])
  }

  lemma {:induction false} RowsAtPositions(contents: seq<Content>, p: Content -> bool)
    ensures RowsAt(contents, Positions(contents, p)) == Keep(contents, p)
  {
    NoPositions(p);
    hide Keep, RowsAt, Positions;
    if contents == [] {
      KeepNone(p);
    } else {
      var n := |contents| - 1;
      var before := Positions(contents[..n], p);
      RowsAtPositions(contents[..n], p);
      KeepLast(contents, p);
      LastPosition(contents, p);
      assert RowsAt(contents, before) == RowsAt(contents[..n], before);
      assert RowsAt(contents, before + [n]) == RowsAt(contents, before) + [contents[n]];
    }
  }

  lemma NoPositions(p: Content -> bool)
    ensures Positions([], p) == []
  {
  }

  /**
   Affected are articles and podcasts that failed, or are stuck in processing, or are completed without a summary where
   that is asked for, and were last changed within all the limits that are set.
   */
  lemma AffectedExactly(s: Selection, c: Content)
    ensures !(c.contentType in {"article", "podcast"}) ==> !Affected(s, c)
    ensures !(c.status in {"failed", "processing", "completed"}) ==> !Affected(s, c)
    ensures c.contentType in {"article", "podcast"} ==>
              && (c.status == "failed" ==> (Affected(s, c) <==> ChangedWithin(s, c)))
              && (c.status == "processing" ==>
                    (Affected(s, c) <==>
                       ChangedWithin(s, c) && s.stuckCutoff.Some? && c.updatedAt.Some? &&
                       c.updatedAt.value < s.stuckCutoff.value))
              && (c.status == "completed" ==>
                    (Affected(s, c) <==> ChangedWithin(s, c) && s.missingSummary && !Has(c.metadata, "summary")))
  {
  }

  /** Is the last change inside the limits?  A row that was never changed is inside only when none is set. */
  predicate ChangedWithin(s: Selection, c: Content) {
    match c.updatedAt
    case None => s.daysCutoff.None? && s.since.None? && s.until.None?
    case Some(t) =>
      && (s.daysCutoff.Some? ==> s.daysCutoff.value <= t) && (s.since.Some? ==> s.since.value <= t)
      && (s.until.Some? ==> t < s.until.value)
  }

  /** The row is as new, touched now, and keeps what was found out about it. */
  predicate IsRetried(before: Content, after: Content, now: int) {
    && after.status == "new" && after.metadata == before.metadata && after.errorMessage == None
    && after.retryCount == Some(0) && after.checkedOutBy == None && after.checkedOutAt == None
    && after.processedAt == None && after.updatedAt == Some(now)
    && after.id == before.id && after.contentType == before.contentType && after.url == before.url
    && after.source == before.source && after.createdAt == before.createdAt
  }

  /** The payload names the content, the status it had, and the beginning of its error, if it had one. */
  predicate RecordsPast(p: Payload, c: Content) {
    && p.ErrorPayload? && p.contentType == c.contentType && p.url == c.url && p.source == c.source
    && p.fromStatus == c.status
    && (p.error.None? <==> c.errorMessage.None? || c.errorMessage == Some(""))
    && (p.error.Some? ==>
          && p.error.value <= c.errorMessage.value
          && |p.error.value| == if |c.errorMessage.value| < 500 then |c.errorMessage.value| else 500)
  }

  lemma RetriedFields(now: int, c: Content)
    ensures IsRetried(c, Retried(now, c), now) && RecordsPast(RetryPayload(c), c)
  {
  }

  /**
   Every affected row is retried and has one pending task that says what it was; other rows and their tasks are
   unchanged.
   */
  lemma ErroredFacts(tb: Tables, s: Selection, now: int, k: nat)
    requires Inv(tb) && k < |tb.contents|
    ensures var after := ErroredTables(tb, s, now); var c := tb.contents[k]; var left := TasksFor(after.tasks, c.id);
            && |after.contents| == |tb.contents|
            && (if Affected(s, c)
                then IsRetried(c, after.contents[k], now) && |left| == 1 && IsProcessTask(left[0], c.id, now)
                     && RecordsPast(left[0].payload, c)
                else after.contents[k] == c && left == TasksFor(tb.tasks, c.id))
  {
    hide Keep, Change, Inv, NewTasks, Retried, Affected, Replaced, TasksFor, RetryPayload, ProcessTask, IsProcessTask,
      IsRetried, RecordsPast;
    var rows := Keep(tb.contents, c => Affected(s, c));
    var c := tb.contents[k];
    RetriedFields(now, c);
    forall id {
      ProcessTaskFields(id, now, c.id, RetryPayload(c));
    }
    UniqueContents(tb);
    KeptApart(tb.contents, c => Affected(s, c));
    if rows == [] {
      assert c !in rows;
    } else {
      ReplacedFacts(tb.tasks, tb.nextId, now, rows, RetryPayload, c);
      OnlyAffectedIds(tb.contents, s, rows, k);
    }
  }

  lemma OnlyAffectedIds(contents: seq<Content>, s: Selection, rows: seq<Content>, k: nat)
    requires ContentsApart(contents) && k < |contents| && rows == Keep(contents, c => Affected(s, c))
    ensures contents[k].id in ContentIds(rows) ==> Affected(s, contents[k])
  {
    if contents[k].id in ContentIds(rows) {
      var c :| c in rows && c.id == contents[k].id;
      assert c in contents;
    }
  }

  /** The reset keeps the invariant. */
  lemma ErroredKeepsInv(tb: Tables, s: Selection, now: int)
    requires Inv(tb)
    ensures Inv(ErroredTables(tb, s, now))
  {
    hide Inv, Keep, Affected, TaskOf, ContentIds;
    var rows := Keep(tb.contents, c => Affected(s, c));
    if rows != [] {
      var ids := ContentIds(rows);
      DeleteKeepsInv(tb, t => !TaskOf(ids, t));
      var kept := tb.(tasks := Keep(tb.tasks, t => !TaskOf(ids, t)));
      var added := NewTasks(tb.nextId, now, rows, RetryPayload);
      InsertKeepsInv(kept, added);
      ContentsKeepInv(kept.(tasks := kept.tasks + added, nextId := tb.nextId + |added|),
        ErroredTables(tb, s, now).contents);
    }
  }

  /** Repeating the reset finds nothing: a retried row is new, whatever the filters. */
  lemma ErroredTwice(tb: Tables, s: Selection, now: int, later: int)
    ensures var once := ErroredTables(tb, s, now); ErroredTables(once, s, later) == once
  {
    hide Replaced;
    var once := ErroredTables(tb, s, now);
    var before, again := Keep(tb.contents, c => Affected(s, c)), Keep(once.contents, c => Affected(s, c));
    forall k | 0 <= k < |once.contents| ensures !Affected(s, once.contents[k]) {
      if Affected(s, tb.contents[k]) {
        assert tb.contents[k] in before;
      }
    }
    HasMember(again);
  }
}
