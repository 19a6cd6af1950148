/**
 Regenerating images from the operator command (admin/remote_ops.py: `_regenerate_images`,
 `_regenerate_one_content_image`).
 */
module ImageRepair {
  import opened Options
  import opened JsonValues
  import opened TaskTables

  /** What the image service, and the merge of its result into the metadata, come to. */
  datatype Attempt = Generated(metadata: Fields) | NotGenerated(error: Option<string>) | Raised(exception: string)

  datatype Report = Report(contentId: int, taskId: Option<int>, status: string)

  const IMAGE := "image"
  const GENERATE_IMAGE := "generate_image"

  predicate HasActiveTask(tasks: seq<Task>, contentId: int) {
    exists t | t in tasks :: t.contentId == Some(contentId) && t.taskType == GENERATE_IMAGE && Active(t)
  }

  function StartedTask(id: int, contentId: int, now: int): Task {
    Task(id, GENERATE_IMAGE, Some(contentId), PROCESSING, IMAGE, Some(now), now, Some(now), None, Some(now),
      Some("admin-fix"), None, None, Some(0), None, ImagePayload)
  }

  function Ended(t: Task, a: Attempt, now: int): Task {
    match a
    case Generated(_) => Release(t, COMPLETED, None, now)
    case NotGenerated(error) => Release(t, FAILED, error, now)
    case Raised(error) => Release(t, FAILED, Some(error), now)
  }

  function Release(t: Task, status: string, error: Option<string>, now: int): Task {
    t.(status := status, completedAt := Some(now), errorMessage := error, lockedAt := None, lockedBy := None,
      leaseExpiresAt := None)
  }

  predicate Exists(contents: seq<Content>, id: int) {
    exists c | c in contents :: c.id == id
  }

  /** The tables after one repair: one more task, ended, and the metadata of the content if an image was generated. */
  function Repaired(tb: Tables, contentId: int, a: Attempt, now: int): Tables {
    if !Exists(tb.contents, contentId) then tb
    else
      Tables(
        tb.tasks + [Ended(StartedTask(tb.nextId, contentId, now), a, now)],
        if a.Generated?
        then Change(tb.contents, (c: Content) => c.id == contentId,
                    (c: Content) => c.(metadata := a.metadata, updatedAt := Some(now)))
        else tb.contents,
        tb.nextId + 1)
  }

  function ReportOf(tb: Tables, contentId: int, a: Attempt): Report {
    if !Exists(tb.contents, contentId) then Report(contentId, None, "missing")
    else
      var status := if a.Generated? then "completed" else if a.NotGenerated? then "failed" else "error";
      Report(contentId, Some(tb.nextId), status)
  }

  /** All candidates, one after another; `attempt(id)` is what comes of the attempt for that content. */
  function RepairedAll(tb: Tables, ids: seq<int>, attempt: int -> Attempt, now: int): Tables
    decreases |ids|
  {
    if ids == [] then tb
    else
      var before := RepairedAll(tb, ids[..|ids| - 1], attempt, now);
      Repaired(before, ids[|ids| - 1], attempt(ids[|ids| - 1]), now)
  }

  /** The reports: each on the tables that the repairs before it have left. */
  function Reports(tb: Tables, ids: seq<int>, attempt: int -> Attempt, now: int): (r: seq<Report>)
    ensures |r| == |ids|
    ensures forall i | 0 <= i < |ids| ::
            r[i] == ReportOf(RepairedAll(tb, ids[..i], attempt, now), ids[i], attempt(ids[i]))
  {
    seq(|ids|, i requires 0 <= i < |ids| => ReportOf(RepairedAll(tb, ids[..i], attempt, now), ids[i], attempt(ids[i])))
  }

  lemma NoRepairs(tb: Tables, attempt: int -> Attempt, now: int)
    ensures RepairedAll(tb, [], attempt, now) == tb
  {
  }

  lemma NextRepair(tb: Tables, ids: seq<int>, attempt: int -> Attempt, now: int, i: nat)
    requires i < |ids|
    ensures var before := RepairedAll(tb, ids[..i], attempt, now);
            && RepairedAll(tb, ids[..i + 1], attempt, now) == Repaired(before, ids[i], attempt(ids[i]), now)
            && Reports(tb, ids[..i + 1], attempt, now) ==
               Reports(tb, ids[..i], attempt, now) + [ReportOf(before, ids[i], attempt(ids[i]))]
  {
    hide Repaired, ReportOf;
    assert ids[..i + 1][..i] == ids[..i];
    assert forall j | 0 <= j < i :: ids[..i + 1][..j] == ids[..i][..j];
    hide Reports, RepairedAll;
  }

  class Session {
    var tables: Tables

    constructor (initial: Tables)
      ensures tables == initial
    {
      tables := initial;
    }

    method RegenerateOneContentImage(contentId: int, attempt: Attempt, now: int) returns (r: Report)
      modifies this
      ensures tables == Repaired(old(tables), contentId, attempt, now)
      ensures r == ReportOf(old(tables), contentId, attempt)
    {
      if !Exists(tables.contents, contentId) {
        return Report(contentId, None, "missing");
      }
      var before := tables;
      var task := StartedTask(tables.nextId, contentId, now);
      tables := tables.(tasks := tables.tasks + [task], nextId := tables.nextId + 1);
      var last := |tables.tasks| - 1;
      match attempt
      case NotGenerated(error) =>
        tables := tables.(tasks := tables.tasks[last := Release(task, FAILED, error, now)]);
        assert tables.tasks == before.tasks + [Release(task, FAILED, error, now)];
        return Report(contentId, Some(task.id), "failed");
      case Generated(metadata) =>
        tables := tables.(contents := Change(tables.contents, (c: Content) => c.id == contentId,
                                             (c: Content) => c.(metadata := metadata, updatedAt := Some(now))));
        tables := tables.(tasks := tables.tasks[last := Release(task, COMPLETED, None, now)]);
        assert tables.tasks == before.tasks + [Release(task, COMPLETED, None, now)];
        assert tables.contents == Repaired(before, contentId, attempt, now).contents;
        return Report(contentId, Some(task.id), "completed");
      case Raised(error) =>
        tables := tables.(tasks := tables.tasks[last := Release(task, FAILED, Some(error), now)]);
        assert tables.tasks == before.tasks + [Release(task, FAILED, Some(error), now)];
        return Report(contentId, Some(task.id), "error");
    }

    /** The loop over the candidates; the candidates are chosen before the first attempt. */
    method RegenerateImages(
      selected: seq<int>, eligible: Content -> bool, hasImage: Content -> bool, attempt: int -> Attempt, now: int)
      returns (results: seq<Report>, updatedCount: nat)
      modifies this
      ensures tables == RepairedAll(old(tables), Candidates(old(tables), selected, eligible, hasImage), attempt, now)
      ensures results == Reports(old(tables), Candidates(old(tables), selected, eligible, hasImage), attempt, now)
      ensures updatedCount ==
              |Keep(Candidates(old(tables), selected, eligible, hasImage), id => attempt(id).Generated?)|
    {
      hide Candidates, CompletedCount, RepairedAll, Keep, Repaired, ReportOf;
      var tb := tables;
      var candidates := Candidates(tables, selected, eligible, hasImage);
      results := [];
      NoRepairs(tb, attempt, now);
      assert candidates[..0] == [];
      for i := 0 to |candidates|
        invariant results == Reports(old(tables), candidates[..i], attempt, now)
        invariant tables == RepairedAll(old(tables), candidates[..i], attempt, now)
      {
        NextRepair(tb, candidates, attempt, now, i);
        var r := RegenerateOneContentImage(candidates[i], attempt(candidates[i]), now);
        results := results + [r];
      }
      assert candidates[..|candidates|] == candidates;
      updatedCount := CompletedCount(results);
      CandidatesExist(tb, selected, eligible, hasImage);
      CompletedAreGenerated(tb, candidates, attempt, now);
    }
  }

  function Candidates(tb: Tables, selected: seq<int>, eligible: Content -> bool, hasImage: Content -> bool): seq<int> {
    Keep(selected, id =>
      && (exists c | c in tb.contents :: c.id == id && eligible(c) && !hasImage(c))
      && !HasActiveTask(tb.tasks, id))
  }

  function CompletedCount(results: seq<Report>): nat {
    |Keep(results, (r: Report) => r.status == "completed")|
  }

  lemma CandidatesExist(tb: Tables, selected: seq<int>, eligible: Content -> bool, hasImage: Content -> bool)
    ensures forall id | id in Candidates(tb, selected, eligible, hasImage) :: Exists(tb.contents, id)
  {
    hide Keep;
  }

  /** Repairs delete no content. */
  lemma {:induction false} ContentsStay(tb: Tables, ids: seq<int>, attempt: int -> Attempt, now: int, id: int)
    requires Exists(tb.contents, id)
    ensures Exists(RepairedAll(tb, ids, attempt, now).contents, id)
    decreases |ids|
  {
    if ids != [] {
      var n := |ids| - 1;
      ContentsStay(tb, ids[..n], attempt, now, id);
      RepairKeepsContent(RepairedAll(tb, ids[..n], attempt, now), ids[n], attempt(ids[n]), now, id);
    }
  }

  lemma RepairKeepsContent(tb: Tables, contentId: int, a: Attempt, now: int, id: int)
    requires Exists(tb.contents, id)
    ensures Exists(Repaired(tb, contentId, a, now).contents, id)
  {
    var i :| 0 <= i < |tb.contents| && tb.contents[i].id == id;
    assert Repaired(tb, contentId, a, now).contents[i].id == id;
  }

  /** So the reports that say "completed" are those of the generated images. */
  lemma {:induction false} CompletedAreGenerated(tb: Tables, ids: seq<int>, attempt: int -> Attempt, now: int)
    requires forall id | id in ids :: Exists(tb.contents, id)
    ensures CompletedCount(Reports(tb, ids, attempt, now)) == |Keep(ids, id => attempt(id).Generated?)|
    decreases |ids|
  {
    hide Keep, Exists, RepairedAll;
    if ids == [] {
      KeepNone((r: Report) => r.status == "completed");
      KeepNone((id: int) => attempt(id).Generated?);
    } else {
      var n := |ids| - 1;
      CompletedAreGenerated(tb, ids[..n], attempt, now);
      ContentsStay(tb, ids[..n], attempt, now, ids[n]);
      NextRepair(tb, ids, attempt, now, n);
      assert ids[..n + 1] == ids;
      var reports := Reports(tb, ids, attempt, now);
      assert reports[..n] == Reports(tb, ids[..n], attempt, now);
      KeepLast(reports, (r: Report) => r.status == "completed");
      KeepLast(ids, id => attempt(id).Generated?);
    }
  }

  /** An image task that has ended: completed, or failed with the error of the attempt, and held by nobody. */
  predicate IsEndedTask(t: Task, id: int, contentId: int, a: Attempt, now: int) {
    && t.id == id && t.contentId == Some(contentId) && t.taskType == "generate_image" && t.queueName == "image"
    && t.createdAt == Some(now) && t.availableAt == now && t.startedAt == Some(now) && t.completedAt == Some(now)
    && t.lockedAt == None && t.lockedBy == None && t.leaseExpiresAt == None && t.retryCount == Some(0)
    && t.dedupeKey == None && t.payload == ImagePayload
    && match a
       case Generated(_) => t.status == "completed" && t.errorMessage == None
       case NotGenerated(error) => t.status == "failed" && t.errorMessage == error
       case Raised(error) => t.status == "failed" && t.errorMessage == Some(error)
  }

  /**
   On every exit a repair of an existing content adds one task, unlocked and completed or failed, and touches no other
   row.
   */
  lemma RepairedFacts(tb: Tables, contentId: int, a: Attempt, now: int)
    requires Exists(tb.contents, contentId)
    ensures var after := Repaired(tb, contentId, a, now);
            && |after.tasks| == |tb.tasks| + 1 && after.tasks[..|tb.tasks|] == tb.tasks
            && IsEndedTask(after.tasks[|tb.tasks|], tb.nextId, contentId, a, now)
            && !Active(after.tasks[|tb.tasks|]) && after.nextId == tb.nextId + 1
            && (var report := ReportOf(tb, contentId, a);
                && report.contentId == contentId && report.taskId == Some(tb.nextId)
                && (report.status == "completed" <==> a.Generated?)
                && (report.status == "failed" <==> a.NotGenerated?) && (report.status == "error" <==> a.Raised?))
            && |after.contents| == |tb.contents|
            && forall i | 0 <= i < |tb.contents| ::
                 after.contents[i] == if a.Generated? && tb.contents[i].id == contentId
                                      then tb.contents[i].(metadata := a.metadata, updatedAt := Some(now))
                                      else tb.contents[i]
  {
  }

  /** A content that does not exist is reported missing, and nothing changes. */
  lemma MissingChangesNothing(tb: Tables, contentId: int, a: Attempt, now: int)
    requires forall c | c in tb.contents :: c.id != contentId
    ensures Repaired(tb, contentId, a, now) == tb && ReportOf(tb, contentId, a) == Report(contentId, None, "missing")
  {
  }

  /**
   Candidates are the selected contents that are eligible, have no image, and no image task that is still going on.
   */
  lemma CandidatesExactly(
    tb: Tables, selected: seq<int>, eligible: Content -> bool, hasImage: Content -> bool, id: int)
    ensures id in Candidates(tb, selected, eligible, hasImage) <==>
            && id in selected && (exists c | c in tb.contents :: c.id == id && eligible(c) && !hasImage(c))
            && forall t | t in tb.tasks && t.contentId == Some(id) && t.taskType == "generate_image" ::
                 t.status != "pending" && t.status != "processing"
  {
    hide Keep;
  }

  lemma RepairedKeepsInv(tb: Tables, contentId: int, a: Attempt, now: int)
    requires Inv(tb)
    ensures Inv(Repaired(tb, contentId, a, now))
  {
    hide Inv;
    if Exists(tb.contents, contentId) {
      var added := [Ended(StartedTask(tb.nextId, contentId, now), a, now)];
      InsertKeepsInv(tb, added);
      ContentsKeepInv(tb.(tasks := tb.tasks + added, nextId := tb.nextId + 1),
        Repaired(tb, contentId, a, now).contents);
    }
  }

  /** A whole repair leaves no active image task behind, so every candidate could be chosen again. */
  lemma {:induction false} RepairLeavesNothingActive(
    tb: Tables, ids: seq<int>, attempt: int -> Attempt, now: int, id: int)
    ensures HasActiveTask(RepairedAll(tb, ids, attempt, now).tasks, id) <==> HasActiveTask(tb.tasks, id)
    decreases |ids|
  {
    if ids != [] {
      var rest, last := ids[..|ids| - 1], ids[|ids| - 1];
      RepairLeavesNothingActive(tb, rest, attempt, now, id);
      var before := RepairedAll(tb, rest, attempt, now);
      if Exists(before.contents, last) {
        RepairedFacts(before, last, attempt(last), now);
        var after := Repaired(before, last, attempt(last), now);
        assert forall t | t in after.tasks :: t in before.tasks || t == after.tasks[|before.tasks|];
        assert forall t | t in before.tasks :: t in after.tasks;
      }
    }
  }

  lemma {:induction false} RepairedAllKeepsInv(tb: Tables, ids: seq<int>, attempt: int -> Attempt, now: int)
    requires Inv(tb)
    ensures Inv(RepairedAll(tb, ids, attempt, now))
    decreases |ids|
  {
    hide Inv, Repaired;
    if ids != [] {
      RepairedAllKeepsInv(tb, ids[..|ids| - 1], attempt, now);
      RepairedKeepsInv(RepairedAll(tb, ids[..|ids| - 1], attempt, now), ids[|ids| - 1], attempt(ids[|ids| - 1]), now);
    }
  }
}
