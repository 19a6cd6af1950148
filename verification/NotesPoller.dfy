/**
 The poller that starts one worker process at a time (scripts/poll_notes_requests.py).
 */
module NotesPoller {
  import opened Options

  datatype Note = Note(approved: bool, inProgress: bool)

  datatype Mode = Plan | Implement | Wait

  datatype Child = Child(pid: nat, noteId: string, mode: Mode)

  /** Notes, the state file, the live child processes, the next process id, and the launches so far. */
  datatype World = World(
    notes: map<string, Note>, state: Option<Child>, alive: set<nat>, nextPid: nat, launches: seq<Child>)

  /** Where the poller may be killed within a cycle. */
  datatype Fate = Survives | DiesAfterMark | DiesAfterSpawn

  /** A poll that is shown `first` as the first actionable note; a child's end; someone edits a note. */
  datatype Event =
    | Poll(first: Option<string>, fate: Fate)
    | Exit(pid: nat)
    | Edit(noteId: string, note: Note)

  function ChooseRunMode(note: Note): Mode {
    if note.approved then Implement else if note.inProgress then Wait else Plan
  }

  /** One poll cycle. */
  function Cycle(w: World, first: Option<string>, fate: Fate): World {
    if w.state.Some? && w.state.value.pid in w.alive then w
    else
      var idle := w.(state := None);
      if first.None? || first.value !in w.notes then idle
      else
        var id := first.value;
        var mode := ChooseRunMode(w.notes[id]);
        if mode.Wait? then idle
        else
          var marked := idle.(notes := w.notes[id := w.notes[id].(inProgress := true)]);
          if fate.DiesAfterMark? then marked
          else
            var child := Child(w.nextPid, id, mode);
            var spawned := marked.(
              alive := w.alive + {w.nextPid}, nextPid := w.nextPid + 1, launches := w.launches + [child]);
            if fate.DiesAfterSpawn? then spawned else spawned.(state := Some(child))
  }

  function Step(w: World, e: Event): World {
    match e
    case Poll(first, fate) => Cycle(w, first, fate)
    case Exit(pid) => w.(alive := w.alive - {pid})
    case Edit(id, note) => w.(notes := w.notes[id := note])
  }

  function Run(w: World, events: seq<Event>): World
    decreases |events|
  {
    if events == [] then w else Run(Step(w, events[0]), events[1..])
  }

  class Poller {
    var world: World

    constructor (initial: World)
      ensures world == initial
    {
      world := initial;
    }

    /** `run_poll_cycle`, left alone. */
    method RunPollCycle(first: Option<string>)
      modifies this
      ensures world == Cycle(old(world), first, Survives)
    {
      if world.state.Some? && world.state.value.pid in world.alive {
        return;
      }
      if world.state.Some? {
        world := world.(state := None);
      }
      if first.None? || first.value !in world.notes {
        return;
      }
      var note := world.notes[first.value];
      var mode := ChooseRunMode(note);
      if mode == Wait {
        return;
      }
      world := world.(notes := world.notes[first.value := note.(inProgress := true)]);
      var child := Child(world.nextPid, first.value, mode);
      world := world.(
        alive := world.alive + {child.pid}, nextPid := world.nextPid + 1, launches := world.launches + [child]);
      world := world.(state := Some(child));
    }
  }

  /**
   A poll without a live child that is shown a note, approved or not in progress,
     starts one process for it: to implement
   it if approved, else to plan it. It marks the note and writes the state file, and changes no other note.
   */
  lemma LaunchExactly(w: World, id: string)
    requires !(w.state.Some? && w.state.value.pid in w.alive) && id in w.notes
    requires w.notes[id].approved || !w.notes[id].inProgress
    ensures var after := Cycle(w, Some(id), Survives);
            && |after.launches| == |w.launches| + 1 && after.launches[..|w.launches|] == w.launches
            && (var child := after.launches[|w.launches|];
                && child.noteId == id && child.pid == w.nextPid
                && (child.mode == Implement <==> w.notes[id].approved)
                && (child.mode == Plan <==> !w.notes[id].approved)
                && after.state == Some(child) && after.alive == w.alive + {child.pid})
            && after.nextPid == w.nextPid + 1 && after.notes.Keys == w.notes.Keys
            && after.notes[id].inProgress && after.notes[id].approved == w.notes[id].approved
            && forall other | other in w.notes && other != id :: after.notes[other] == w.notes[other]
  {
  }

  /** Any other poll starts nothing and marks nothing; the state file goes unless it names a live child. */
  lemma OtherPollsStartNothing(w: World, first: Option<string>, fate: Fate)
    requires LaunchesNothing(w, first)
    ensures var after := Cycle(w, first, fate);
            && after.launches == w.launches && after.alive == w.alive && after.notes == w.notes
            && after.nextPid == w.nextPid
            && after.state == if w.state.Some? && w.state.value.pid in w.alive then w.state else None
  {
  }

  // ----- one child at a time -----

  /** Every live child is the one the state file names. */
  ghost predicate Inv(w: World) {
    forall pid | pid in w.alive :: w.state.Some? && w.state.value.pid == pid
  }

  predicate SpawnsAreRecorded(events: seq<Event>) {
    forall k | 0 <= k < |events| :: events[k].Poll? ==> !events[k].fate.DiesAfterSpawn?
  }

  /** If the launch and the state file are written together, at most one child is ever alive. */
  lemma {:induction false} OneChildAtATime(w: World, events: seq<Event>)
    requires Inv(w) && SpawnsAreRecorded(events)
    ensures Inv(Run(w, events))
    ensures forall p, q | p in Run(w, events).alive && q in Run(w, events).alive :: p == q
    decreases |events|
  {
    if events != [] {
      assert events[0].Poll? ==> !events[0].fate.DiesAfterSpawn?;
      forall k | 0 <= k < |events[1..]| ensures events[1..][k].Poll? ==> !events[1..][k].fate.DiesAfterSpawn? {
        assert events[1..][k] == events[k + 1];
      }
      OneChildAtATime(Step(w, events[0]), events[1..]);
    }
  }

  /** The guards under which a cycle starts no child. */
  predicate LaunchesNothing(w: World, first: Option<string>) {
    || (w.state.Some? && w.state.value.pid in w.alive)
    || first.None? || first.value !in w.notes
    || (w.notes[first.value].inProgress && !w.notes[first.value].approved)
  }

  ghost predicate AtMostOneAlive(w: World) {
    forall p, q | p in w.alive && q in w.alive :: p == q
  }

  /**
   If the poller dies between the launch and the state file, every later run still has at most one live child if and
   only if that cycle had nothing to launch.
   */
  lemma LostSpawnExactly(w: World, first: Option<string>)
    requires Inv(w) && forall pid | pid in w.alive :: pid < w.nextPid
    ensures (forall events | SpawnsAreRecorded(events) ::
            AtMostOneAlive(Run(Cycle(w, first, DiesAfterSpawn), events))) <==>
            LaunchesNothing(w, first)
  {
    var lost := Cycle(w, first, DiesAfterSpawn);
    if LaunchesNothing(w, first) {
      forall events | SpawnsAreRecorded(events) ensures AtMostOneAlive(Run(lost, events)) {
        OneChildAtATime(lost, events);
      }
    } else {
      var events := SecondSpawn(w, first.value);
      assert SpawnsAreRecorded(events) && !AtMostOneAlive(Run(lost, events));
    }
  }

  /** Someone approves the note, and the next poll starts a second child beside the one that was not recorded. */
  lemma SecondSpawn(w: World, id: string) returns (events: seq<Event>)
    requires Inv(w) && !LaunchesNothing(w, Some(id))
    ensures SpawnsAreRecorded(events)
    ensures Run(Cycle(w, Some(id), DiesAfterSpawn), events).alive >= {w.nextPid, w.nextPid + 1}
  {
    var lost := Cycle(w, Some(id), DiesAfterSpawn);
    var approve, poll := Edit(id, Note(true, false)), Poll(Some(id), Survives);
    events := [approve, poll];
    RunTwo(lost, approve, poll);
  }

  lemma RunTwo(w: World, first: Event, second: Event)
    ensures Run(w, [first, second]) == Step(Step(w, first), second)
  {
    hide Step;
    var events := [first, second];
    assert events[1..] == [second] && [second][1..] == [];
    assert Run(Step(w, first), [second]) == Run(Step(Step(w, first), second), []);
  }

  /** Such a run from a fresh start. */
  lemma TwoChildrenAfterLostSpawn()
    ensures var w := World(map["n" := Note(true, false)], None, {}, 0, []);
            Run(w, [Poll(Some("n"), DiesAfterSpawn), Poll(Some("n"), Survives)]).alive == {0, 1}
  {
    var w := World(map["n" := Note(true, false)], None, {}, 0, []);
    var events := [Poll(Some("n"), DiesAfterSpawn), Poll(Some("n"), Survives)];
    var once := Step(w, events[0]);
    assert events[1..] == [events[1]] && events[1..][1..] == [];
    assert Run(w, events) == Step(once, events[1]);
  }

  // ----- what is launched -----

  /** The launch belongs to a poll that was shown its note, to implement it if approved, or to plan it if untouched. */
  ghost predicate JustifiedBy(before: World, e: Event, launch: Child) {
    && e.Poll? && e.first == Some(launch.noteId) && launch.noteId in before.notes
    && var note := before.notes[launch.noteId];
       if note.approved then launch.mode == Implement else launch.mode == Plan && !note.inProgress
  }

  lemma LaunchIsJustified(w: World, e: Event)
    ensures var after := Step(w, e);
            || after.launches == w.launches
            || exists launch :: after.launches == w.launches + [launch] && JustifiedBy(w, e, launch)
  {
    if Step(w, e).launches != w.launches {
      var note := w.notes[e.first.value];
      assert JustifiedBy(w, e, Child(w.nextPid, e.first.value, if note.approved then Implement else Plan));
    }
  }

  /** Over every run, each new launch was made by one of its polls, on the state of the note at that poll. */
  lemma {:induction false} LaunchesAreJustified(w: World, events: seq<Event>, l: nat) returns (k: nat)
    requires |w.launches| <= l < |Run(w, events).launches|
    ensures k < |events| && JustifiedBy(Run(w, events[..k]), events[k], Run(w, events).launches[l])
    decreases |events|
  {
    hide JustifiedBy, Step;
    var next, rest := Step(w, events[0]), events[1..];
    LaunchIsJustified(w, events[0]);
    if l < |next.launches| {
      LaunchesStay(next, rest);
      k := 0;
    } else {
      var later := LaunchesAreJustified(next, rest, l);
      k := later + 1;
      assert events[..k][1..] == rest[..k - 1];
    }
  }

  lemma {:induction false} LaunchesStay(w: World, events: seq<Event>)
    ensures w.launches <= Run(w, events).launches
    decreases |events|
  {
    hide Step, JustifiedBy;
    if events != [] {
      LaunchIsJustified(w, events[0]);
      LaunchesStay(Step(w, events[0]), events[1..]);
    }
  }

  /** No event takes the in-progress mark off the note or approves it. */
  predicate Undisturbed(id: string, events: seq<Event>) {
    forall k | 0 <= k < |events| && events[k].Edit? && events[k].noteId == id ::
      events[k].note.inProgress && !events[k].note.approved
  }

  function LaunchesOf(launches: seq<Child>, id: string): nat {
    if launches == [] then 0
    else LaunchesOf(launches[..|launches| - 1], id) + if launches[|launches| - 1].noteId == id then 1 else 0
  }

  /** While an unapproved note stays marked in progress, it is not launched again, whatever else happens. */
  lemma {:induction false} MarkedNoteIsLeftAlone(w: World, events: seq<Event>, id: string)
    requires id in w.notes && w.notes[id].inProgress && !w.notes[id].approved && Undisturbed(id, events)
    ensures LaunchesOf(Run(w, events).launches, id) == LaunchesOf(w.launches, id)
    ensures id in Run(w, events).notes && Run(w, events).notes[id] == Note(false, true)
    decreases |events|
  {
    if events != [] {
      var w' := Step(w, events[0]);
      forall k | 0 <= k < |events[1..]| && events[1..][k].Edit? && events[1..][k].noteId == id
        ensures events[1..][k].note.inProgress && !events[1..][k].note.approved
      {
        assert events[1..][k] == events[k + 1];
      }
      assert LaunchesOf(w'.launches, id) == LaunchesOf(w.launches, id) by {
        if w'.launches != w.launches {
          assert w'.launches[..|w'.launches| - 1] == w.launches;
        }
      }
      MarkedNoteIsLeftAlone(w', events[1..], id);
    }
  }

  /**
   So a note is planned at most once per marking: a cycle that marks it for planning makes at most one launch, and none
   follows.
   */
  lemma PlannedAtMostOnce(w: World, fate: Fate, events: seq<Event>, id: string)
    requires id in w.notes && !w.notes[id].approved && !w.notes[id].inProgress && Undisturbed(id, events)
    requires Cycle(w, Some(id), fate).notes[id].inProgress
    ensures var n := LaunchesOf(Run(Cycle(w, Some(id), fate), events).launches, id) - LaunchesOf(w.launches, id);
            n == if fate.DiesAfterMark? then 0 else 1
  {
    var marked := Cycle(w, Some(id), fate);
    if !fate.DiesAfterMark? {
      assert marked.launches[..|marked.launches| - 1] == w.launches;
    }
    MarkedNoteIsLeftAlone(marked, events, id);
  }
}
