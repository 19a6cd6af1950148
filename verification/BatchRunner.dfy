/**
 The resumable batch runner (scripts/run_title_clustering_opus.py: `_run_batches`): every file
 write is one step, and a run may be killed between any two steps and started again.
 */
module BatchRunner {
  import opened Options
  import opened JsonText
  import opened ModelAnswer
  import opened Enrichment
  import opened NewlineText

  /** What stays fixed over all runs: how floats are read, and the rows of each batch. */
  datatype Job = Job(fl: FloatReader, rows: seq<seq<Row>>)

  /** The files of one batch, and how many paid requests were sent, lost with a crash, and rejected. */
  datatype Batch = Batch(
    response: Option<string>, invalid: Option<string>, parsed: Option<Answer>, enriched: Option<Enriched>,
    sent: nat, lost: nat, rejected: nat)

  /** Where the program is: idle, or at a statement of the loop body for batch `i`. */
  datatype Pc =
    | Idle
    | Look(i: nat)
    | Ask(i: nat)
    | Save(i: nat, text: string)
    | Read(i: nat, text: string)
    | StoreParsed(i: nat, answer: Answer)
    | StoreEnriched(i: nat, answer: Answer)

  datatype World = World(batches: seq<Batch>, pc: Pc)

  /** A step of the program, with the model's reply in case it asks (`None`: the call fails), or a kill. */
  datatype Event = Tick(reply: Option<string>) | Kill

  function OutcomeOf(job: Job, text: string): Outcome {
    ParseResponseText(job.fl, text)
  }

  /** The outcome of a response file, as it is read back; it is that of the file's content. */
  function SavedOutcome(job: Job, file: string): (r: Outcome)
    ensures r == OutcomeOf(job, file)
  {
    ReadBackParsesTheSame(job.fl, file);
    OutcomeOf(job, ReadText(file))
  }

  function Step(job: Job, w: World, e: Event): World {
    match e
    case Kill => World(if w.pc.Save? && w.pc.i < |w.batches| then Lose(w.batches, w.pc.i) else w.batches, Idle)
    case Tick(reply) =>
      if w.pc.Idle? then w.(pc := Look(0))
      else if w.pc.i >= |w.batches| || w.pc.i >= |job.rows| then w.(pc := Idle)
      else
        var i := w.pc.i;
        var b := w.batches[i];
        match w.pc
        case Look(_) => LookAt(job, w, i)
        case Ask(_) =>
          (match reply
           case None => World(w.batches[i := b.(sent := b.sent + 1, lost := b.lost + 1)], Idle)
           case Some(text) => World(w.batches[i := b.(sent := b.sent + 1)], Save(i, text)))
        case Save(_, text) => World(w.batches[i := b.(response := Some(text + "\n"))], Read(i, text))
        case Read(_, text) =>
          (match OutcomeOf(job, text)
           case Parsed(a) => w.(pc := StoreParsed(i, a))
           case _ => w.(pc := Idle))
        case StoreParsed(_, a) => World(w.batches[i := b.(parsed := Some(a))], StoreEnriched(i, a))
        case StoreEnriched(_, a) =>
          World(w.batches[i := b.(enriched := Some(EnrichedBatch(job.rows[i], a)))], Look(i + 1))
  }

  /** The tests at the head of the loop body. */
  function LookAt(job: Job, w: World, i: nat): World
    requires i < |w.batches|
  {
    var b := w.batches[i];
    if b.parsed.Some? then
      w.(pc := if b.enriched.None? then StoreEnriched(i, b.parsed.value) else Look(i + 1))
    else if b.response.None? then w.(pc := Ask(i))
    else
      match SavedOutcome(job, b.response.value)
      case Parsed(a) => w.(pc := StoreParsed(i, a))
      case Unparseable =>
        World(w.batches[i := b.(response := None, invalid := b.response, rejected := b.rejected + 1)], Ask(i))
      case Malformed => w.(pc := Idle)
  }

  function Lose(batches: seq<Batch>, i: nat): seq<Batch>
    requires i < |batches|
  {
    batches[i := batches[i].(lost := batches[i].lost + 1)]
  }

  function Run(job: Job, w: World, events: seq<Event>): World
    decreases |events|
  {
    if events == [] then w else Run(job, Step(job, w, events[0]), events[1..])
  }

  // ----- the invariant -----

  predicate Complete(b: Batch) {
    b.parsed.Some? && b.enriched.Some?
  }

  /** A parsed file is the parse of the saved response, an enriched file the enrichment of that. */
  predicate FilesAgree(job: Job, rows: seq<Row>, b: Batch) {
    && (b.parsed.Some? ==> b.response.Some? && OutcomeOf(job, b.response.value) == Parsed(b.parsed.value))
    && (b.enriched.Some? ==> b.parsed.Some? && b.enriched.value == EnrichedBatch(rows, b.parsed.value))
  }

  /** Every request sent is accounted for: its response is saved, in memory, rejected, or lost. */
  predicate Accounted(w: World, j: nat)
    requires j < |w.batches|
  {
    var b := w.batches[j];
    b.sent == b.lost + b.rejected + (if b.response.Some? then 1 else 0) + (if w.pc.Save? && w.pc.i == j then 1 else 0)
  }

  /** What the program knows at each statement. */
  predicate PcAgrees(job: Job, w: World) {
    w.pc.Idle? || (
      && w.pc.i <= |w.batches|
      && (forall j | 0 <= j < w.pc.i :: Complete(w.batches[j]))
      && (!w.pc.Look? ==>
            && w.pc.i < |w.batches|
            && var b := w.batches[w.pc.i];
               match w.pc
               case Ask(_) => b.response.None?
               case Save(_, _) => b.response.None?
               case Read(_, text) => b.response == Some(text + "\n") && b.parsed.None?
               case StoreParsed(_, a) => b.response.Some? && OutcomeOf(job, b.response.value) == Parsed(a)
               case StoreEnriched(_, a) => b.parsed == Some(a)
               case _ => true))
  }

  ghost predicate Inv(job: Job, w: World) {
    && |w.batches| == |job.rows|
    && (forall j | 0 <= j < |w.batches| :: FilesAgree(job, job.rows[j], w.batches[j]) && Accounted(w, j))
    && PcAgrees(job, w)
  }

  /** Before the first run: no files, nothing sent. */
  function Fresh(job: Job): World {
    World(seq(|job.rows|, _ => Batch(None, None, None, None, 0, 0, 0)), Idle)
  }

  /** Is the program between a reply for batch `j` and saving it? */
  predicate Unsaved(pc: Pc, j: nat) {
    pc.Save? && pc.i == j
  }

  /**
   A step that changes one batch, and no other batch's unsaved reply, keeps the invariant if that batch keeps its part.
   */
  lemma UpdateKeepsInv(job: Job, w: World, i: nat, b: Batch, pc: Pc)
    requires Inv(job, w) && i < |w.batches|
    requires forall j: nat | j != i :: Unsaved(w.pc, j) == Unsaved(pc, j)
    requires var w' := World(w.batches[i := b], pc);
             FilesAgree(job, job.rows[i], b) && Accounted(w', i) && PcAgrees(job, w')
    ensures Inv(job, World(w.batches[i := b], pc))
  {
    hide FilesAgree, PcAgrees;
    var w' := World(w.batches[i := b], pc);
    forall j | 0 <= j < |w.batches| && j != i ensures Accounted(w', j) {
      assert Accounted(w, j) && Unsaved(w.pc, j) == Unsaved(pc, j);
    }
  }

  lemma StepKeepsInv(job: Job, w: World, e: Event)
    requires Inv(job, w)
    ensures Inv(job, Step(job, w, e))
  {
    hide Inv, PcAgrees, FilesAgree, Accounted;
    var w' := Step(job, w, e);
    if e.Kill? {
      KillKeepsInv(job, w);
    } else if w.pc.Idle? || w.pc.i >= |w.batches| || w.pc.i >= |job.rows| {
      IdleKeepsInv(job, w, w'.pc);
    } else if w.pc.Look? {
      LookKeepsInv(job, w);
    } else if w.pc.Ask? || w.pc.Save? || w.pc.Read? {
      ReplyKeepsInv(job, w, e.reply);
    } else {
      StoreKeepsInv(job, w, e.reply);
    }
  }

  lemma KillKeepsInv(job: Job, w: World)
    requires Inv(job, w)
    ensures Inv(job, Step(job, w, Kill))
  {
    hide EnrichedBatch, OutcomeOf;
  }

  lemma IdleKeepsInv(job: Job, w: World, pc: Pc)
    requires Inv(job, w) && (w.pc.Idle? || w.pc.i >= |w.batches| || w.pc.i >= |job.rows|) && (pc.Idle? || pc == Look(0))
    ensures Inv(job, w.(pc := pc))
  {
    hide EnrichedBatch, OutcomeOf;
  }

  lemma LookKeepsInv(job: Job, w: World)
    requires Inv(job, w) && w.pc.Look? && w.pc.i < |w.batches|
    ensures Inv(job, LookAt(job, w, w.pc.i))
  {
    hide EnrichedBatch, OutcomeOf;
    var i := w.pc.i;
    var w' := LookAt(job, w, i);
    assert w.batches[i := w.batches[i]] == w.batches;
    UpdateKeepsInv(job, w, i, w'.batches[i], w'.pc);
  }

  lemma ReplyKeepsInv(job: Job, w: World, reply: Option<string>)
    requires Inv(job, w) && (w.pc.Ask? || w.pc.Save? || w.pc.Read?)
    ensures Inv(job, Step(job, w, Tick(reply)))
  {
    hide EnrichedBatch, ParseResponseText;
    if w.pc.i < |w.batches| {
      var i := w.pc.i;
      var w' := Step(job, w, Tick(reply));
      if w.pc.Read? {
        SavedResponseParsesTheSame(job.fl, w.pc.text);
      }
      assert w.batches[i := w.batches[i]] == w.batches;
      UpdateKeepsInv(job, w, i, w'.batches[i], w'.pc);
    }
  }

  lemma StoreKeepsInv(job: Job, w: World, reply: Option<string>)
    requires Inv(job, w) && (w.pc.StoreParsed? || w.pc.StoreEnriched?)
    ensures Inv(job, Step(job, w, Tick(reply)))
  {
    hide EnrichedBatch, OutcomeOf;
    if w.pc.i < |w.batches| {
      var i := w.pc.i;
      var w' := Step(job, w, Tick(reply));
      UpdateKeepsInv(job, w, i, w'.batches[i], w'.pc);
    }
  }

  /** The invariant holds in every state of every sequence of runs, however often they are killed. */
  lemma {:induction false} InvAlways(job: Job, w: World, events: seq<Event>)
    requires Inv(job, w)
    ensures Inv(job, Run(job, w, events))
    decreases |events|
  {
    hide Step, Inv;
    if events != [] {
      StepKeepsInv(job, w, events[0]);
      InvAlways(job, Step(job, w, events[0]), events[1..]);
    }
  }

  lemma FreshInv(job: Job)
    ensures Inv(job, Fresh(job))
  {
  }

  // ----- what the invariant gives -----

  /**
   From nothing, over any sequence of killed and restarted runs: files agree, and every paid request is accounted for.
   */
  lemma FilesAlwaysAgree(job: Job, events: seq<Event>, j: nat)
    requires j < |job.rows|
    ensures var w := Run(job, Fresh(job), events);
            && |w.batches| == |job.rows|
            && FilesAgree(job, job.rows[j], w.batches[j])
            && Accounted(w, j)
  {
    hide Run, FilesAgree, Accounted;
    FreshInv(job);
    InvAlways(job, Fresh(job), events);
  }

  /** A run that reaches the end of its loop has left every batch parsed and enriched. */
  lemma FinishedRunIsComplete(job: Job, events: seq<Event>)
    ensures var w := Run(job, Fresh(job), events);
            w.pc == Look(|job.rows|) ==> forall j | 0 <= j < |w.batches| :: Complete(w.batches[j])
  {
    hide Run;
    FreshInv(job);
    InvAlways(job, Fresh(job), events);
  }

  /** A batch with a parseable saved response is settled: no later step asks again or changes what is stored. */
  ghost predicate Settled(job: Job, w: World, j: nat) {
    j < |w.batches| && w.batches[j].response.Some? && OutcomeOf(job, w.batches[j].response.value).Parsed?
  }

  lemma SettledStep(job: Job, w: World, e: Event, j: nat)
    requires Inv(job, w) && Settled(job, w, j)
    ensures Settled(job, Step(job, w, e), j)
    ensures var b, b' := w.batches[j], Step(job, w, e).batches[j];
            && b'.sent == b.sent && b'.response == b.response
            && (b.parsed.Some? ==> b'.parsed == b.parsed) && (b.enriched.Some? ==> b'.enriched == b.enriched)
  {
    hide EnrichedBatch, OutcomeOf;
  }

  /** Over any continuation, the model is not asked again for a settled batch, and its files stay. */
  lemma {:induction false} SettledForever(job: Job, w: World, events: seq<Event>, j: nat)
    requires Inv(job, w) && Settled(job, w, j)
    ensures Settled(job, Run(job, w, events), j)
    ensures var b, b' := w.batches[j], Run(job, w, events).batches[j];
            && b'.sent == b.sent && b'.response == b.response
            && (b.parsed.Some? ==> b'.parsed == b.parsed) && (b.enriched.Some? ==> b'.enriched == b.enriched)
    decreases |events|
  {
    hide Inv, Step;
    if events != [] {
      SettledStep(job, w, events[0], j);
      StepKeepsInv(job, w, events[0]);
      SettledForever(job, Step(job, w, events[0]), events[1..], j);
    }
  }

  // ----- a response of the wrong shape -----

  /** A saved response that parses as JSON but has the wrong shape is never replaced. */
  ghost predicate Wedged(job: Job, w: World, j: nat) {
    && j < |w.batches| && w.batches[j].response.Some?
    && OutcomeOf(job, w.batches[j].response.value) == Malformed
    && (w.pc.Idle? || w.pc.i <= j)
  }

  lemma WedgedStep(job: Job, w: World, e: Event, j: nat)
    requires Inv(job, w) && Wedged(job, w, j)
    ensures Wedged(job, Step(job, w, e), j) && Step(job, w, e).batches[j] == w.batches[j]
  {
    hide EnrichedBatch, ParseResponseText;
    if w.pc.Read? {
      SavedResponseParsesTheSame(job.fl, w.pc.text);
    }
  }

  /** Then no run ever gets past that batch, so none finishes. */
  lemma {:induction false} WedgedForever(job: Job, w: World, events: seq<Event>, j: nat)
    requires Inv(job, w) && Wedged(job, w, j)
    ensures Wedged(job, Run(job, w, events), j) && Run(job, w, events).batches[j] == w.batches[j]
    ensures Run(job, w, events).pc != Look(|w.batches|)
    decreases |events|
  {
    hide Inv, Step;
    if events != [] {
      WedgedStep(job, w, events[0], j);
      StepKeepsInv(job, w, events[0]);
      WedgedForever(job, Step(job, w, events[0]), events[1..], j);
    }
  }

  // ----- a response that is no answer -----

  /** The batch's first saved response was rejected, and it has a new one with its parsed and enriched files. */
  ghost predicate Recovered(job: Job, rows: seq<Row>, b: Batch, b': Batch, text: string, a: Answer) {
    && b'.invalid == b.response && b'.rejected == b.rejected + 1 && b'.sent == b.sent + 1 && b'.lost == b.lost
    && b'.response == Some(text + "\n") && b'.parsed == Some(a) && b'.enriched == Some(EnrichedBatch(rows, a))
  }

  /** The program is at batch `i`, which has a saved response but no parsed file yet. */
  predicate Resumes(job: Job, w: World, i: nat) {
    && i < |w.batches| == |job.rows| && w.pc == Look(i)
    && w.batches[i].parsed.None? && w.batches[i].response.Some?
  }

  /**
   An unparseable saved response becomes the invalid file, no response file is left, and the program goes on to ask
   again; nothing else changes.
   */
  lemma RejectedIsAskedAgain(job: Job, w: World, i: nat, r: Option<string>)
    requires Resumes(job, w, i) && OutcomeOf(job, w.batches[i].response.value) == Unparseable
    ensures var w' := Step(job, w, Tick(r));
            && w'.pc == Ask(i) && |w'.batches| == |w.batches|
            && w'.batches[i].invalid == w.batches[i].response && w'.batches[i].response == None
            && w'.batches[i].rejected == w.batches[i].rejected + 1
            && w'.batches[i].parsed == None && w'.batches[i].enriched == w.batches[i].enriched
            && w'.batches[i].sent == w.batches[i].sent && w'.batches[i].lost == w.batches[i].lost
            && forall j | 0 <= j < |w.batches| && j != i :: w'.batches[j] == w.batches[j]
  {
    hide Step, OutcomeOf;
    LookSteps(job, w, i, r);
  }

  /** That happens to every saved response without an opening brace. */
  lemma NoBraceIsAskedAgain(job: Job, w: World, i: nat, r: Option<string>)
    requires Resumes(job, w, i) && '{' !in w.batches[i].response.value
    ensures var w' := Step(job, w, Tick(r));
            && w'.pc == Ask(i) && w'.batches[i].invalid == w.batches[i].response && w'.batches[i].response == None
  {
    hide Step, ParseResponseText;
    NoBraceIsUnparseable(job.fl, w.batches[i].response.value);
    RejectedIsAskedAgain(job, w, i, r);
  }

  /** With a parseable reply to that request, six steps complete the batch and lead to the next. */
  lemma RejectedThenRecovered(job: Job, w: World, i: nat, text: string, a: Answer)
    requires Resumes(job, w, i) && OutcomeOf(job, w.batches[i].response.value) == Unparseable
    requires OutcomeOf(job, text) == Parsed(a)
    ensures var reply := Tick(Some(text));
            var w' := Run(job, w, [reply, reply, reply, reply, reply, reply]);
            && w'.pc == Look(i + 1) && |w'.batches| == |w.batches|
            && Recovered(job, job.rows[i], w.batches[i], w'.batches[i], text, a)
            && forall j | 0 <= j < |w.batches| && j != i :: w'.batches[j] == w.batches[j]
  {
    hide Step, Run, OutcomeOf, EnrichedBatch;
    var r, reply := Some(text), Tick(Some(text));
    var w1 := Step(job, w, reply);
    LookSteps(job, w, i, r);
    AskSteps(job, w1.batches, i, r);
    var w2 := Step(job, w1, reply);
    SaveSteps(job, w2.batches, i, text, r);
    var w3 := Step(job, w2, reply);
    ReadSteps(job, w3.batches, i, text, r);
    var w4 := Step(job, w3, reply);
    StoreSteps(job, w4.batches, i, a, r);
    var w5 := Step(job, w4, reply);
    StoreSteps(job, w5.batches, i, a, r);
    assert [reply, reply, reply, reply, reply, reply] == [reply] + [reply, reply, reply, reply, reply];
    RunFirst(job, w, reply, [reply, reply, reply, reply, reply]);
    RunFive(job, w1, reply, reply, reply, reply, reply);
  }

  /** A reply that cannot be parsed stops the run, but only once it is saved, so the next run finds it. */
  lemma OtherReplyStops(job: Job, w: World, i: nat, text: string)
    requires i < |w.batches| == |job.rows| && w.pc == Ask(i) && !OutcomeOf(job, text).Parsed?
    ensures var reply := Tick(Some(text));
            var w' := Run(job, w, [reply, reply, reply]);
            && w'.pc == Idle
            && w'.batches == w.batches[i := w.batches[i].(response := Some(text + "\n"), sent := w.batches[i].sent + 1)]
  {
    hide Step, Run, OutcomeOf;
    var r, reply := Some(text), Tick(Some(text));
    AskSteps(job, w.batches, i, r);
    var w1 := Step(job, w, reply);
    SaveSteps(job, w1.batches, i, text, r);
    var w2 := Step(job, w1, reply);
    ReadSteps(job, w2.batches, i, text, r);
    var w3 := Step(job, w2, reply);
    assert w == World(w.batches, Ask(i));
    assert [reply, reply, reply] == [reply] + ([reply] + ([reply] + []));
    RunFirst(job, w, reply, [reply] + ([reply] + []));
    RunFirst(job, w1, reply, [reply] + []);
    RunFirst(job, w2, reply, []);
    RunNothing(job, w3);
  }

  // ----- runs that are left alone finish -----

  /** The number of steps a run needs at most from here to the end of its loop. */
  function Work(w: World): nat
    requires !w.pc.Idle? && w.pc.i <= |w.batches|
  {
    6 * (|w.batches| - w.pc.i) +
    match w.pc
    case Look(_) => 5
    case Ask(_) => 4
    case Save(_, _) => 3
    case Read(_, _) => 2
    case StoreParsed(_, _) => 1
    case StoreEnriched(_, _) => 0
  }

  /** A step that does not stop the run brings it nearer to its end. */
  lemma StepShrinks(job: Job, w: World, r: Option<string>)
    requires !w.pc.Idle? && w.pc.i <= |w.batches| && w.pc != Look(|w.batches|)
    ensures var w' := Step(job, w, Tick(r));
            |w'.batches| == |w.batches| && (!w'.pc.Idle? ==> w'.pc.i <= |w'.batches| && Work(w') < Work(w))
  {
    hide EnrichedBatch, OutcomeOf;
  }

  /** What a run comes to that is not killed, when `reply(k)` is what comes of its k-th request. */
  function RunAlone(job: Job, w: World, reply: nat -> Option<string>, asked: nat): World
    requires !w.pc.Idle? ==> w.pc.i <= |w.batches|
    decreases if w.pc.Idle? then 0 else 1 + Work(w)
  {
    if w.pc.Idle? || w.pc == Look(|w.batches|) then w
    else
      var r := if w.pc.Ask? then reply(asked) else None;
      StepShrinks(job, w, r);
      RunAlone(job, Step(job, w, Tick(r)), reply, if w.pc.Ask? then asked + 1 else asked)
  }

  /** It is a run of the step relation without kills, so a killed run leaves what a prefix of its steps leads to. */
  lemma {:induction false} AloneIsARun(
    job: Job, w: World, reply: nat -> Option<string>, asked: nat) returns (events: seq<Event>)
    requires !w.pc.Idle? ==> w.pc.i <= |w.batches|
    ensures forall k | 0 <= k < |events| :: events[k].Tick?
    ensures Run(job, w, events) == RunAlone(job, w, reply, asked)
    decreases if w.pc.Idle? then 0 else 1 + Work(w)
  {
    hide Step;
    if w.pc.Idle? || w.pc == Look(|w.batches|) {
      events := [];
    } else {
      var r := if w.pc.Ask? then reply(asked) else None;
      StepShrinks(job, w, r);
      var rest := AloneIsARun(job, Step(job, w, Tick(r)), reply, if w.pc.Ask? then asked + 1 else asked);
      events := [Tick(r)] + rest;
      assert events[1..] == rest;
    }
  }

  /** No saved response, and no reply in memory, is anything but parseable or unparseable text. */
  predicate Unjammed(job: Job, w: World) {
    && (forall j | 0 <= j < |w.batches| && w.batches[j].response.Some? ::
       OutcomeOf(job, w.batches[j].response.value) != Malformed)
    && (w.pc.Save? || w.pc.Read? ==> OutcomeOf(job, w.pc.text).Parsed?)
  }

  lemma UnjammedStep(job: Job, w: World, r: Option<string>)
    requires Inv(job, w) && Unjammed(job, w) && !w.pc.Idle? && w.pc != Look(|w.batches|)
    requires w.pc.Ask? ==> r.Some? && OutcomeOf(job, r.value).Parsed?
    ensures Unjammed(job, Step(job, w, Tick(r))) && !Step(job, w, Tick(r)).pc.Idle?
  {
    hide EnrichedBatch, ParseResponseText, FilesAgree;
    assert w.pc.i < |w.batches|;
    if w.pc.Save? {
      SavedResponseParsesTheSame(job.fl, w.pc.text);
    }
  }

  lemma WithinBatches(job: Job, w: World)
    requires Inv(job, w)
    ensures |w.batches| == |job.rows| && (!w.pc.Idle? ==> w.pc.i <= |w.batches|)
    ensures w.pc == Look(|job.rows|) ==> forall j | 0 <= j < |w.batches| :: Complete(w.batches[j])
  {
  }

  /** A run that is not killed, meets no response of the wrong shape, and gets parseable replies finishes everything. */
  lemma {:induction false} UndisturbedRunFinishes(job: Job, w: World, reply: nat -> Option<string>, asked: nat)
    requires Inv(job, w) && Unjammed(job, w) && !w.pc.Idle? && w.pc.i <= |w.batches|
    requires forall k :: reply(k).Some? && OutcomeOf(job, reply(k).value).Parsed?
    ensures var after := RunAlone(job, w, reply, asked);
            && after.pc == Look(|job.rows|)
            && |after.batches| == |job.rows| && forall j | 0 <= j < |after.batches| :: Complete(after.batches[j])
    decreases Work(w)
  {
    hide Step, Unjammed, Inv, OutcomeOf;
    WithinBatches(job, w);
    if w.pc != Look(|w.batches|) {
      var r := if w.pc.Ask? then reply(asked) else None;
      UnjammedStep(job, w, r);
      StepKeepsInv(job, w, Tick(r));
      StepShrinks(job, w, r);
      UndisturbedRunFinishes(job, Step(job, w, Tick(r)), reply, if w.pc.Ask? then asked + 1 else asked);
    }
  }

  /** With parseable replies, a run finishes if and only if no saved response has the wrong shape. */
  lemma FinishesExactly(job: Job, batches: seq<Batch>, reply: nat -> Option<string>)
    requires Inv(job, World(batches, Look(0)))
    requires forall k :: reply(k).Some? && OutcomeOf(job, reply(k).value).Parsed?
    ensures RunAlone(job, World(batches, Look(0)), reply, 0).pc == Look(|job.rows|) <==>
            forall j | 0 <= j < |batches| && batches[j].response.Some? ::
              OutcomeOf(job, batches[j].response.value) != Malformed
  {
    hide RunAlone, Inv, OutcomeOf;
    var w := World(batches, Look(0));
    WithinBatches(job, w);
    if j :| 0 <= j < |batches| && batches[j].response.Some? && OutcomeOf(job, batches[j].response.value) == Malformed {
      var events := AloneIsARun(job, w, reply, 0);
      WedgedForever(job, w, events, j);
    } else {
      UndisturbedRunFinishes(job, w, reply, 0);
    }
  }

  /** One reply of the wrong shape is enough, and there are such replies. */
  lemma OneReplyWedges(job: Job)
    requires job.rows != []
    ensures var events := [Tick(None), Tick(None), Tick(Some("{\"clusters\":5}")), Tick(None), Tick(None)];
            var once := Run(job, Fresh(job), events);
            Inv(job, once) && Wedged(job, once, 0)
  {
    var text := "{\"clusters\":5}";
    NumberOfClustersIsMalformed(job.fl);
    SavedResponseParsesTheSame(job.fl, text);
    FreshInv(job);
    InvAlways(job, Fresh(job), [Tick(None), Tick(None), Tick(Some(text)), Tick(None), Tick(None)]);
    OneRequest(job, text);
  }

  lemma OneRequest(job: Job, text: string)
    requires job.rows != [] && OutcomeOf(job, text) == Malformed && OutcomeOf(job, text + "\n") == Malformed
    ensures Wedged(job, Run(job, Fresh(job), [Tick(None), Tick(None), Tick(Some(text)), Tick(None), Tick(None)]), 0)
  {
    hide ParseResponseText, EnrichedBatch;
    var w0 := Fresh(job);
    var w1 := Step(job, w0, Tick(None));
    var w2 := Step(job, w1, Tick(None));
    var w3 := Step(job, w2, Tick(Some(text)));
    var w4 := Step(job, w3, Tick(None));
    var w5 := Step(job, w4, Tick(None));
    assert w5.pc.Idle? && w5.batches[0].response == Some(text + "\n");
    RunFive(job, w0, Tick(None), Tick(None), Tick(Some(text)), Tick(None), Tick(None));
  }

  lemma RunFive(job: Job, w: World, a: Event, b: Event, c: Event, d: Event, e: Event)
    ensures Run(job, w, [a, b, c, d, e]) == Step(job, Step(job, Step(job, Step(job, Step(job, w, a), b), c), d), e)
  {
    hide Step, Run;
    assert [a, b, c, d, e] == [a] + ([b] + ([c] + ([d] + ([e] + []))));
    RunFirst(job, w, a, [b] + ([c] + ([d] + ([e] + []))));
    var w1 := Step(job, w, a);
    RunFirst(job, w1, b, [c] + ([d] + ([e] + [])));
    var w2 := Step(job, w1, b);
    RunFirst(job, w2, c, [d] + ([e] + []));
    var w3 := Step(job, w2, c);
    RunFirst(job, w3, d, [e] + []);
    RunFirst(job, Step(job, w3, d), e, []);
    RunNothing(job, Step(job, Step(job, w3, d), e));
  }

  lemma RunFirst(job: Job, w: World, e: Event, rest: seq<Event>)
    ensures Run(job, w, [e] + rest) == Run(job, Step(job, w, e), rest)
  {
    hide Step;
    assert ([e] + rest)[1..] == rest;
  }

  lemma RunNothing(job: Job, w: World)
    ensures Run(job, w, []) == w
  {
  }

  // ----- the program itself -----

  /** The output directory and the loop over it. */
  class OutputDir {
    var batches: seq<Batch>

    /** One run that is not killed: its writes are those of the step relation, and it ends where that ends. */
    method RunBatches(job: Job, reply: nat -> Option<string>) returns (finished: bool)
      requires |batches| == |job.rows|
      modifies this
      ensures |batches| == |job.rows|
      ensures World(batches, if finished then Look(|job.rows|) else Idle) ==
              RunAlone(job, World(old(batches), Look(0)), reply, 0)
    {
      hide Step, LookAt, OutcomeOf, SavedOutcome, EnrichedBatch, RunAlone, Work;
      var asked: nat := 0;
      for i := 0 to |batches|
        invariant |batches| == |job.rows|
        invariant RunAlone(job, World(old(batches), Look(0)), reply, 0) ==
                  RunAlone(job, World(batches, Look(i)), reply, asked)
      {
        var b := batches[i];
        AloneLooks(job, batches, i, reply, asked);
        if b.parsed.Some? {
          if b.enriched.None? {
            var enriched := EnrichBatchResult(job.rows[i], b.parsed.value);
            AloneEnriches(job, batches, i, b.parsed.value, reply, asked);
            batches := batches[i := b.(enriched := Some(enriched))];
          }
          continue;
        }
        if b.response.Some? {
          match SavedOutcome(job, b.response.value)
          case Parsed(a) =>
            AloneWrites(job, batches, i, a, reply, asked);
            WriteBoth(job, i, a);
            continue;
          case Unparseable =>
            batches := batches[i := b.(response := None, invalid := b.response, rejected := b.rejected + 1)];
          case Malformed =>
            AloneStops(job, batches, reply, asked);
            return false;
        }
        var r := reply(asked);
        AloneAsks(job, batches, i, reply, asked);
        asked := asked + 1;
        b := batches[i];
        if r.None? {
          batches := batches[i := b.(sent := b.sent + 1, lost := b.lost + 1)];
          AloneStops(job, batches, reply, asked);
          return false;
        }
        batches := batches[i := b.(sent := b.sent + 1)];
        AloneSaves(job, batches, i, r.value, reply, asked);
        batches := batches[i := batches[i].(response := Some(r.value + "\n"))];
        match OutcomeOf(job, r.value)
        case Parsed(a) =>
          AloneWrites(job, batches, i, a, reply, asked);
          WriteBoth(job, i, a);
        case _ =>
          AloneStops(job, batches, reply, asked);
          return false;
      }
      AloneStops(job, batches, reply, asked);
      finished := true;
    }

    /** Writes the parsed file, then the enriched file. */
    method WriteBoth(job: Job, i: nat, a: Answer)
      requires |batches| == |job.rows| && i < |batches|
      modifies this
      ensures batches ==
              old(batches)[i := old(batches)[i].(parsed := Some(a), enriched := Some(EnrichedBatch(job.rows[i], a)))]
    {
      hide EnrichedBatch;
      batches := batches[i := batches[i].(parsed := Some(a))];
      var enriched := EnrichBatchResult(job.rows[i], a);
      batches := batches[i := batches[i].(enriched := Some(enriched))];
    }
  }

  lemma AloneNext(job: Job, w: World, reply: nat -> Option<string>, asked: nat)
    requires !w.pc.Idle? && w.pc.i <= |w.batches| && w.pc != Look(|w.batches|)
    ensures var w' := Step(job, w, Tick(if w.pc.Ask? then reply(asked) else None));
            && (!w'.pc.Idle? ==> w'.pc.i <= |w'.batches|)
            && RunAlone(job, w, reply, asked) == RunAlone(job, w', reply, if w.pc.Ask? then asked + 1 else asked)
  {
    hide Step;
    StepShrinks(job, w, if w.pc.Ask? then reply(asked) else None);
  }

  lemma AloneStops(job: Job, batches: seq<Batch>, reply: nat -> Option<string>, asked: nat)
    ensures RunAlone(job, World(batches, Idle), reply, asked) == World(batches, Idle)
    ensures RunAlone(job, World(batches, Look(|batches|)), reply, asked) == World(batches, Look(|batches|))
  {
  }

  lemma AloneLooks(job: Job, batches: seq<Batch>, i: nat, reply: nat -> Option<string>, asked: nat)
    requires i < |batches| == |job.rows|
    ensures var b := batches[i];
            RunAlone(job, World(batches, Look(i)), reply, asked) ==
            if b.parsed.Some? then
              var next := if b.enriched.None? then StoreEnriched(i, b.parsed.value) else Look(i + 1);
              RunAlone(job, World(batches, next), reply, asked)
            else if b.response.None? then RunAlone(job, World(batches, Ask(i)), reply, asked)
            else match SavedOutcome(job, b.response.value)
              case Parsed(a) => RunAlone(job, World(batches, StoreParsed(i, a)), reply, asked)
              case Unparseable =>
                var quarantined := b.(response := None, invalid := b.response, rejected := b.rejected + 1);
                RunAlone(job, World(batches[i := quarantined], Ask(i)), reply, asked)
              case Malformed => RunAlone(job, World(batches, Idle), reply, asked)
  {
    hide RunAlone, Step, OutcomeOf;
    LookSteps(job, World(batches, Look(i)), i, None);
    AloneNext(job, World(batches, Look(i)), reply, asked);
  }

  lemma AloneEnriches(job: Job, batches: seq<Batch>, i: nat, a: Answer, reply: nat -> Option<string>, asked: nat)
    requires i < |batches| == |job.rows|
    ensures RunAlone(job, World(batches, StoreEnriched(i, a)), reply, asked) ==
            var complete := batches[i].(enriched := Some(EnrichedBatch(job.rows[i], a)));
            RunAlone(job, World(batches[i := complete], Look(i + 1)), reply, asked)
  {
    hide RunAlone, Step, EnrichedBatch;
    StoreSteps(job, batches, i, a, None);
    AloneNext(job, World(batches, StoreEnriched(i, a)), reply, asked);
  }

  lemma AloneWrites(job: Job, batches: seq<Batch>, i: nat, a: Answer, reply: nat -> Option<string>, asked: nat)
    requires i < |batches| == |job.rows|
    ensures RunAlone(job, World(batches, StoreParsed(i, a)), reply, asked) ==
            var complete := batches[i].(parsed := Some(a), enriched := Some(EnrichedBatch(job.rows[i], a)));
            RunAlone(job, World(batches[i := complete], Look(i + 1)), reply, asked)
  {
    hide RunAlone, Step, EnrichedBatch;
    StoreSteps(job, batches, i, a, None);
    AloneNext(job, World(batches, StoreParsed(i, a)), reply, asked);
    var parsed := batches[i := batches[i].(parsed := Some(a))];
    AloneEnriches(job, parsed, i, a, reply, asked);
    assert parsed[i := parsed[i].(enriched := Some(EnrichedBatch(job.rows[i], a)))] ==
           batches[i := batches[i].(parsed := Some(a), enriched := Some(EnrichedBatch(job.rows[i], a)))];
  }

  lemma AloneAsks(job: Job, batches: seq<Batch>, i: nat, reply: nat -> Option<string>, asked: nat)
    requires i < |batches| == |job.rows|
    ensures var b := batches[i];
            RunAlone(job, World(batches, Ask(i)), reply, asked) ==
            match reply(asked)
            case None =>
              RunAlone(job, World(batches[i := b.(sent := b.sent + 1, lost := b.lost + 1)], Idle), reply, asked + 1)
            case Some(text) =>
              RunAlone(job, World(batches[i := b.(sent := b.sent + 1)], Save(i, text)), reply, asked + 1)
  {
    hide RunAlone, Step;
    AskSteps(job, batches, i, reply(asked));
    AloneNext(job, World(batches, Ask(i)), reply, asked);
  }

  lemma AloneSaves(job: Job, batches: seq<Batch>, i: nat, text: string, reply: nat -> Option<string>, asked: nat)
    requires i < |batches| == |job.rows|
    ensures var saved := batches[i := batches[i].(response := Some(text + "\n"))];
            RunAlone(job, World(batches, Save(i, text)), reply, asked) ==
            match OutcomeOf(job, text)
            case Parsed(a) => RunAlone(job, World(saved, StoreParsed(i, a)), reply, asked)
            case _ => RunAlone(job, World(saved, Idle), reply, asked)
  {
    hide RunAlone, Step, OutcomeOf;
    var saved := batches[i := batches[i].(response := Some(text + "\n"))];
    SaveSteps(job, batches, i, text, None);
    AloneNext(job, World(batches, Save(i, text)), reply, asked);
    ReadSteps(job, saved, i, text, None);
    AloneNext(job, World(saved, Read(i, text)), reply, asked);
  }

  lemma LookSteps(job: Job, w: World, i: nat, r: Option<string>)
    requires i < |w.batches| == |job.rows| && w.pc == Look(i)
    ensures Step(job, w, Tick(r)) ==
            var b := w.batches[i];
            if b.parsed.Some? then w.(pc := if b.enriched.None? then StoreEnriched(i, b.parsed.value) else Look(i + 1))
            else if b.response.None? then w.(pc := Ask(i))
            else match SavedOutcome(job, b.response.value)
              case Parsed(a) => w.(pc := StoreParsed(i, a))
              case Unparseable =>
                World(w.batches[i := b.(response := None, invalid := b.response, rejected := b.rejected + 1)], Ask(i))
              case Malformed => w.(pc := Idle)
  {
    hide OutcomeOf, EnrichedBatch;
  }

  lemma StoreSteps(job: Job, batches: seq<Batch>, i: nat, a: Answer, r: Option<string>)
    requires i < |batches| == |job.rows|
    ensures Step(job, World(batches, StoreParsed(i, a)), Tick(r)) ==
            World(batches[i := batches[i].(parsed := Some(a))], StoreEnriched(i, a))
    ensures Step(job, World(batches, StoreEnriched(i, a)), Tick(r)) ==
            World(batches[i := batches[i].(enriched := Some(EnrichedBatch(job.rows[i], a)))], Look(i + 1))
  {
    hide EnrichedBatch, OutcomeOf, LookAt;
  }

  lemma AskSteps(job: Job, batches: seq<Batch>, i: nat, r: Option<string>)
    requires i < |batches| == |job.rows|
    ensures Step(job, World(batches, Ask(i)), Tick(r)) ==
            var b := batches[i];
            match r
            case None => World(batches[i := b.(sent := b.sent + 1, lost := b.lost + 1)], Idle)
            case Some(text) => World(batches[i := b.(sent := b.sent + 1)], Save(i, text))
  {
    hide EnrichedBatch, OutcomeOf, LookAt;
  }

  lemma SaveSteps(job: Job, batches: seq<Batch>, i: nat, text: string, r: Option<string>)
    requires i < |batches| == |job.rows|
    ensures Step(job, World(batches, Save(i, text)), Tick(r)) ==
            World(batches[i := batches[i].(response := Some(text + "\n"))], Read(i, text))
  {
    hide EnrichedBatch, OutcomeOf, LookAt;
  }

  lemma ReadSteps(job: Job, batches: seq<Batch>, i: nat, text: string, r: Option<string>)
    requires i < |batches| == |job.rows|
    ensures Step(job, World(batches, Read(i, text)), Tick(r)) ==
            match OutcomeOf(job, text)
            case Parsed(a) => World(batches, StoreParsed(i, a))
            case _ => World(batches, Idle)
  {
    hide EnrichedBatch, OutcomeOf, LookAt;
  }
}
