/** What the steps of a run of `pkgs clean` come to, and which endings can happen. */
module CleanRuns {
  import opened Wrappers
  import opened Clean
  import opened Filter

  // ---------- Failed fetches ----------

  /** The producer has returned an error. */
  predicate HasFailed(s: State) {
    s.prod.Closed? && s.prod.failed
  }

  lemma {:induction false} FailsByFetch(env: Env, s: State, steps: seq<Step>)
    requires CanRun(env, s, steps)
    ensures HasFailed(RunOf(env, s, steps)) <==> HasFailed(s) || FetchFail in steps
    decreases |steps|
  {
    hide Selects;
    if steps != [] {
      assert HasFailed(Next(env, s, steps[0])) <==> HasFailed(s) || steps[0] == FetchFail;
      assert steps == [steps[0]] + steps[1..];
      FailsByFetch(env, Next(env, s, steps[0]), steps[1..]);
    }
  }

  /** A run whose producer is done has failed exactly when one of its fetches did. */
  lemma FailedExactly(env: Env, clock: int, steps: seq<Step>)
    requires CanRun(env, Init(env, clock), steps)
    ensures var s := RunOf(env, Init(env, clock), steps);
            s.prod.Closed? ==> (s.prod.failed <==> FetchFail in steps)
  {
    FailsByFetch(env, Init(env, clock), steps);
  }

  // ---------- Outcomes are what the steps say ----------

  /** The outcome that a step records. */
  function Records(step: Step): Option<Outcome> {
    match step
    case DownloadFail(_) => Some(DownloadFailed)
    case DeleteFail(_) => Some(DeleteFailed)
    case Report(_) => Some(Done)
    case _ => None
  }

  function StepsRecording(steps: seq<Step>, o: Outcome): nat {
    if steps == [] then 0
    else StepsRecording(steps[1..], o) + if Records(steps[0]) == Some(o) then 1 else 0
  }

  function With(outcome: map<Id, Outcome>, o: Outcome): set<Id> {
    set id | id in outcome && outcome[id] == o
  }

  lemma WithMore(outcome: map<Id, Outcome>, id: Id, p: Outcome, o: Outcome)
    requires id !in outcome
    ensures |With(outcome[id := p], o)| == |With(outcome, o)| + if o == p then 1 else 0
  {
    assert With(outcome[id := p], o) == With(outcome, o) + if o == p then {id} else {};
  }

  lemma StepRecords(env: Env, s: State, step: Step, o: Outcome)
    requires Inv(env, s) && Enabled(env, s, step)
    ensures |With(Next(env, s, step).outcome, o)| == |With(s.outcome, o)| + if Records(step) == Some(o) then 1 else 0
  {
    hide Selects, With, ExaminedInv, TakenInv, DeletedInv, CountersInv;
    match step
    case DownloadFail(w) =>
      SoleHolder(env, s.workers, s.takenBy, s.outcome, w, s.workers[w].id);
      WithMore(s.outcome, s.workers[w].id, DownloadFailed, o);
    case DeleteFail(w) =>
      SoleHolder(env, s.workers, s.takenBy, s.outcome, w, s.workers[w].id);
      WithMore(s.outcome, s.workers[w].id, DeleteFailed, o);
    case Report(w) =>
      SoleHolder(env, s.workers, s.takenBy, s.outcome, w, s.workers[w].id);
      WithMore(s.outcome, s.workers[w].id, Done, o);
    case _ =>
  }

  lemma {:induction false} RunRecords(env: Env, s: State, steps: seq<Step>, o: Outcome)
    requires Inv(env, s) && CanRun(env, s, steps)
    ensures |With(RunOf(env, s, steps).outcome, o)| == |With(s.outcome, o)| + StepsRecording(steps, o)
    decreases |steps|
  {
    hide Inv, Next, Enabled, With, Records;
    if steps != [] {
      StepRecords(env, s, steps[0], o);
      NextInv(env, s, steps[0]);
      RunRecords(env, Next(env, s, steps[0]), steps[1..], o);
    }
  }

  /** Over every run, as many packages failed to download, failed to be deleted or were done as there were steps
      that say so. */
  lemma OutcomesCounted(env: Env, clock: int, steps: seq<Step>, o: Outcome)
    requires CanRun(env, Init(env, clock), steps)
    ensures |With(RunOf(env, Init(env, clock), steps).outcome, o)| == StepsRecording(steps, o)
  {
    hide Inv, CanRun, RunOf;
    InitInv(env, clock);
    RunRecords(env, Init(env, clock), steps, o);
    assert With(map[], o) == {};
  }

  // ---------- Every ending can happen ----------

  /** What can come of a package: downloads fail only when backing up, deletions only when deleting. */
  predicate CanEnd(env: Env, o: Outcome) {
    (o == DownloadFailed ==> env.backup) && (o == DeleteFailed ==> env.delete)
  }

  /** So far every package fares as `fate` says. */
  ghost predicate Fated(s: State, fate: Id -> Outcome) {
    && (forall id | id in s.outcome :: s.outcome[id] == fate(id))
    && (forall w | 0 <= w < |s.workers| :: OnCourse(s.workers[w], fate))
  }

  predicate OnCourse(w: Worker, fate: Id -> Outcome) {
    match w
    case Deleting(id) => fate(id) != DownloadFailed
    case Reporting(id) => fate(id) == Done
    case _ => true
  }

  predicate Busy(w: Worker) {
    w.Downloading? || w.Deleting? || w.Reporting?
  }

  /** The step of a busy worker that leads to its package's fate. */
  function FatedStep(w: nat, x: Worker, fate: Id -> Outcome): Step
    requires Busy(x)
  {
    match x
    case Downloading(id) => if fate(id) == DownloadFailed then DownloadFail(w) else DownloadOk(w)
    case Deleting(id) => if fate(id) == DeleteFailed then DeleteFail(w) else DeleteOk(w)
    case Reporting(_) => Report(w)
  }

  /** A step of a busy worker is the one that leads to its package's fate. */
  predicate Leads(s: State, step: Step, fate: Id -> Outcome) {
    step.DownloadOk? || step.DownloadFail? || step.DeleteOk? || step.DeleteFail? ==>
      step.w < |s.workers| && Busy(s.workers[step.w]) && step == FatedStep(step.w, s.workers[step.w], fate)
  }

  /** A step that can be taken, fails no fetch, and leads to the fates. */
  lemma StepOn(env: Env, s: State, fate: Id -> Outcome) returns (step: Step)
    requires ProducerInv(env, s) && ExitedInv(s) && |s.workers| == env.workers > 0 && env.pages != []
    requires !Final(s)
    ensures Enabled(env, s, step) && step != FetchFail && Leads(s, step, fate)
  {
    hide Selects;
    if w :| 0 <= w < |s.workers| && Busy(s.workers[w]) {
      step := FatedStep(w, s.workers[w], fate);
    } else if s.prod.Closed? {
      var v :| 0 <= v < |s.workers| && s.workers[v].Idle?;
      step := Exit(v);
    } else {
      assert !Busy(s.workers[0]);
      step := if s.prod.Fetch? then FetchOk
              else if s.prod.Count? then CountSent
              else if s.prod.Send? then Handoff(0)
              else if s.prod.pos == |env.pages[s.prod.page]| then EndPage
              else Examine(s.clock);
    }
  }

  lemma StaysFated(env: Env, s: State, step: Step, fate: Id -> Outcome)
    requires Enabled(env, s, step) && Leads(s, step, fate)
    requires Fated(s, fate) && forall id :: CanEnd(env, fate(id))
    ensures Fated(Next(env, s, step), fate)
  {
    hide Selects, CanEnd;
    var t := Next(env, s, step);
    match step {
      case Handoff(w) => assert CanEnd(env, fate(s.prod.id)); AfterReceiveOnCourse(env, s.prod.id, fate);
      case DownloadOk(w) => AfterDownloadOnCourse(env, s.workers[w].id, fate);
      case DeleteOk(w) => assert OnCourse(s.workers[w], fate);
      case Report(w) => assert OnCourse(s.workers[w], fate);
      case _ =>
    }
  }

  lemma AfterDownloadOnCourse(env: Env, id: Id, fate: Id -> Outcome)
    requires CanEnd(env, fate(id)) && fate(id) != DownloadFailed
    ensures OnCourse(AfterDownload(env, id), fate)
  {
  }

  lemma AfterReceiveOnCourse(env: Env, id: Id, fate: Id -> Outcome)
    requires CanEnd(env, fate(id))
    ensures OnCourse(AfterReceive(env, id), fate)
  {
  }

  lemma {:induction false} RunOn(env: Env, s: State, fate: Id -> Outcome) returns (steps: seq<Step>)
    requires Inv(env, s) && env.workers > 0 && env.pages != []
    requires Fated(s, fate) && forall id :: CanEnd(env, fate(id))
    ensures CanRun(env, s, steps) && FetchFail !in steps
    ensures Final(RunOf(env, s, steps)) && Fated(RunOf(env, s, steps), fate)
    decreases Measure(env, s)
  {
    hide Next, Enabled, Measure, Fated, Final, CanEnd, Leads, ExaminedInv, DeletedInv, CountersInv;
    steps := [];
    if !Final(s) {
      var step := StepOn(env, s, fate);
      StaysFated(env, s, step, fate);
      MeasureNatural(env, s);
      MeasureDecreases(env, s, step);
      NextInv(env, s, step);
      MeasureNatural(env, Next(env, s, step));
      var rest := RunOn(env, Next(env, s, step), fate);
      steps := [step] + rest;
      assert steps[1..] == rest;
    }
  }

  /** With a worker and a page, and whatever is to become of each package, some run ends that way: no fetch
      failed, every package was examined, and each selected one has the outcome it was to have. */
  lemma EveryEndingHappens(env: Env, clock: int, fate: Id -> Outcome) returns (steps: seq<Step>)
    requires env.workers > 0 && env.pages != []
    requires forall id :: CanEnd(env, fate(id))
    ensures CanRun(env, Init(env, clock), steps)
    ensures var s := RunOf(env, Init(env, clock), steps);
            && Final(s) && !s.prod.failed
            && (forall id :: id in s.examined <==> InRange(env, id))
            && (forall id :: id in s.outcome <==> id in s.examined && s.examined[id].selected)
            && (forall id | id in s.outcome :: s.outcome[id] == fate(id))
  {
    hide Inv, Next, Enabled, CanEnd, OnCourse, CanRun, RunOf;
    InitInv(env, clock);
    StartsFated(env, clock, fate);
    steps := RunOn(env, Init(env, clock), fate);
    FailedExactly(env, clock, steps);
    FinalAccount(env, RunOf(env, Init(env, clock), steps));
  }

  lemma StartsFated(env: Env, clock: int, fate: Id -> Outcome)
    ensures Fated(Init(env, clock), fate)
  {
  }
}
