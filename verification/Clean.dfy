/** `pkgs clean` as a concurrent protocol: one producer that fetches pages and sends the selected
    packages over an unbuffered channel, and a pool of workers that back up and then delete them.
    Fetches, downloads and deletions may each fail. A run is any interleaving of single steps. */
module Clean {
  import opened Packages
  import opened Plan
  import opened Tracks
  import opened Semver
  import opened Filter

  /** What stays fixed during a run. Packages are named by page and position, so that two
      identical packages stay apart. */
  datatype Env = Env(cfg: PkgConfig, pages: seq<seq<Package>>, workers: nat, backup: bool, delete: bool)

  datatype Id = Id(page: nat, pos: nat)

  /** The producer is about to fetch a page, is at a position of a page, blocks in a send, has just
      handed a package over, or has closed the channel (after an error, or with all pages read). */
  datatype Producer =
    | Fetch(page: nat)
    | Scan(page: nat, pos: nat)
    | Send(id: Id)
    | Count(id: Id)
    | Closed(page: nat, failed: bool)

  datatype Worker = Idle | Downloading(id: Id) | Deleting(id: Id) | Reporting(id: Id) | Exited

  datatype Exam = Exam(at: int, selected: bool)

  datatype Outcome = Done | DownloadFailed | DeleteFailed

  /** `total`, `filtered` and `progress` are the program's counters; the last five fields record
      what has happened to each package. */
  datatype State = State(
    prod: Producer, workers: seq<Worker>, clock: int,
    total: nat, filtered: nat, progress: nat,
    examined: map<Id, Exam>, takenBy: map<Id, nat>, downloaded: set<Id>, deleted: set<Id>, outcome: map<Id, Outcome>)

  predicate InRange(env: Env, id: Id) {
    id.page < |env.pages| && id.pos < |env.pages[id.page]|
  }

  function ItemAt(env: Env, id: Id): Package
    requires InRange(env, id)
  {
    env.pages[id.page][id.pos]
  }

  // ---------- Steps ----------

  datatype Step =
    | FetchOk | FetchFail | EndPage
    | Examine(now: int)
    | Handoff(w: nat)
    | CountSent
    | DownloadOk(w: nat) | DownloadFail(w: nat)
    | DeleteOk(w: nat) | DeleteFail(w: nat)
    | Report(w: nat)
    | Exit(w: nat)

  predicate Enabled(env: Env, s: State, step: Step) {
    match step
    case FetchOk => s.prod.Fetch? && s.prod.page < |env.pages|
    case FetchFail => s.prod.Fetch?
    case EndPage => s.prod.Scan? && s.prod.page < |env.pages| && s.prod.pos == |env.pages[s.prod.page]|
    case Examine(now) => s.prod.Scan? && InRange(env, Id(s.prod.page, s.prod.pos)) && s.clock <= now
    case Handoff(w) => s.prod.Send? && w < |s.workers| && s.workers[w].Idle?
    case CountSent => s.prod.Count?
    case DownloadOk(w) => w < |s.workers| && s.workers[w].Downloading?
    case DownloadFail(w) => w < |s.workers| && s.workers[w].Downloading?
    case DeleteOk(w) => w < |s.workers| && s.workers[w].Deleting?
    case DeleteFail(w) => w < |s.workers| && s.workers[w].Deleting?
    case Report(w) => w < |s.workers| && s.workers[w].Reporting?
    case Exit(w) => w < |s.workers| && s.workers[w].Idle? && s.prod.Closed?
  }

  function AfterDownload(env: Env, id: Id): Worker {
    if env.delete then Deleting(id) else Reporting(id)
  }

  function AfterReceive(env: Env, id: Id): Worker {
    if env.backup then Downloading(id) else AfterDownload(env, id)
  }

  function Next(env: Env, s: State, step: Step): State
    requires Enabled(env, s, step)
  {
    match step
    case FetchOk => s.(prod := Scan(s.prod.page, 0))
    case FetchFail => s.(prod := Closed(s.prod.page, true))
    case EndPage =>
      var next := s.prod.page + 1;
      s.(prod := if next < |env.pages| then Fetch(next) else Closed(next, false))
    case Examine(now) =>
      var id := Id(s.prod.page, s.prod.pos);
      var selected := Selects(env.cfg, ItemAt(env, id), now);
      s.(prod := if selected then Send(id) else Scan(id.page, id.pos + 1),
         clock := now, total := s.total + 1, examined := s.examined[id := Exam(now, selected)])
    case Handoff(w) =>
      var id := s.prod.id;
      s.(prod := Count(id), workers := s.workers[w := AfterReceive(env, id)], takenBy := s.takenBy[id := w])
    case CountSent =>
      s.(prod := Scan(s.prod.id.page, s.prod.id.pos + 1), filtered := s.filtered + 1)
    case DownloadOk(w) =>
      var id := s.workers[w].id;
      s.(workers := s.workers[w := AfterDownload(env, id)], downloaded := s.downloaded + {id})
    case DownloadFail(w) =>
      s.(workers := s.workers[w := Idle], outcome := s.outcome[s.workers[w].id := DownloadFailed])
    case DeleteOk(w) =>
      var id := s.workers[w].id;
      s.(workers := s.workers[w := Reporting(id)], deleted := s.deleted + {id})
    case DeleteFail(w) =>
      s.(workers := s.workers[w := Idle], outcome := s.outcome[s.workers[w].id := DeleteFailed])
    case Report(w) =>
      s.(workers := s.workers[w := Idle], progress := s.progress + 1, outcome := s.outcome[s.workers[w].id := Done])
    case Exit(w) => s.(workers := s.workers[w := Exited])
  }

  function Init(env: Env, clock: int): State {
    State(Fetch(0), seq(env.workers, _ => Idle), clock, 0, 0, 0, map[], map[], {}, {}, map[])
  }

  /** `steps` can be taken one after the other from `s`. */
  ghost predicate CanRun(env: Env, s: State, steps: seq<Step>)
    decreases |steps|
  {
    steps == [] || (Enabled(env, s, steps[0]) && CanRun(env, Next(env, s, steps[0]), steps[1..]))
  }

  ghost function RunOf(env: Env, s: State, steps: seq<Step>): State
    requires CanRun(env, s, steps)
    decreases |steps|
  {
    if steps == [] then s else RunOf(env, Next(env, s, steps[0]), steps[1..])
  }

  /** Some interleaving leads from the start to `s`. */
  ghost predicate Reachable(env: Env, s: State) {
    exists clock, steps :: CanRun(env, Init(env, clock), steps) && RunOf(env, Init(env, clock), steps) == s
  }

  // ---------- The invariant ----------

  /** The producer has got past `id`. */
  predicate Passed(prod: Producer, id: Id) {
    match prod
    case Fetch(p) => id.page < p
    case Scan(p, i) => id.page < p || (id.page == p && id.pos < i)
    case Send(at) => id.page < at.page || (id.page == at.page && id.pos <= at.pos)
    case Count(at) => id.page < at.page || (id.page == at.page && id.pos <= at.pos)
    case Closed(p, _) => id.page < p
  }

  predicate ProducerInv(env: Env, s: State) {
    match s.prod
    case Fetch(p) => p < |env.pages| || p == 0
    case Scan(p, i) => p < |env.pages| && i <= |env.pages[p]|
    case Send(id) => InRange(env, id) && id in s.examined && s.examined[id].selected && id !in s.takenBy
    case Count(id) => InRange(env, id) && id in s.takenBy
    case Closed(p, failed) => failed || p == |env.pages|
  }

  /** Exactly the packages the producer has passed were examined, each against the filter at some
      moment not later than now; those selected have been taken, but for one that waits in a send. */
  ghost predicate ExaminedInv(env: Env, prod: Producer, clock: int, examined: map<Id, Exam>, takenBy: map<Id, nat>) {
    && (forall id :: id in examined <==> InRange(env, id) && Passed(prod, id))
    && (forall id | id in examined :: ExamOk(env, clock, id, examined[id]))
    && (forall id | id in examined && examined[id].selected :: id in takenBy || prod == Send(id))
    && (forall id | id in takenBy :: id in examined && examined[id].selected)
  }

  predicate ExamOk(env: Env, clock: int, id: Id, exam: Exam) {
    InRange(env, id) && exam.at <= clock && exam.selected == Selects(env.cfg, ItemAt(env, id), exam.at)
  }

  predicate Holds(w: Worker, id: Id) {
    (w.Downloading? || w.Deleting? || w.Reporting?) && w.id == id
  }

  /** Each taken package is with the worker that took it, or has one outcome, never both. */
  ghost predicate TakenInv(env: Env, workers: seq<Worker>, takenBy: map<Id, nat>, outcome: map<Id, Outcome>) {
    && |workers| == env.workers
    && (forall id | id in takenBy :: takenBy[id] < env.workers && (id in outcome <==> !Holds(workers[takenBy[id]], id)))
    && (forall w, id | 0 <= w < env.workers && Holds(workers[w], id) :: id in takenBy && takenBy[id] == w)
    && (forall id | id in outcome :: id in takenBy)
  }

  predicate WorkerOk(env: Env, w: Worker, downloaded: set<Id>, deleted: set<Id>) {
    match w
    case Downloading(id) => env.backup && id !in downloaded && id !in deleted
    case Deleting(id) => env.delete && (env.backup ==> id in downloaded) && id !in deleted
    case Reporting(id) => (env.backup ==> id in downloaded) && (env.delete ==> id in deleted)
    case _ => true
  }

  predicate OutcomeOk(env: Env, id: Id, o: Outcome, downloaded: set<Id>, deleted: set<Id>) {
    match o
    case Done => (env.backup ==> id in downloaded) && (env.delete ==> id in deleted)
    case DownloadFailed => env.backup && id !in downloaded && id !in deleted
    case DeleteFailed => env.delete && id !in deleted
  }

  /** A deletion is asked for, and is preceded by that package's own download when backing up. */
  ghost predicate DeletedInv(env: Env, workers: seq<Worker>, takenBy: map<Id, nat>,
                             downloaded: set<Id>, deleted: set<Id>, outcome: map<Id, Outcome>)
  {
    && (forall w | 0 <= w < |workers| :: WorkerOk(env, workers[w], downloaded, deleted))
    && (forall id | id in deleted :: env.delete && id in takenBy && (env.backup ==> id in downloaded))
    && (forall id | id in downloaded :: env.backup && id in takenBy)
    && (forall id | id in outcome :: OutcomeOk(env, id, outcome[id], downloaded, deleted))
  }

  function DoneIds(outcome: map<Id, Outcome>): set<Id> {
    set id | id in outcome && outcome[id] == Done
  }

  ghost predicate CountersInv(s: State) {
    && s.total == |s.examined|
    && s.filtered + (if s.prod.Count? then 1 else 0) == |s.takenBy|
    && s.progress == |DoneIds(s.outcome)|
  }

  /** Workers leave only once the channel is closed. */
  predicate ExitedInv(s: State) {
    s.prod.Closed? || forall w | 0 <= w < |s.workers| :: !s.workers[w].Exited?
  }

  ghost predicate Inv(env: Env, s: State) {
    && ProducerInv(env, s)
    && ExitedInv(s)
    && ExaminedInv(env, s.prod, s.clock, s.examined, s.takenBy)
    && TakenInv(env, s.workers, s.takenBy, s.outcome)
    && DeletedInv(env, s.workers, s.takenBy, s.downloaded, s.deleted, s.outcome)
    && CountersInv(s)
  }

  lemma InitInv(env: Env, clock: int)
    ensures Inv(env, Init(env, clock))
  {
    hide Selects;
    assert DoneIds(map[]) == {};
  }

  // ---------- What one step of a worker keeps ----------

  lemma TakenTake(env: Env, workers: seq<Worker>, takenBy: map<Id, nat>, outcome: map<Id, Outcome>,
                  w: nat, x: Worker, id: Id)
    requires TakenInv(env, workers, takenBy, outcome)
    requires w < |workers| && workers[w].Idle? && Holds(x, id) && id !in takenBy
    ensures TakenInv(env, workers[w := x], takenBy[id := w], outcome)
  {
  }

  lemma TakenMove(env: Env, workers: seq<Worker>, takenBy: map<Id, nat>, outcome: map<Id, Outcome>,
                  w: nat, x: Worker, id: Id)
    requires TakenInv(env, workers, takenBy, outcome)
    requires w < |workers| && Holds(workers[w], id) && Holds(x, id)
    ensures TakenInv(env, workers[w := x], takenBy, outcome)
  {
  }

  lemma TakenFinish(env: Env, workers: seq<Worker>, takenBy: map<Id, nat>, outcome: map<Id, Outcome>,
                    w: nat, id: Id, o: Outcome)
    requires TakenInv(env, workers, takenBy, outcome)
    requires w < |workers| && Holds(workers[w], id)
    ensures TakenInv(env, workers[w := Idle], takenBy, outcome[id := o])
  {
  }

  lemma TakenExit(env: Env, workers: seq<Worker>, takenBy: map<Id, nat>, outcome: map<Id, Outcome>, w: nat)
    requires TakenInv(env, workers, takenBy, outcome)
    requires w < |workers| && workers[w].Idle?
    ensures TakenInv(env, workers[w := Exited], takenBy, outcome)
  {
  }

  /** A package in one worker's hands is in no other's and has no outcome yet. */
  lemma SoleHolder(env: Env, workers: seq<Worker>, takenBy: map<Id, nat>, outcome: map<Id, Outcome>, w: nat, id: Id)
    requires TakenInv(env, workers, takenBy, outcome)
    requires w < |workers| && Holds(workers[w], id)
    ensures id in takenBy && id !in outcome
    ensures forall v | 0 <= v < |workers| && v != w :: !Holds(workers[v], id)
  {
  }

  lemma DeletedDownload(env: Env, workers: seq<Worker>, takenBy: map<Id, nat>, downloaded: set<Id>, deleted: set<Id>,
                        outcome: map<Id, Outcome>, w: nat)
    requires TakenInv(env, workers, takenBy, outcome)
    requires DeletedInv(env, workers, takenBy, downloaded, deleted, outcome)
    requires w < |workers| && workers[w].Downloading?
    ensures DeletedInv(env, workers[w := AfterDownload(env, workers[w].id)], takenBy,
                       downloaded + {workers[w].id}, deleted, outcome)
  {
    SoleHolder(env, workers, takenBy, outcome, w, workers[w].id);
  }

  lemma DeletedDelete(env: Env, workers: seq<Worker>, takenBy: map<Id, nat>, downloaded: set<Id>, deleted: set<Id>,
                      outcome: map<Id, Outcome>, w: nat)
    requires TakenInv(env, workers, takenBy, outcome)
    requires DeletedInv(env, workers, takenBy, downloaded, deleted, outcome)
    requires w < |workers| && workers[w].Deleting?
    ensures DeletedInv(env, workers[w := Reporting(workers[w].id)], takenBy,
                       downloaded, deleted + {workers[w].id}, outcome)
  {
    SoleHolder(env, workers, takenBy, outcome, w, workers[w].id);
  }

  // ---------- Every step keeps the invariant ----------

  lemma NextTaken(env: Env, s: State, step: Step)
    requires Inv(env, s) && Enabled(env, s, step)
    ensures var t := Next(env, s, step); TakenInv(env, t.workers, t.takenBy, t.outcome)
  {
    hide Selects, ExaminedInv, TakenInv, DeletedInv, CountersInv;
    match step
    case Handoff(w) => TakenTake(env, s.workers, s.takenBy, s.outcome, w, AfterReceive(env, s.prod.id), s.prod.id);
    case DownloadOk(w) =>
      TakenMove(env, s.workers, s.takenBy, s.outcome, w, AfterDownload(env, s.workers[w].id), s.workers[w].id);
    case DownloadFail(w) => TakenFinish(env, s.workers, s.takenBy, s.outcome, w, s.workers[w].id, DownloadFailed);
    case DeleteOk(w) => TakenMove(env, s.workers, s.takenBy, s.outcome, w, Reporting(s.workers[w].id), s.workers[w].id);
    case DeleteFail(w) => TakenFinish(env, s.workers, s.takenBy, s.outcome, w, s.workers[w].id, DeleteFailed);
    case Report(w) => TakenFinish(env, s.workers, s.takenBy, s.outcome, w, s.workers[w].id, Done);
    case Exit(w) => TakenExit(env, s.workers, s.takenBy, s.outcome, w);
    case _ =>
  }

  lemma DeletedTake(env: Env, workers: seq<Worker>, takenBy: map<Id, nat>, downloaded: set<Id>, deleted: set<Id>,
                    outcome: map<Id, Outcome>, w: nat, id: Id)
    requires DeletedInv(env, workers, takenBy, downloaded, deleted, outcome)
    requires w < |workers| && id !in takenBy
    ensures DeletedInv(env, workers[w := AfterReceive(env, id)], takenBy[id := w], downloaded, deleted, outcome)
  {
  }

  lemma DeletedFinish(env: Env, workers: seq<Worker>, takenBy: map<Id, nat>, downloaded: set<Id>, deleted: set<Id>,
                      outcome: map<Id, Outcome>, w: nat, id: Id, o: Outcome)
    requires DeletedInv(env, workers, takenBy, downloaded, deleted, outcome)
    requires w < |workers| && OutcomeOk(env, id, o, downloaded, deleted)
    ensures DeletedInv(env, workers[w := Idle], takenBy, downloaded, deleted, outcome[id := o])
  {
  }

  lemma NextDeleted(env: Env, s: State, step: Step)
    requires Inv(env, s) && Enabled(env, s, step)
    ensures var t := Next(env, s, step); DeletedInv(env, t.workers, t.takenBy, t.downloaded, t.deleted, t.outcome)
  {
    hide Selects, ExaminedInv, TakenInv, CountersInv, AfterReceive, AfterDownload;
    match step
    case Handoff(w) => DeletedTake(env, s.workers, s.takenBy, s.downloaded, s.deleted, s.outcome, w, s.prod.id);
    case DownloadOk(w) => DeletedDownload(env, s.workers, s.takenBy, s.downloaded, s.deleted, s.outcome, w);
    case DownloadFail(w) =>
      assert WorkerOk(env, s.workers[w], s.downloaded, s.deleted);
      DeletedFinish(env, s.workers, s.takenBy, s.downloaded, s.deleted, s.outcome, w, s.workers[w].id, DownloadFailed);
    case DeleteOk(w) => DeletedDelete(env, s.workers, s.takenBy, s.downloaded, s.deleted, s.outcome, w);
    case DeleteFail(w) =>
      assert WorkerOk(env, s.workers[w], s.downloaded, s.deleted);
      DeletedFinish(env, s.workers, s.takenBy, s.downloaded, s.deleted, s.outcome, w, s.workers[w].id, DeleteFailed);
    case Report(w) =>
      assert WorkerOk(env, s.workers[w], s.downloaded, s.deleted);
      DeletedFinish(env, s.workers, s.takenBy, s.downloaded, s.deleted, s.outcome, w, s.workers[w].id, Done);
    case Exit(w) =>
      assert forall v | 0 <= v < |s.workers| :: WorkerOk(env, s.workers[v], s.downloaded, s.deleted);
    case _ =>
  }

  lemma ExaminedExamine(env: Env, clock: int, examined: map<Id, Exam>, takenBy: map<Id, nat>, id: Id, now: int)
    requires ExaminedInv(env, Scan(id.page, id.pos), clock, examined, takenBy)
    requires InRange(env, id) && clock <= now
    ensures id !in examined && id !in takenBy
    ensures var selected := Selects(env.cfg, ItemAt(env, id), now);
            ExaminedInv(env, if selected then Send(id) else Scan(id.page, id.pos + 1), now,
                        examined[id := Exam(now, selected)], takenBy)
  {
    hide Selects;
    assert id !in examined;
    forall k | k in examined ensures ExamOk(env, now, k, examined[k]) {
      assert ExamOk(env, clock, k, examined[k]);
    }
  }

  lemma ExaminedHandoff(env: Env, clock: int, examined: map<Id, Exam>, takenBy: map<Id, nat>, id: Id, w: nat)
    requires ExaminedInv(env, Send(id), clock, examined, takenBy)
    requires id in examined && examined[id].selected
    ensures ExaminedInv(env, Count(id), clock, examined, takenBy[id := w])
  {
    hide ExamOk;
  }

  lemma ExaminedMove(env: Env, clock: int, examined: map<Id, Exam>, takenBy: map<Id, nat>, p: Producer, q: Producer)
    requires ExaminedInv(env, p, clock, examined, takenBy)
    requires !p.Send? && forall id | InRange(env, id) :: Passed(p, id) <==> Passed(q, id)
    ensures ExaminedInv(env, q, clock, examined, takenBy)
  {
    hide ExamOk;
  }

  lemma NextExamined(env: Env, s: State, step: Step)
    requires Inv(env, s) && Enabled(env, s, step)
    ensures var t := Next(env, s, step);
            ProducerInv(env, t) && ExaminedInv(env, t.prod, t.clock, t.examined, t.takenBy)
  {
    hide Selects, TakenInv, DeletedInv, CountersInv, ExaminedInv, ExitedInv, AfterReceive, AfterDownload;
    var t := Next(env, s, step);
    match step
    case Examine(now) => ExaminedExamine(env, s.clock, s.examined, s.takenBy, Id(s.prod.page, s.prod.pos), now);
    case Handoff(w) => ExaminedHandoff(env, s.clock, s.examined, s.takenBy, s.prod.id, w);
    case FetchOk => ExaminedMove(env, s.clock, s.examined, s.takenBy, s.prod, t.prod);
    case FetchFail => ExaminedMove(env, s.clock, s.examined, s.takenBy, s.prod, t.prod);
    case EndPage => ExaminedMove(env, s.clock, s.examined, s.takenBy, s.prod, t.prod);
    case CountSent => ExaminedMove(env, s.clock, s.examined, s.takenBy, s.prod, t.prod);
    case _ =>
  }

  lemma NextCounters(env: Env, s: State, step: Step)
    requires Inv(env, s) && Enabled(env, s, step)
    ensures CountersInv(Next(env, s, step))
  {
    hide Selects, TakenInv, DeletedInv, ExaminedInv, AfterReceive, AfterDownload;
    match step
    case Examine(now) =>
      ExaminedExamine(env, s.clock, s.examined, s.takenBy, Id(s.prod.page, s.prod.pos), now);
    case DownloadFail(w) =>
      SoleHolder(env, s.workers, s.takenBy, s.outcome, w, s.workers[w].id);
      DoneIdsAdd(s.outcome, s.workers[w].id, DownloadFailed);
    case DeleteFail(w) =>
      SoleHolder(env, s.workers, s.takenBy, s.outcome, w, s.workers[w].id);
      DoneIdsAdd(s.outcome, s.workers[w].id, DeleteFailed);
    case Report(w) =>
      SoleHolder(env, s.workers, s.takenBy, s.outcome, w, s.workers[w].id);
      DoneIdsAdd(s.outcome, s.workers[w].id, Done);
    case _ =>
  }

  lemma DoneIdsAdd(outcome: map<Id, Outcome>, id: Id, o: Outcome)
    requires id !in outcome
    ensures |DoneIds(outcome[id := o])| == |DoneIds(outcome)| + if o == Done then 1 else 0
  {
    if o == Done {
      assert DoneIds(outcome[id := o]) == DoneIds(outcome) + {id};
    } else {
      assert DoneIds(outcome[id := o]) == DoneIds(outcome);
    }
  }

  lemma NextExited(env: Env, s: State, step: Step)
    requires ExitedInv(s) && Enabled(env, s, step)
    ensures ExitedInv(Next(env, s, step))
  {
    hide Selects;
  }

  lemma NextInv(env: Env, s: State, step: Step)
    requires Inv(env, s) && Enabled(env, s, step)
    ensures Inv(env, Next(env, s, step))
  {
    hide ProducerInv, ExitedInv, ExaminedInv, TakenInv, DeletedInv, CountersInv, Next, Enabled;
    NextExited(env, s, step);
    NextExamined(env, s, step);
    NextTaken(env, s, step);
    NextDeleted(env, s, step);
    NextCounters(env, s, step);
  }

  lemma {:induction false} RunInv(env: Env, s: State, steps: seq<Step>)
    requires Inv(env, s) && CanRun(env, s, steps)
    ensures Inv(env, RunOf(env, s, steps))
    decreases |steps|
  {
    hide Inv, Next, Enabled;
    if steps != [] {
      NextInv(env, s, steps[0]);
      RunInv(env, Next(env, s, steps[0]), steps[1..]);
    }
  }

  lemma ReachableInv(env: Env, s: State)
    requires Reachable(env, s)
    ensures Inv(env, s)
  {
    hide Inv, Next, Enabled;
    var clock, steps :| CanRun(env, Init(env, clock), steps) && RunOf(env, Init(env, clock), steps) == s;
    InitInv(env, clock);
    RunInv(env, Init(env, clock), steps);
  }

  // ---------- Safety ----------

  /** In every interleaving, a package is deleted only if deletion was asked for, the filter made from
      the config selected that package at some moment of the run, a worker took it, and, when
      backing up, its own download had succeeded. In particular no exception is ever deleted. */
  lemma DeletionSafe(env: Env, s: State, id: Id)
    requires Reachable(env, s) && id in s.deleted
    ensures env.delete
    ensures env.backup ==> id in s.downloaded
    ensures id in s.takenBy && s.takenBy[id] < env.workers
    ensures InRange(env, id) && id in s.examined && s.examined[id].at <= s.clock
    ensures Selects(env.cfg, ItemAt(env, id), s.examined[id].at)
    ensures VersionOf(ItemAt(env, id)) !in env.cfg.exceptions
  {
    hide Next, Enabled, Compare, Parse;
    ReachableInv(env, s);
    assert ExamOk(env, s.clock, id, s.examined[id]);
  }

  /** A deletion happens only in a worker that took the package, and after the package's own backup:
      the step that deletes starts from a state in which the download is already recorded. */
  lemma DeleteStepSafe(env: Env, s: State, w: nat)
    requires Reachable(env, s) && Enabled(env, s, DeleteOk(w))
    ensures var id := s.workers[w].id;
            && env.delete && id in s.takenBy && s.takenBy[id] == w && id !in s.deleted
            && (env.backup ==> id in s.downloaded)
  {
    ReachableInv(env, s);
    assert WorkerOk(env, s.workers[w], s.downloaded, s.deleted);
    SoleHolder(env, s.workers, s.takenBy, s.outcome, w, s.workers[w].id);
  }

  /** At no moment are two workers busy with the same package. */
  lemma OneWorkerPerPackage(env: Env, s: State, v: nat, w: nat, id: Id)
    requires Reachable(env, s) && v < |s.workers| && w < |s.workers|
    requires Holds(s.workers[v], id) && Holds(s.workers[w], id)
    ensures v == w
  {
    ReachableInv(env, s);
    SoleHolder(env, s.workers, s.takenBy, s.outcome, v, id);
  }

  /** No package is taken twice or gets two outcomes, and history only grows. */
  lemma HistoryGrows(env: Env, s: State, step: Step)
    requires Reachable(env, s) && Enabled(env, s, step)
    ensures var t := Next(env, s, step);
            && (step.Handoff? ==> s.prod.id !in s.takenBy)
            && (forall id | id in s.examined :: id in t.examined && t.examined[id] == s.examined[id])
            && (forall id | id in s.takenBy :: id in t.takenBy && t.takenBy[id] == s.takenBy[id])
            && (forall id | id in s.outcome :: id in t.outcome && t.outcome[id] == s.outcome[id])
            && s.downloaded <= t.downloaded && s.deleted <= t.deleted
  {
    hide Selects, DeletedInv, CountersInv, ExaminedInv, TakenInv, ExitedInv, Reachable, AfterReceive, AfterDownload;
    ReachableInv(env, s);
    match step
    case Examine(now) =>
      ExaminedExamine(env, s.clock, s.examined, s.takenBy, Id(s.prod.page, s.prod.pos), now);
    case DownloadFail(w) => SoleHolder(env, s.workers, s.takenBy, s.outcome, w, s.workers[w].id);
    case DeleteFail(w) => SoleHolder(env, s.workers, s.takenBy, s.outcome, w, s.workers[w].id);
    case Report(w) => SoleHolder(env, s.workers, s.takenBy, s.outcome, w, s.workers[w].id);
    case _ =>
  }

  /** The counters agree with what happened at every moment. */
  lemma CountersExact(env: Env, s: State)
    requires Reachable(env, s)
    ensures s.total == |s.examined|
    ensures s.filtered <= |s.takenBy| <= s.filtered + 1
    ensures s.progress == |DoneIds(s.outcome)| <= |s.takenBy|
  {
    ReachableInv(env, s);
    assert DoneIds(s.outcome) <= s.takenBy.Keys;
    SubsetCardinality(DoneIds(s.outcome), s.takenBy.Keys);
  }

  lemma {:induction false} SubsetCardinality(a: set<Id>, b: set<Id>)
    requires a <= b
    ensures |a| <= |b|
  {
    if a != {} {
      var x :| x in a;
      SubsetCardinality(a - {x}, b - {x});
    }
  }

  // ---------- Progress ----------

  /** `Clean` has returned and so has the producer. */
  predicate Final(s: State) {
    s.prod.Closed? && forall w | 0 <= w < |s.workers| :: s.workers[w].Exited?
  }

  /** A run gets stuck before its end exactly when there are no workers and the producer waits in a send. */
  lemma StuckExactly(env: Env, s: State)
    requires Reachable(env, s)
    ensures (forall step :: !Enabled(env, s, step)) <==> Final(s) || (env.workers == 0 && s.prod.Send?)
  {
    hide Selects, ExaminedInv, DeletedInv, CountersInv, Next;
    ReachableInv(env, s);
    if !Final(s) && !(env.workers == 0 && s.prod.Send?) {
      var step := SomeStep(env, s);
      assert Enabled(env, s, step);
    }
  }

  /** A step that can be taken: the first busy worker moves on, or else the producer does. */
  lemma SomeStep(env: Env, s: State) returns (step: Step)
    requires ProducerInv(env, s) && ExitedInv(s) && |s.workers| == env.workers
    requires !Final(s) && !(env.workers == 0 && s.prod.Send?)
    ensures Enabled(env, s, step)
  {
    if w :| 0 <= w < |s.workers| && !s.workers[w].Idle? && !s.workers[w].Exited? {
      step := if s.workers[w].Downloading? then DownloadOk(w)
              else if s.workers[w].Deleting? then DeleteOk(w)
              else Report(w);
    } else if s.prod.Closed? {
      var v :| 0 <= v < |s.workers| && s.workers[v].Idle?;
      step := Exit(v);
    } else {
      step := if s.prod.Fetch? then FetchFail
              else if s.prod.Count? then CountSent
              else if s.prod.Send? then Handoff(0)
              else if s.prod.pos == |env.pages[s.prod.page]| then EndPage
              else Examine(s.clock);
    }
  }

  /** What is left of pages `p` and later. */
  function Rest(env: Env, p: nat): nat
    decreases |env.pages| - p
  {
    if p >= |env.pages| then 1 else 3 + 8 * |env.pages[p]| + Rest(env, p + 1)
  }

  function ScanMeasure(env: Env, page: nat, pos: nat): int {
    if page >= |env.pages| then 0 else 8 * (|env.pages[page]| - pos) + 2 + Rest(env, page + 1)
  }

  function ProducerMeasure(env: Env, prod: Producer): int {
    match prod
    case Fetch(p) => Rest(env, p)
    case Scan(p, i) => ScanMeasure(env, p, i)
    case Send(id) => ScanMeasure(env, id.page, id.pos + 1) + 7
    case Count(id) => ScanMeasure(env, id.page, id.pos + 1) + 1
    case Closed(_, _) => 0
  }

  function WorkerMeasure(w: Worker): nat {
    match w
    case Downloading(_) => 4
    case Deleting(_) => 3
    case Reporting(_) => 2
    case Idle => 1
    case Exited => 0
  }

  function WorkersMeasure(ws: seq<Worker>): nat {
    if ws == [] then 0 else WorkerMeasure(ws[0]) + WorkersMeasure(ws[1..])
  }

  lemma {:induction false} WorkersMeasureUpdate(ws: seq<Worker>, w: nat, x: Worker)
    requires w < |ws|
    ensures WorkersMeasure(ws[w := x]) == WorkersMeasure(ws) - WorkerMeasure(ws[w]) + WorkerMeasure(x)
  {
    if w > 0 {
      WorkersMeasureUpdate(ws[1..], w - 1, x);
      assert ws[w := x][1..] == ws[1..][w - 1 := x];
    } else {
      assert ws[w := x][1..] == ws[1..];
    }
  }

  function Measure(env: Env, s: State): int {
    ProducerMeasure(env, s.prod) + WorkersMeasure(s.workers)
  }

  lemma MeasureNatural(env: Env, s: State)
    requires ProducerInv(env, s)
    ensures Measure(env, s) >= 0
  {
  }

  /** Every step of every interleaving uses up some of the measure. */
  lemma MeasureDecreases(env: Env, s: State, step: Step)
    requires ProducerInv(env, s) && Enabled(env, s, step)
    ensures Measure(env, Next(env, s, step)) < Measure(env, s)
  {
    hide Selects, WorkersMeasure;
    var t := Next(env, s, step);
    match step
    case Handoff(w) => WorkersMeasureUpdate(s.workers, w, t.workers[w]);
    case DownloadOk(w) => WorkersMeasureUpdate(s.workers, w, t.workers[w]);
    case DownloadFail(w) => WorkersMeasureUpdate(s.workers, w, Idle);
    case DeleteOk(w) => WorkersMeasureUpdate(s.workers, w, t.workers[w]);
    case DeleteFail(w) => WorkersMeasureUpdate(s.workers, w, Idle);
    case Report(w) => WorkersMeasureUpdate(s.workers, w, Idle);
    case Exit(w) => WorkersMeasureUpdate(s.workers, w, Exited);
    case _ =>
  }

  /** No run is longer than the measure of its first state: every run ends, whatever fails on the way. */
  lemma {:induction false} RunsEnd(env: Env, s: State, steps: seq<Step>)
    requires Inv(env, s) && CanRun(env, s, steps)
    ensures |steps| <= Measure(env, s)
    decreases |steps|
  {
    hide ExaminedInv, TakenInv, DeletedInv, CountersInv, Next, Enabled, Measure;
    MeasureNatural(env, s);
    if steps != [] {
      MeasureDecreases(env, s, steps[0]);
      NextInv(env, s, steps[0]);
      RunsEnd(env, Next(env, s, steps[0]), steps[1..]);
    }
  }

  /** At the end of a run every package sent was handled exactly once, every selected package was sent,
      the counters are exact, and unless a fetch failed every package was examined. */
  lemma FinalAccount(env: Env, s: State)
    requires Reachable(env, s) && Final(s)
    ensures s.total == |s.examined| && s.filtered == |s.takenBy|
    ensures forall id :: id in s.outcome <==> id in s.examined && s.examined[id].selected
    ensures s.takenBy.Keys == s.outcome.Keys
    ensures s.prod.failed || forall id :: id in s.examined <==> InRange(env, id)
    ensures forall id | id in s.deleted :: id in s.outcome && s.outcome[id] == Done
    ensures env.delete ==> forall id | id in s.outcome && s.outcome[id] == Done :: id in s.deleted
  {
    hide Selects;
    ReachableInv(env, s);
    forall id ensures id in s.takenBy <==> id in s.outcome {
      if id in s.takenBy {
        assert !Holds(s.workers[s.takenBy[id]], id);
      }
    }
    forall id | id in s.outcome ensures OutcomeOk(env, id, s.outcome[id], s.downloaded, s.deleted) {
    }
  }

  /** With at least one worker, a run that can go no further is complete. */
  lemma MaximalRunsFinish(env: Env, clock: int, steps: seq<Step>)
    requires env.workers > 0
    requires CanRun(env, Init(env, clock), steps)
    requires forall step :: !Enabled(env, RunOf(env, Init(env, clock), steps), step)
    ensures Final(RunOf(env, Init(env, clock), steps))
    ensures |steps| <= Measure(env, Init(env, clock))
  {
    hide Inv, Next, Enabled, Measure, Final;
    InitInv(env, clock);
    RunsEnd(env, Init(env, clock), steps);
    StuckExactly(env, RunOf(env, Init(env, clock), steps));
  }

  // ---------- When every run finishes ----------

  /** The producer has not got past `id`, and has not stopped. */
  predicate Ahead(prod: Producer, id: Id) {
    match prod
    case Fetch(p) => p <= id.page
    case Scan(p, i) => p < id.page || (p == id.page && i <= id.pos)
    case _ => false
  }

  /** Without workers, a package ahead that the filter would select by `now` brings the producer to a send. */
  lemma {:induction false} BlocksInSend(env: Env, s: State, id: Id, now: int) returns (steps: seq<Step>)
    requires InRange(env, id) && Selects(env.cfg, ItemAt(env, id), now)
    requires s.workers == [] && s.clock <= now && Ahead(s.prod, id)
    requires s.prod.Scan? ==> s.prod.pos <= |env.pages[s.prod.page]|
    ensures CanRun(env, s, steps) && RunOf(env, s, steps).prod.Send? && RunOf(env, s, steps).workers == []
    decreases id.page - s.prod.page, if s.prod.Fetch? then 1 else 0,
              if s.prod.Scan? then |env.pages[s.prod.page]| - s.prod.pos else 0
  {
    hide Selects;
    var step;
    if s.prod.Fetch? {
      step := FetchOk;
    } else if s.prod.pos == |env.pages[s.prod.page]| {
      step := EndPage;
    } else if Id(s.prod.page, s.prod.pos) == id {
      step := Examine(now);
    } else {
      step := Examine(s.clock);
    }
    var t := Next(env, s, step);
    var rest: seq<Step> := [];
    if !t.prod.Send? {
      rest := BlocksInSend(env, t, id, now);
    }
    steps := [step] + rest;
    assert steps[1..] == rest;
  }

  /** Every run that can go no further is complete. */
  ghost predicate AlwaysFinishes(env: Env, clock: int) {
    forall steps | CanRun(env, Init(env, clock), steps) && Stuck(env, RunOf(env, Init(env, clock), steps)) ::
      Final(RunOf(env, Init(env, clock), steps))
  }

  ghost predicate Stuck(env: Env, s: State) {
    forall step :: !Enabled(env, s, step)
  }

  /** The filter selects some package, now or later. */
  ghost predicate SelectsSome(env: Env, clock: int) {
    exists id, now | InRange(env, id) && clock <= now :: Selects(env.cfg, ItemAt(env, id), now)
  }

  /** That is so exactly when some package is not an exception and is below the version cutoff, or there is
      an age cutoff that time can pass. */
  lemma SelectsSomeExactly(env: Env, clock: int)
    ensures SelectsSome(env, clock) <==>
            exists id | InRange(env, id) :: VersionOf(ItemAt(env, id)) !in env.cfg.exceptions &&
              (VersionSelects(env.cfg, VersionOf(ItemAt(env, id))) || (env.cfg.ageCutoff != 0 && env.cfg.ageCutoff < MAX_INT64))
  {
    hide IsValid, Precedes;
    var age := env.cfg.ageCutoff;
    forall id | InRange(env, id) && VersionOf(ItemAt(env, id)) !in env.cfg.exceptions &&
                (VersionSelects(env.cfg, VersionOf(ItemAt(env, id))) || (age != 0 && age < MAX_INT64))
      ensures SelectsSome(env, clock)
    {
      var item := ItemAt(env, id);
      var now := if clock <= item.createTime + age then item.createTime + age + 1 else clock;
      assert Selects(env.cfg, item, now);
    }
  }

  /** `pkgs clean` always finishes exactly when there is a worker, or the filter never selects anything. */
  lemma FinishesExactly(env: Env, clock: int)
    ensures AlwaysFinishes(env, clock) <==> env.workers > 0 || !SelectsSome(env, clock)
  {
    if env.workers == 0 && SelectsSome(env, clock) {
      HangsWithoutWorkers(env, clock);
    } else {
      forall steps | CanRun(env, Init(env, clock), steps) && Stuck(env, RunOf(env, Init(env, clock), steps))
        ensures Final(RunOf(env, Init(env, clock), steps))
      {
        StuckIsFinal(env, clock, steps);
      }
    }
  }

  lemma HangsWithoutWorkers(env: Env, clock: int)
    requires env.workers == 0 && SelectsSome(env, clock)
    ensures !AlwaysFinishes(env, clock)
  {
    hide Selects, CanRun, RunOf, Next;
    var id, now :| InRange(env, id) && clock <= now && Selects(env.cfg, ItemAt(env, id), now);
    var steps := BlocksInSend(env, Init(env, clock), id, now);
    assert Stuck(env, RunOf(env, Init(env, clock), steps));
  }

  lemma StuckIsFinal(env: Env, clock: int, steps: seq<Step>)
    requires CanRun(env, Init(env, clock), steps) && Stuck(env, RunOf(env, Init(env, clock), steps))
    requires env.workers > 0 || !SelectsSome(env, clock)
    ensures Final(RunOf(env, Init(env, clock), steps))
  {
    hide Selects, Next, Enabled, Final, TakenInv, DeletedInv, CountersInv;
    var s := RunOf(env, Init(env, clock), steps);
    StuckExactly(env, s);
    ReachableInv(env, s);
    RunExaminedAfter(env, Init(env, clock), steps, clock);
    if s.prod.Send? {
      assert ExamOk(env, s.clock, s.prod.id, s.examined[s.prod.id]);
    }
  }

  // ---------- The plan previews the run ----------

  ghost predicate ExaminedAfter(s: State, start: int) {
    start <= s.clock && forall id | id in s.examined :: start <= s.examined[id].at
  }

  lemma {:induction false} RunExaminedAfter(env: Env, s: State, steps: seq<Step>, start: int)
    requires CanRun(env, s, steps) && ExaminedAfter(s, start)
    ensures ExaminedAfter(RunOf(env, s, steps), start)
    decreases |steps|
  {
    hide Selects;
    if steps != [] {
      assert ExaminedAfter(Next(env, s, steps[0]), start);
      RunExaminedAfter(env, Next(env, s, steps[0]), steps[1..], start);
    }
  }

  /** `pkgs plan` previews `pkgs clean` for a repository without a track. In any complete run without
      a failed fetch, every package a plan made at the start would prune was handed to a worker; and in
      any run at all, every package deleted is one that a plan made now would prune, or one of the
      non-semver packages past the age cutoff, which a plan keeps. */
  lemma PlanPreviewsClean(env: Env, clock: int, steps: seq<Step>, tracks: map<string, Track>, series: seq<string>)
    requires env.cfg.track == ""
    requires CanRun(env, Init(env, clock), steps)
    ensures Resolve(env.cfg, tracks, series).Success?
    ensures var s := RunOf(env, Init(env, clock), steps);
            var rule := Resolve(env.cfg, tracks, series).value.rule;
            && (s.prod.Closed? && !s.prod.failed && Final(s) ==>
                forall id | InRange(env, id) && Classify(PolicyFor(env.cfg, rule, clock), ItemAt(env, id)) == Prune ::
                  id in s.takenBy && id in s.outcome)
            && (forall id | id in s.deleted :: InRange(env, id) &&
                  (|| Classify(PolicyFor(env.cfg, rule, s.clock), ItemAt(env, id)) == Prune
                   || (!IsValid(VersionOf(ItemAt(env, id))) && TooOld(env.cfg.ageCutoff, ItemAt(env, id), s.clock))))
  {
    hide Next, Enabled, Inv, Classify, Resolve, Selects, Parse;
    var s := RunOf(env, Init(env, clock), steps);
    var dummy := Package("", "", "", "", "", "", "", 0);
    PlanPreviewsFilter(env.cfg, tracks, series, dummy, clock);
    RunExaminedAfter(env, Init(env, clock), steps, clock);
    ReachableInv(env, s);
    forall id | InRange(env, id) ensures PreviewsOne(env, s, clock, tracks, series, id) {
      PreviewOne(env, s, clock, tracks, series, id);
    }
    forall id | id in s.deleted ensures InRange(env, id) {
      DeletionSafe(env, s, id);
    }
    assert forall id | InRange(env, id) :: PreviewsOne(env, s, clock, tracks, series, id);
  }

  /** The statement of `PlanPreviewsClean` for one package. */
  ghost predicate PreviewsOne(env: Env, s: State, clock: int, tracks: map<string, Track>, series: seq<string>, id: Id)
    requires InRange(env, id) && Resolve(env.cfg, tracks, series).Success?
  {
    var item := ItemAt(env, id);
    var rule := Resolve(env.cfg, tracks, series).value.rule;
    && (s.prod.Closed? && !s.prod.failed && Final(s) && Classify(PolicyFor(env.cfg, rule, clock), item) == Prune ==>
        id in s.takenBy && id in s.outcome)
    && (id in s.deleted ==>
        || Classify(PolicyFor(env.cfg, rule, s.clock), item) == Prune
        || (!IsValid(VersionOf(item)) && TooOld(env.cfg.ageCutoff, item, s.clock)))
  }

  lemma PreviewOne(env: Env, s: State, clock: int, tracks: map<string, Track>, series: seq<string>, id: Id)
    requires env.cfg.track == ""
    requires Reachable(env, s) && ExaminedAfter(s, clock)
    requires InRange(env, id) && Resolve(env.cfg, tracks, series).Success?
    ensures PreviewsOne(env, s, clock, tracks, series, id)
  {
    hide Next, Enabled, Classify, Resolve, Selects, Parse;
    var item := ItemAt(env, id);
    ReachableInv(env, s);
    PlanPreviewsFilter(env.cfg, tracks, series, item, clock);
    PlanPreviewsFilter(env.cfg, tracks, series, item, s.clock);
    if id in s.examined {
      assert ExamOk(env, s.clock, id, s.examined[id]);
      if Selects(env.cfg, item, clock) {
        SelectsForever(env.cfg, item, clock, s.examined[id].at);
      }
      if Selects(env.cfg, item, s.examined[id].at) {
        SelectsForever(env.cfg, item, s.examined[id].at, s.clock);
      }
    }
    if Final(s) {
      FinalAccount(env, s);
    }
  }
}
