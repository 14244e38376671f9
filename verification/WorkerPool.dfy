/** test.py: the main thread, its worker threads and the two queues between them, as a transition
    system in which any thread may take the next step and the interrupt may arrive at any moment. */
module WorkerPool {
  import opened Collections

  /** A Job: `id` is its position in the dispatch order, the rest are the fields of the same name. */
  datatype Job = Job(id: nat, isBreak: bool, isSkip: bool, returncode: int)

  /** The jobs set up before dispatching, and how many worker threads there are. */
  datatype Plan = Plan(jobs: seq<Job>, processors: nat) {
    ghost predicate Valid() {
      && processors >= 1
      && (forall k :: 0 <= k < |jobs| ==> jobs[k].id == k && !jobs[k].isBreak)
    }
  }

  /** The job that tells a worker to stop. */
  const STOP_JOB := Job(0, true, false, 0)

  /** Waiting at input_queue.get(); holding a job before and after looking at thread_exit; about to put
      the job on the output queue; returned. */
  datatype Worker = Waiting | Got(job: Job) | Running(job: Job) | Reporting(job: Job) | Exited

  /** Dispatching and poisoning count what has been put, collecting what has been taken, joining the
      threads joined. */
  datatype Main = Dispatching(n: nat) | Poisoning(n: nat) | Collecting(n: nat) | Joining(n: nat) | Done

  datatype Tally = Tally(passed: nat, failed: nat, crashed: nat, valgrind: nat, skipped: nat)

  datatype State = State(
    input: seq<Job>, output: seq<Job>, collected: seq<Job>,
    workers: seq<Worker>, main: Main, threadExit: bool, tally: Tally)

  function Initial(p: Plan): State {
    State([], [], [], seq(p.processors, _ => Waiting), Dispatching(0), false, Tally(0, 0, 0, 0, 0))
  }

  // ---------- steps

  /** The next move: the main thread's, worker w's (a job it runs ends with `returncode`), or SIGINT. */
  datatype Step = MainStep | WorkerStep(w: nat, returncode: int) | Interrupt

  /** One iteration of the collecting loop. */
  function Count(t: Tally, job: Job): Tally {
    if job.isBreak then t
    else if job.isSkip then t.(skipped := t.skipped + 1)
    else if job.returncode == 0 then t.(passed := t.passed + 1)
    else if job.returncode == 1 then t.(failed := t.failed + 1)
    else if job.returncode == 2 then t.(valgrind := t.valgrind + 1)
    else t.(crashed := t.crashed + 1)
  }

  predicate MainEnabled(p: Plan, s: State) {
    match s.main
    case Dispatching(_) => true
    case Poisoning(_) => true
    case Collecting(n) => n == |p.jobs| || s.output != []
    case Joining(n) => n == p.processors || (n < |s.workers| && s.workers[n] == Exited)
    case Done => false
  }

  predicate Enabled(p: Plan, s: State, step: Step) {
    match step
    case Interrupt => true
    case MainStep => MainEnabled(p, s)
    case WorkerStep(w, _) =>
      w < |s.workers| && (if s.workers[w] == Waiting then s.input != [] else s.workers[w] != Exited)
  }

  function MainNext(p: Plan, s: State): State
    requires MainEnabled(p, s)
  {
    match s.main
    case Dispatching(n) =>
      if n < |p.jobs| then s.(input := s.input + [p.jobs[n]], main := Dispatching(n + 1)) else s.(main := Poisoning(0))
    case Poisoning(n) =>
      if n < p.processors then s.(input := s.input + [STOP_JOB], main := Poisoning(n + 1))
      else s.(main := Collecting(0))
    case Collecting(n) =>
      if n == |p.jobs| then s.(main := Joining(0))
      else s.(output := s.output[1..], collected := s.collected + [s.output[0]],
              tally := Count(s.tally, s.output[0]), main := Collecting(n + 1))
    case Joining(n) => if n == p.processors then s.(main := Done) else s.(main := Joining(n + 1))
  }

  function WorkerNext(s: State, w: nat, returncode: int): State
    requires w < |s.workers| && (if s.workers[w] == Waiting then s.input != [] else s.workers[w] != Exited)
  {
    match s.workers[w]
    case Waiting =>
      var job := s.input[0];
      s.(input := s.input[1..], workers := s.workers[w := if job.isBreak then Exited else Got(job)])
    case Got(job) =>
      s.(workers := s.workers[w := if s.threadExit then Reporting(job.(isBreak := true)) else Running(job)])
    case Running(job) =>
      s.(workers := s.workers[w := Reporting(if job.isSkip then job else job.(returncode := returncode))])
    case Reporting(job) =>
      s.(output := s.output + [job], workers := s.workers[w := Waiting])
  }

  function Next(p: Plan, s: State, step: Step): State
    requires Enabled(p, s, step)
  {
    match step
    case Interrupt => s.(threadExit := true)
    case MainStep => MainNext(p, s)
    case WorkerStep(w, returncode) => WorkerNext(s, w, returncode)
  }

  /** The value run_tests returns once it is done. */
  function ExitCode(p: Plan, s: State): int {
    if s.tally.passed + s.tally.skipped == |p.jobs| then 0 else 1
  }

  // ---------- what a run does to its jobs

  /** A worker takes up job id, having looked at thread_exit; a worker is through with running or skipping it. */
  datatype Entry = TookUp(id: nat, interrupted: bool) | Ended(id: nat, returncode: int)

  function Entries(s: State, step: Step): seq<Entry> {
    if !step.WorkerStep? || step.w >= |s.workers| then []
    else
      match s.workers[step.w]
      case Got(job) => [TookUp(job.id, s.threadExit)]
      case Running(job) => [Ended(job.id, step.returncode)]
      case _ => []
  }

  /** The entries of the first n steps. */
  function Log(steps: seq<Step>, states: seq<State>, n: nat): seq<Entry>
    requires n <= |steps| && n <= |states|
  {
    if n == 0 then [] else Log(steps, states, n - 1) + Entries(states[n - 1], steps[n - 1])
  }

  function Of(log: seq<Entry>, id: nat): seq<Entry> {
    if log == [] then []
    else
      var last := log[|log| - 1];
      Of(log[..|log| - 1], id) + if last.id == id then [last] else []
  }

  // ---------- where the jobs are

  function Holds(worker: Worker): seq<Job> {
    if worker.Waiting? || worker.Exited? then [] else [worker.job]
  }

  /** How often job id occurs in a queue, stop jobs of the input queue aside. */
  function Occurs(q: seq<Job>, id: nat, countBreaks: bool): nat {
    if q == [] then 0
    else
      var last := q[|q| - 1];
      Occurs(q[..|q| - 1], id, countBreaks) + if last.id == id && (countBreaks || !last.isBreak) then 1 else 0
  }

  function Held(workers: seq<Worker>, id: nat): nat {
    if workers == [] then 0
    else Held(workers[..|workers| - 1], id) + Occurs(Holds(workers[|workers| - 1]), id, true)
  }

  /** In how many of the four places job id is found, counting repeats. */
  function Places(s: State, id: nat): nat {
    Occurs(s.input, id, false) + Held(s.workers, id) + Occurs(s.output, id, true) + Occurs(s.collected, id, true)
  }

  function Dispatched(p: Plan, s: State): nat {
    if s.main.Dispatching? then s.main.n else |p.jobs|
  }

  // ---------- what holds in every reachable state

  function Pills(q: seq<Job>): nat {
    if q == [] then 0 else Pills(q[..|q| - 1]) + if q[|q| - 1].isBreak then 1 else 0
  }

  function Exits(workers: seq<Worker>): nat {
    if workers == [] then 0 else Exits(workers[..|workers| - 1]) + if workers[|workers| - 1].Exited? then 1 else 0
  }

  function PillsPut(p: Plan, s: State): nat {
    match s.main
    case Dispatching(_) => 0
    case Poisoning(n) => n
    case _ => p.processors
  }

  /** Every dispatched job is in exactly one place, and a job not dispatched in none. */
  ghost predicate OnePlace(p: Plan, s: State) {
    forall id: nat :: Places(s, id) == if id < Dispatched(p, s) then 1 else 0
  }

  /** First in, first out: stop jobs are behind all real jobs, and a worker that has returned has seen one. */
  ghost predicate PillsLast(s: State) {
    && (forall i, j :: 0 <= i < j < |s.input| && s.input[i].isBreak ==> s.input[j].isBreak)
    && (forall w, i :: 0 <= w < |s.workers| && s.workers[w].Exited? && 0 <= i < |s.input| ==> s.input[i].isBreak)
  }

  ghost predicate MainInRange(p: Plan, s: State) {
    match s.main
    case Dispatching(n) => n <= |p.jobs| && s.collected == []
    case Poisoning(n) => n <= p.processors && s.collected == []
    case Collecting(n) => n <= |p.jobs| && |s.collected| == n
    case Joining(n) =>
      && n <= p.processors && |s.collected| == |p.jobs|
      && forall w :: 0 <= w < n && w < |s.workers| ==> s.workers[w] == Exited
    case Done => |s.collected| == |p.jobs| && forall w :: 0 <= w < |s.workers| ==> s.workers[w] == Exited
  }

  function TallyOf(collected: seq<Job>): Tally {
    if collected == [] then Tally(0, 0, 0, 0, 0)
    else Count(TallyOf(collected[..|collected| - 1]), collected[|collected| - 1])
  }

  ghost predicate Inv(p: Plan, s: State) {
    && |s.workers| == p.processors
    && MainInRange(p, s)
    && OnePlace(p, s)
    && PillsLast(s)
    && Pills(s.input) + Exits(s.workers) == PillsPut(p, s)
    && s.tally == TallyOf(s.collected)
  }

  /** The job as it was set up. */
  ghost predicate Planned(p: Plan, job: Job) {
    job.id < |p.jobs| && job == p.jobs[job.id]
  }

  /** The report says what was done: the job was broken off when its worker saw the interrupt, otherwise
      skipped if it was to be skipped, otherwise run, and then it carries the return code of that run. */
  ghost predicate Tells(p: Plan, job: Job, done: seq<Entry>) {
    && job.id < |p.jobs|
    && var planned := p.jobs[job.id];
       || (done == [TookUp(job.id, true)] && job == planned.(isBreak := true))
       || (&& |done| == 2 && done[0] == TookUp(job.id, false) && done[1].Ended?
           && job == if planned.isSkip then planned else planned.(returncode := done[1].returncode))
  }

  ghost predicate WorkerStory(p: Plan, worker: Worker, log: seq<Entry>) {
    match worker
    case Got(job) => Planned(p, job) && Of(log, job.id) == []
    case Running(job) => Planned(p, job) && Of(log, job.id) == [TookUp(job.id, false)]
    case Reporting(job) => Tells(p, job, Of(log, job.id))
    case _ => true
  }

  /** Nothing was done to a job before a worker took it up, and every report tells what was done. */
  ghost predicate Story(p: Plan, s: State, log: seq<Entry>) {
    && (forall id: nat :: id >= Dispatched(p, s) ==> Of(log, id) == [])
    && (forall i :: 0 <= i < |s.input| && !s.input[i].isBreak ==>
      Planned(p, s.input[i]) && Of(log, s.input[i].id) == [])
    && (forall w :: 0 <= w < |s.workers| ==> WorkerStory(p, s.workers[w], log))
    && (forall i :: 0 <= i < |s.output| ==> Tells(p, s.output[i], Of(log, s.output[i].id)))
    && (forall i :: 0 <= i < |s.collected| ==> Tells(p, s.collected[i], Of(log, s.collected[i].id)))
  }

  // ---------- counting lemmas

  lemma OccursAppend(q: seq<Job>, job: Job, id: nat, countBreaks: bool)
    ensures Occurs(q + [job], id, countBreaks) ==
      Occurs(q, id, countBreaks) + if job.id == id && (countBreaks || !job.isBreak) then 1 else 0
  {
    assert (q + [job])[..|q|] == q;
  }

  lemma {:induction false} OccursTail(q: seq<Job>, id: nat, countBreaks: bool)
    requires q != []
    ensures Occurs(q, id, countBreaks) ==
      Occurs(q[1..], id, countBreaks) + if q[0].id == id && (countBreaks || !q[0].isBreak) then 1 else 0
  {
    if |q| > 1 {
      var front := q[..|q| - 1];
      OccursTail(front, id, countBreaks);
      assert q[1..][..|q| - 2] == front[1..];
    } else {
      assert q[..0] == q[1..];
    }
  }

  lemma {:induction false} PillsTail(q: seq<Job>)
    requires q != []
    ensures Pills(q) == Pills(q[1..]) + if q[0].isBreak then 1 else 0
  {
    if |q| > 1 {
      var front := q[..|q| - 1];
      PillsTail(front);
      assert q[1..][..|q| - 2] == front[1..];
    } else {
      assert q[..0] == q[1..];
    }
  }

  lemma PillsAppend(q: seq<Job>, job: Job)
    ensures Pills(q + [job]) == Pills(q) + if job.isBreak then 1 else 0
  {
    assert (q + [job])[..|q|] == q;
  }

  lemma {:induction false} HeldUpdate(workers: seq<Worker>, w: nat, worker: Worker, id: nat)
    requires w < |workers|
    ensures Held(workers[w := worker], id) + Occurs(Holds(workers[w]), id, true) ==
      Held(workers, id) + Occurs(Holds(worker), id, true)
  {
    var front := workers[..|workers| - 1];
    if w == |workers| - 1 {
      assert workers[w := worker][..|workers| - 1] == front;
    } else {
      HeldUpdate(front, w, worker, id);
      assert workers[w := worker][..|workers| - 1] == front[w := worker];
    }
  }

  lemma {:induction false} ExitsUpdate(workers: seq<Worker>, w: nat, worker: Worker)
    requires w < |workers|
    ensures Exits(workers[w := worker]) + (if workers[w].Exited? then 1 else 0) ==
      Exits(workers) + (if worker.Exited? then 1 else 0)
  {
    var front := workers[..|workers| - 1];
    if w == |workers| - 1 {
      assert workers[w := worker][..|workers| - 1] == front;
    } else {
      ExitsUpdate(front, w, worker);
      assert workers[w := worker][..|workers| - 1] == front[w := worker];
    }
  }

  lemma {:induction false} NoneHeld(workers: seq<Worker>, id: nat)
    requires forall w :: 0 <= w < |workers| ==> Holds(workers[w]) == []
    ensures Held(workers, id) == 0
  {
    if workers != [] {
      NoneHeld(workers[..|workers| - 1], id);
    }
  }

  lemma {:induction false} ExitsBound(workers: seq<Worker>)
    ensures Exits(workers) <= |workers|
    ensures Exits(workers) == |workers| <==> forall w :: 0 <= w < |workers| ==> workers[w].Exited?
  {
    if workers != [] {
      ExitsBound(workers[..|workers| - 1]);
    }
  }

  lemma {:induction false} NotThere(q: seq<Job>, id: nat, countBreaks: bool)
    requires forall i :: 0 <= i < |q| ==> q[i].id != id || (q[i].isBreak && !countBreaks)
    ensures Occurs(q, id, countBreaks) == 0
  {
    if q != [] {
      NotThere(q[..|q| - 1], id, countBreaks);
    }
  }

  lemma {:induction false} OccursAt(q: seq<Job>, i: nat, countBreaks: bool)
    requires i < |q| && (countBreaks || !q[i].isBreak)
    ensures Occurs(q, q[i].id, countBreaks) >= 1
  {
    if i < |q| - 1 {
      OccursAt(q[..|q| - 1], i, countBreaks);
    }
  }

  // ---------- every step keeps the invariant

  lemma MainPlaces(p: Plan, s: State, id: nat)
    requires p.Valid() && MainEnabled(p, s) && MainInRange(p, s)
    ensures Places(MainNext(p, s), id) == Places(s, id) +
      if s.main.Dispatching? && s.main.n < |p.jobs| && id == s.main.n then 1 else 0
  {
    match s.main
    case Dispatching(n) => if n < |p.jobs| { OccursAppend(s.input, p.jobs[n], id, false); }
    case Poisoning(n) => OccursAppend(s.input, STOP_JOB, id, false);
    case Collecting(n) =>
      if n < |p.jobs| {
        OccursTail(s.output, id, true);
        OccursAppend(s.collected, s.output[0], id, true);
      }
    case Joining(_) =>
    case Done =>
  }

  lemma WorkerPlaces(s: State, w: nat, returncode: int, id: nat)
    requires w < |s.workers| && (if s.workers[w] == Waiting then s.input != [] else s.workers[w] != Exited)
    ensures Places(WorkerNext(s, w, returncode), id) == Places(s, id)
  {
    var s' := WorkerNext(s, w, returncode);
    HeldUpdate(s.workers, w, s'.workers[w], id);
    assert Occurs([], id, true) == 0;
    assert forall job: Job :: [job][..0] == [];
    match s.workers[w]
    case Waiting => OccursTail(s.input, id, false);
    case Reporting(job) => OccursAppend(s.output, job, id, true);
    case _ =>
  }

  lemma MainStepPills(p: Plan, s: State)
    requires p.Valid() && MainEnabled(p, s) && MainInRange(p, s) && |s.workers| == p.processors
    requires PillsLast(s) && Pills(s.input) + Exits(s.workers) == PillsPut(p, s)
    ensures PillsLast(MainNext(p, s))
    ensures Pills(MainNext(p, s).input) + Exits(s.workers) == PillsPut(p, MainNext(p, s))
  {
    hide Exits, Pills;
    match s.main
    case Dispatching(n) =>
      if n < |p.jobs| {
        PillsAppend(s.input, p.jobs[n]);
        NoPills(s.input);
        NoneExited(s.workers);
        assert !p.jobs[n].isBreak;
      }
    case Poisoning(n) => PillsAppend(s.input, STOP_JOB);
    case _ =>
  }

  lemma {:induction false} NoPills(q: seq<Job>)
    ensures Pills(q) == 0 <==> forall i :: 0 <= i < |q| ==> !q[i].isBreak
  {
    if q != [] { NoPills(q[..|q| - 1]); }
  }

  lemma {:induction false} NoneExited(workers: seq<Worker>)
    ensures Exits(workers) == 0 <==> forall w :: 0 <= w < |workers| ==> !workers[w].Exited?
  {
    if workers != [] { NoneExited(workers[..|workers| - 1]); }
  }

  lemma MainStepStory(p: Plan, s: State, log: seq<Entry>)
    requires p.Valid() && MainEnabled(p, s) && MainInRange(p, s) && Story(p, s, log)
    ensures Story(p, MainNext(p, s), log)
  {
    hide Of, Tells, WorkerStory;
  }

  lemma MainStepRange(p: Plan, s: State)
    requires p.Valid() && MainEnabled(p, s) && MainInRange(p, s) && |s.workers| == p.processors
    requires s.tally == TallyOf(s.collected)
    ensures MainInRange(p, MainNext(p, s)) && MainNext(p, s).tally == TallyOf(MainNext(p, s).collected)
  {
    if s.main.Collecting? && s.main.n < |p.jobs| {
      assert MainNext(p, s).collected[..|s.collected|] == s.collected;
    }
  }

  lemma MainStepInv(p: Plan, s: State, log: seq<Entry>)
    requires p.Valid() && Inv(p, s) && Story(p, s, log) && MainEnabled(p, s)
    ensures Inv(p, MainNext(p, s)) && Story(p, MainNext(p, s), log)
  {
    hide Places, Exits, Pills, PillsLast, Story, TallyOf;
    var s' := MainNext(p, s);
    forall id: nat ensures Places(s', id) == if id < Dispatched(p, s') then 1 else 0 {
      MainPlaces(p, s, id);
    }
    MainStepPills(p, s);
    MainStepStory(p, s, log);
    MainStepRange(p, s);
  }

  lemma WorkerStepPills(p: Plan, s: State, w: nat, returncode: int)
    requires Enabled(p, s, WorkerStep(w, returncode)) && PillsLast(s)
    ensures var s' := WorkerNext(s, w, returncode);
      PillsLast(s') && Pills(s'.input) + Exits(s'.workers) == Pills(s.input) + Exits(s.workers)
  {
    hide Exits, Pills;
    var s' := WorkerNext(s, w, returncode);
    ExitsUpdate(s.workers, w, s'.workers[w]);
    if s.workers[w] == Waiting {
      PillsTail(s.input);
    }
  }

  lemma {:induction false} NotHeld(workers: seq<Worker>, w: nat, id: nat)
    requires Held(workers, id) == 0 && w < |workers| && Holds(workers[w]) != []
    ensures workers[w].job.id != id
  {
    if w < |workers| - 1 {
      NotHeld(workers[..|workers| - 1], w, id);
    } else {
      assert Holds(workers[w])[..0] == [];
    }
  }

  /** The job a worker holds is nowhere else. */
  lemma HeldAlone(p: Plan, s: State, w: nat)
    requires OnePlace(p, s) && w < |s.workers| && Holds(s.workers[w]) != []
    ensures var id := s.workers[w].job.id;
      && id < Dispatched(p, s)
      && (forall i :: 0 <= i < |s.input| && !s.input[i].isBreak ==> s.input[i].id != id)
      && (forall v :: 0 <= v < |s.workers| && v != w && Holds(s.workers[v]) != [] ==> s.workers[v].job.id != id)
      && (forall i :: 0 <= i < |s.output| ==> s.output[i].id != id)
      && (forall i :: 0 <= i < |s.collected| ==> s.collected[i].id != id)
  {
    hide Held, Occurs;
    var id, others := s.workers[w].job.id, s.workers[w := Waiting];
    HeldUpdate(s.workers, w, Waiting, id);
    NotThere([], id, true);
    OccursAt(Holds(s.workers[w]), 0, true);
    assert Places(s, id) <= 1;
    forall v | 0 <= v < |s.workers| && v != w && Holds(s.workers[v]) != [] ensures s.workers[v].job.id != id {
      NotHeld(others, v, id);
    }
    forall i | 0 <= i < |s.input| && !s.input[i].isBreak ensures s.input[i].id != id {
      OccursAt(s.input, i, false);
    }
    forall i | 0 <= i < |s.output| ensures s.output[i].id != id {
      OccursAt(s.output, i, true);
    }
    forall i | 0 <= i < |s.collected| ensures s.collected[i].id != id {
      OccursAt(s.collected, i, true);
    }
  }

  lemma OfAppend(log: seq<Entry>, e: Entry, id: nat)
    ensures Of(log + [e], id) == if e.id == id then Of(log, id) + [e] else Of(log, id)
  {
    assert (log + [e])[..|log|] == log;
  }

  /** What is done to the job of worker w leaves every other story as it was. */
  lemma OthersStory(p: Plan, s: State, log: seq<Entry>, w: nat, e: Entry)
    requires OnePlace(p, s) && Story(p, s, log)
    requires w < |s.workers| && Holds(s.workers[w]) != [] && e.id == s.workers[w].job.id
    ensures Story(p, s.(workers := s.workers[w := Waiting]), log + [e])
  {
    hide Of, Tells, OnePlace;
    HeldAlone(p, s, w);
    forall id: nat ensures id != e.id ==> Of(log + [e], id) == Of(log, id) {
      OfAppend(log, e, id);
    }
  }

  lemma TakenUp(p: Plan, s: State, log: seq<Entry>, w: nat, returncode: int)
    requires p.Valid() && OnePlace(p, s) && Story(p, s, log)
    requires w < |s.workers| && (s.workers[w].Got? || s.workers[w].Running?)
    ensures Story(p, WorkerNext(s, w, returncode), log + Entries(s, WorkerStep(w, returncode)))
  {
    hide Of, OnePlace;
    var s', job, e := WorkerNext(s, w, returncode), s.workers[w].job, Entries(s, WorkerStep(w, returncode))[0];
    var others := s.workers[w := Waiting];
    OthersStory(p, s, log, w, e);
    OfAppend(log, e, job.id);
    assert WorkerStory(p, s.workers[w], log);
    assert WorkerStory(p, s'.workers[w], log + [e]);
    hide Tells, WorkerStory;
    forall v | 0 <= v < |s'.workers| ensures WorkerStory(p, s'.workers[v], log + [e]) {
      if v != w { assert WorkerStory(p, others[v], log + [e]); }
    }
    assert Entries(s, WorkerStep(w, returncode)) == [e];
  }

  lemma WorkerStepStory(p: Plan, s: State, log: seq<Entry>, w: nat, returncode: int)
    requires p.Valid() && OnePlace(p, s) && Story(p, s, log) && Enabled(p, s, WorkerStep(w, returncode))
    ensures Story(p, WorkerNext(s, w, returncode), log + Entries(s, WorkerStep(w, returncode)))
  {
    hide Of, Tells, OnePlace;
    if s.workers[w].Got? || s.workers[w].Running? {
      TakenUp(p, s, log, w, returncode);
    } else {
      var s' := WorkerNext(s, w, returncode);
      assert log + Entries(s, WorkerStep(w, returncode)) == log;
      assert WorkerStory(p, s.workers[w], log);
      assert Story(p, s', log) by {
        assert WorkerStory(p, s'.workers[w], log);
      }
    }
  }

  lemma WorkerStepInv(p: Plan, s: State, log: seq<Entry>, w: nat, returncode: int)
    requires p.Valid() && Inv(p, s) && Story(p, s, log) && Enabled(p, s, WorkerStep(w, returncode))
    ensures Inv(p, WorkerNext(s, w, returncode))
    ensures Story(p, WorkerNext(s, w, returncode), log + Entries(s, WorkerStep(w, returncode)))
  {
    hide Places, Exits, Pills, PillsLast, Story, TallyOf;
    var s' := WorkerNext(s, w, returncode);
    forall id: nat ensures Places(s', id) == if id < Dispatched(p, s') then 1 else 0 {
      WorkerPlaces(s, w, returncode, id);
    }
    WorkerStepPills(p, s, w, returncode);
    WorkerStepStory(p, s, log, w, returncode);
  }

  lemma InterruptInv(p: Plan, s: State, log: seq<Entry>)
    requires Inv(p, s) && Story(p, s, log)
    ensures Inv(p, s.(threadExit := true)) && Story(p, s.(threadExit := true), log)
  {
    var s' := s.(threadExit := true);
    forall id: nat ensures Places(s', id) == Places(s, id) {
    }
  }

  lemma InitInv(p: Plan)
    requires p.Valid()
    ensures Inv(p, Initial(p)) && Story(p, Initial(p), [])
  {
    var s := Initial(p);
    forall id: nat ensures Places(s, id) == 0 {
      NoneHeld(s.workers, id);
    }
    NoExits(s.workers);
  }

  lemma {:induction false} NoExits(workers: seq<Worker>)
    requires forall w :: 0 <= w < |workers| ==> workers[w] == Waiting
    ensures Exits(workers) == 0
  {
    if workers != [] { NoExits(workers[..|workers| - 1]); }
  }

  lemma StepInv(p: Plan, s: State, log: seq<Entry>, step: Step)
    requires p.Valid() && Inv(p, s) && Story(p, s, log) && Enabled(p, s, step)
    ensures Inv(p, Next(p, s, step)) && Story(p, Next(p, s, step), log + Entries(s, step))
  {
    assert log + [] == log;
    match step
    case Interrupt => InterruptInv(p, s, log);
    case MainStep => MainStepInv(p, s, log);
    case WorkerStep(w, returncode) => WorkerStepInv(p, s, log, w, returncode);
  }

  // ---------- no deadlock

  /** A job known to be missing from `collected` is queued, held or reported. */
  lemma {:induction false} MissingJob(collected: seq<Job>, n: nat) returns (id: nat)
    requires |collected| < n
    ensures id < n && Occurs(collected, id, true) == 0
  {
    var ids := Below(n);
    var seen := set i | 0 <= i < |collected| :: collected[i].id;
    ImageSize(collected);
    if ids <= seen {
      SubsetSize(ids, seen);
      assert false;
    }
    id :| id in ids && id !in seen;
    NotThere(collected, id, true);
  }

  lemma {:induction false} ImageSize(q: seq<Job>)
    ensures |set i | 0 <= i < |q| :: q[i].id| <= |q|
  {
    if q != [] {
      var front := q[..|q| - 1];
      ImageSize(front);
      assert (set i | 0 <= i < |q| :: q[i].id) == (set i | 0 <= i < |front| :: front[i].id) + {q[|q| - 1].id};
    }
  }

  /** As long as the run is not over, some thread can move without waiting for an interrupt. */
  lemma NoDeadlock(p: Plan, s: State) returns (step: Step)
    requires p.Valid() && Inv(p, s) && s.main != Done
    ensures step != Interrupt && Enabled(p, s, step)
  {
    if MainEnabled(p, s) {
      return MainStep;
    }
    if w :| 0 <= w < |s.workers| && Holds(s.workers[w]) != [] {
      return WorkerStep(w, 0);
    }
    var w := IdleWorker(p, s);
    return WorkerStep(w, 0);
  }

  /** Main is stuck and nobody holds a job: then some worker waits in front of a nonempty queue. */
  lemma IdleWorker(p: Plan, s: State) returns (w: nat)
    requires p.Valid() && Inv(p, s) && s.main != Done && !MainEnabled(p, s)
    requires forall w :: 0 <= w < |s.workers| ==> Holds(s.workers[w]) == []
    ensures w < |s.workers| && s.workers[w] == Waiting && s.input != []
  {
    ExitsBound(s.workers);
    if s.main.Collecting? {
      var id := MissingJob(s.collected, |p.jobs|);
      JobIsQueued(p, s, id);
    }
    NoPills(s.input);
    w :| 0 <= w < |s.workers| && !s.workers[w].Exited?;
    assert Holds(s.workers[w]) == [];
  }

  lemma JobIsQueued(p: Plan, s: State, id: nat)
    requires p.Valid() && Inv(p, s) && s.main.Collecting? && s.output == []
    requires id < |p.jobs| && Occurs(s.collected, id, true) == 0
    requires forall w :: 0 <= w < |s.workers| ==> Holds(s.workers[w]) == []
    ensures s.input != [] && exists w :: 0 <= w < |s.workers| && !s.workers[w].Exited?
  {
    NoneHeld(s.workers, id);
    assert Places(s, id) == 1;
    assert Occurs(s.input, id, false) == 1;
    if forall w :: 0 <= w < |s.workers| ==> s.workers[w].Exited? {
      assert s.workers[0].Exited?;
      NotThere(s.input, id, false);
    }
  }

  // ---------- every run ends

  function MainLeft(p: Plan, main: Main): int {
    var jobs, threads := |p.jobs|, p.processors;
    match main
    case Dispatching(n) => 5 * (jobs - n) + 5 * threads + jobs + threads + 4
    case Poisoning(n) => 5 * (threads - n) + jobs + threads + 3
    case Collecting(n) => (jobs - n) + threads + 2
    case Joining(n) => (threads - n) + 1
    case Done => 0
  }

  function StageLeft(worker: Worker): nat {
    match worker
    case Got(_) => 3
    case Running(_) => 2
    case Reporting(_) => 1
    case _ => 0
  }

  function WorkersLeft(workers: seq<Worker>): nat {
    if workers == [] then 0 else WorkersLeft(workers[..|workers| - 1]) + StageLeft(workers[|workers| - 1])
  }

  /** An upper bound on the steps still to come, interrupts aside. */
  function StepsLeft(p: Plan, s: State): int {
    MainLeft(p, s.main) + 4 * |s.input| + WorkersLeft(s.workers)
  }

  lemma {:induction false} WorkersLeftUpdate(workers: seq<Worker>, w: nat, worker: Worker)
    requires w < |workers|
    ensures WorkersLeft(workers[w := worker]) + StageLeft(workers[w]) == WorkersLeft(workers) + StageLeft(worker)
  {
    var front := workers[..|workers| - 1];
    if w == |workers| - 1 {
      assert workers[w := worker][..|workers| - 1] == front;
    } else {
      WorkersLeftUpdate(front, w, worker);
      assert workers[w := worker][..|workers| - 1] == front[w := worker];
    }
  }

  lemma MainLeftShrinks(p: Plan, s: State)
    requires MainEnabled(p, s) && MainInRange(p, s)
    ensures StepsLeft(p, MainNext(p, s)) <= StepsLeft(p, s) - 1
  {
    hide TallyOf, Count;
  }

  lemma StepsLeftShrinks(p: Plan, s: State, step: Step)
    requires MainInRange(p, s) && Enabled(p, s, step)
    ensures StepsLeft(p, s) >= 0
    ensures StepsLeft(p, Next(p, s, step)) <= StepsLeft(p, s) - if step == Interrupt then 0 else 1
  {
    match step
    case MainStep => MainLeftShrinks(p, s);
    case WorkerStep(w, returncode) => WorkersLeftUpdate(s.workers, w, WorkerNext(s, w, returncode).workers[w]);
    case Interrupt =>
  }

  /** A run: each state follows from the one before by an enabled step. */
  ghost predicate IsRun(p: Plan, steps: seq<Step>, states: seq<State>) {
    && |states| == |steps| + 1
    && states[0] == Initial(p)
    && (forall i :: 0 <= i < |steps| ==>
      Enabled(p, states[i], steps[i]) && states[i + 1] == Next(p, states[i], steps[i]))
  }

  function Moves(steps: seq<Step>): nat {
    if steps == [] then 0 else Moves(steps[..|steps| - 1]) + if steps[|steps| - 1] == Interrupt then 0 else 1
  }

  lemma {:induction false} RunInv(p: Plan, steps: seq<Step>, states: seq<State>, n: nat)
    requires p.Valid() && IsRun(p, steps, states) && n <= |steps|
    ensures Inv(p, states[n]) && Story(p, states[n], Log(steps, states, n))
  {
    hide Inv, Story, Next, Enabled;
    if n == 0 {
      InitInv(p);
    } else {
      RunInv(p, steps, states, n - 1);
      assert Enabled(p, states[n - 1], steps[n - 1]) && states[n - 1 + 1] == Next(p, states[n - 1], steps[n - 1]);
      StepInv(p, states[n - 1], Log(steps, states, n - 1), steps[n - 1]);
    }
  }

  lemma {:induction false} MovesBound(p: Plan, steps: seq<Step>, states: seq<State>, n: nat)
    requires p.Valid() && IsRun(p, steps, states) && n <= |steps|
    ensures Moves(steps[..n]) + StepsLeft(p, states[n]) <= StepsLeft(p, Initial(p))
  {
    hide Next, StepsLeft, Enabled, Inv, MainInRange;
    if n > 0 {
      MovesBound(p, steps, states, n - 1);
      assert Enabled(p, states[n - 1], steps[n - 1]) && states[n - 1 + 1] == Next(p, states[n - 1], steps[n - 1]);
      InRange(p, steps, states, n - 1);
      StepsLeftShrinks(p, states[n - 1], steps[n - 1]);
      assert steps[..n][..n - 1] == steps[..n - 1];
    }
  }

  lemma InRange(p: Plan, steps: seq<Step>, states: seq<State>, n: nat)
    requires p.Valid() && IsRun(p, steps, states) && n <= |steps|
    ensures MainInRange(p, states[n])
  {
    RunInv(p, steps, states, n);
  }

  /** The invariant holds in every state of every run, and the number of moves a run can make is bounded
      before it starts. */
  lemma RunsAreBounded(p: Plan, steps: seq<Step>, states: seq<State>)
    requires p.Valid() && IsRun(p, steps, states)
    ensures forall i :: 0 <= i < |states| ==> Inv(p, states[i])
    ensures Moves(steps) <= StepsLeft(p, Initial(p))
    ensures Moves(steps) + StepsLeft(p, states[|steps|]) <= StepsLeft(p, Initial(p))
  {
    var last := states[|steps|];
    hide IsRun, Inv, StepsLeft, Enabled, MainInRange;
    forall i | 0 <= i < |states| ensures Inv(p, states[i]) {
      RunInv(p, steps, states, i);
    }
    MovesBound(p, steps, states, |steps|);
    assert steps[..|steps|] == steps;
    InRange(p, steps, states, |steps|);
    StepsLeftShrinks(p, last, Interrupt);
  }

  /** At every moment of every run: each dispatched job is in exactly one of the input queue, a worker's
      hands, the output queue and the collected list; and once a worker has returned, no job is left in
      the input queue. */
  lemma JobsAreNeverLost(p: Plan, steps: seq<Step>, states: seq<State>, i: nat, id: nat)
    requires p.Valid() && IsRun(p, steps, states) && i < |states|
    ensures Occurs(states[i].input, id, false) + Held(states[i].workers, id) + Occurs(states[i].output, id, true)
      + Occurs(states[i].collected, id, true) == if id < Dispatched(p, states[i]) then 1 else 0
    ensures (exists w :: 0 <= w < |states[i].workers| && states[i].workers[w].Exited?) ==>
      Occurs(states[i].input, id, false) == 0
  {
    hide Next, Enabled, StepsLeft;
    RunsAreBounded(p, steps, states);
    assert Places(states[i], id) == if id < Dispatched(p, states[i]) then 1 else 0;
    if w :| 0 <= w < |states[i].workers| && states[i].workers[w].Exited? {
      NotThere(states[i].input, id, false);
    }
  }

  /** A run that no thread can continue is over: collecting and joining have both finished. */
  lemma StuckMeansDone(p: Plan, steps: seq<Step>, states: seq<State>)
    requires p.Valid() && IsRun(p, steps, states)
    requires forall step :: Enabled(p, states[|steps|], step) ==> step == Interrupt
    ensures states[|steps|].main == Done
  {
    RunsAreBounded(p, steps, states);
    if states[|steps|].main != Done {
      var step := NoDeadlock(p, states[|steps|]);
    }
  }

  // ---------- the verdict

  /** The job was skipped, or ran and returned 0; it was not broken off. */
  predicate Good(job: Job) {
    !job.isBreak && (job.isSkip || job.returncode == 0)
  }

  lemma {:induction false} TallyBound(q: seq<Job>)
    ensures TallyOf(q).passed + TallyOf(q).skipped <= |q|
    ensures TallyOf(q).passed + TallyOf(q).skipped == |q| <==> forall i :: 0 <= i < |q| ==> Good(q[i])
  {
    if q != [] {
      TallyBound(q[..|q| - 1]);
    }
  }

  /** At the end every job has been collected exactly once. */
  lemma CollectedOnce(p: Plan, s: State)
    requires p.Valid() && Inv(p, s) && s.main == Done
    ensures forall id :: 0 <= id < |p.jobs| ==> Occurs(s.collected, id, true) == 1
  {
    forall id | 0 <= id < |p.jobs| ensures Occurs(s.collected, id, true) == 1 {
      assert Places(s, id) == 1;
      if Occurs(s.collected, id, true) == 0 {
        CollectedFull(p, s, id);
      }
    }
  }

  lemma CollectedFull(p: Plan, s: State, id: nat)
    requires p.Valid() && Inv(p, s) && s.main == Done && id < |p.jobs|
    ensures Occurs(s.collected, id, true) > 0
  {
    var ids := seq(|s.collected|, i requires 0 <= i < |s.collected| => s.collected[i].id);
    if Occurs(s.collected, id, true) == 0 {
      var others := Below(|p.jobs|) - {id};
      forall i, j | 0 <= i < j < |ids| ensures ids[i] != ids[j] {
        assert Places(s, ids[i]) <= 1;
        if ids[i] == ids[j] { OccursTwice(s.collected, i, j); }
      }
      forall i | 0 <= i < |ids| ensures ids[i] in others {
        OccursAt(s.collected, i, true);
        assert Places(s, ids[i]) >= 1;
      }
      DistinctFit(ids, others);
    }
  }

  lemma {:induction false} OccursTwice(q: seq<Job>, i: nat, j: nat)
    requires i < j < |q| && q[i].id == q[j].id
    ensures Occurs(q, q[i].id, true) >= 2
  {
    var front := q[..|q| - 1];
    if j == |q| - 1 {
      OccursAt(front, i, true);
    } else {
      OccursTwice(front, i, j);
    }
  }

  // ---------- the verdict on a run

  /** In step k a worker holding job id looks at thread_exit. */
  ghost predicate TakesUp(steps: seq<Step>, states: seq<State>, k: nat, id: nat)
    requires |steps| <= |states|
  {
    && k < |steps| && steps[k].WorkerStep? && steps[k].w < |states[k].workers|
    && states[k].workers[steps[k].w].Got? && states[k].workers[steps[k].w].job.id == id
  }

  /** In step k a worker is through with job id, which ended with the return code of the step. */
  ghost predicate Ends(steps: seq<Step>, states: seq<State>, k: nat, id: nat)
    requires |steps| <= |states|
  {
    && k < |steps| && steps[k].WorkerStep? && steps[k].w < |states[k].workers|
    && states[k].workers[steps[k].w].Running? && states[k].workers[steps[k].w].job.id == id
  }

  lemma LogStep(steps: seq<Step>, states: seq<State>, n: nat, id: nat)
    requires 0 < n <= |steps| <= |states|
    ensures var more := Entries(states[n - 1], steps[n - 1]);
      && |more| <= 1
      && Of(Log(steps, states, n), id) ==
         Of(Log(steps, states, n - 1), id) + if more != [] && more[0].id == id then more else []
  {
    var log, more := Log(steps, states, n - 1), Entries(states[n - 1], steps[n - 1]);
    if more == [] {
      assert log + more == log;
    } else {
      OfAppend(log, more[0], id);
    }
  }

  lemma {:induction false} Logged(steps: seq<Step>, states: seq<State>, n: nat, k: nat, e: Entry)
    requires k < n <= |steps| <= |states| && Entries(states[k], steps[k]) == [e]
    ensures e in Of(Log(steps, states, n), e.id)
  {
    hide Of, Log, Entries;
    LogStep(steps, states, n, e.id);
    if k < n - 1 {
      Logged(steps, states, n - 1, k, e);
    }
  }

  lemma {:induction false} LoggedBy(steps: seq<Step>, states: seq<State>, n: nat, id: nat, e: Entry) returns (k: nat)
    requires n <= |steps| <= |states| && e in Of(Log(steps, states, n), id)
    ensures k < n && Entries(states[k], steps[k]) == [e] && e.id == id
  {
    hide Of, Log, Entries;
    NothingLogged(steps, states, id);
    LogStep(steps, states, n, id);
    var earlier, more := Of(Log(steps, states, n - 1), id), Entries(states[n - 1], steps[n - 1]);
    if e in earlier {
      k := LoggedBy(steps, states, n - 1, id, e);
    } else {
      k := n - 1;
      assert more == [e];
    }
  }

  lemma NothingLogged(steps: seq<Step>, states: seq<State>, id: nat)
    requires |steps| <= |states|
    ensures Of(Log(steps, states, 0), id) == []
  {
  }

  /** No job is taken up twice, and none is run twice. */
  lemma OnceEach(p: Plan, steps: seq<Step>, states: seq<State>, id: nat, j: nat, k: nat)
    requires p.Valid() && IsRun(p, steps, states) && j < k
    ensures !(TakesUp(steps, states, j, id) && TakesUp(steps, states, k, id))
    ensures !(Ends(steps, states, j, id) && Ends(steps, states, k, id))
  {
    assert |states| == |steps| + 1;
    hide IsRun, Inv, Of, Log;
    if (TakesUp(steps, states, j, id) && TakesUp(steps, states, k, id))
      || (Ends(steps, states, j, id) && Ends(steps, states, k, id)) {
      RunInv(p, steps, states, k);
      assert WorkerStory(p, states[k].workers[steps[k].w], Log(steps, states, k));
      Logged(steps, states, k, j, Entries(states[j], steps[j])[0]);
    }
  }

  /** What a collected report says is what the run did: its job was taken up; it is reported as broken off
      exactly if thread_exit was set then; and otherwise a worker ended it, with the return code reported. */
  lemma ReportIsTrue(p: Plan, steps: seq<Step>, states: seq<State>, i: nat)
    requires p.Valid() && IsRun(p, steps, states) && i < |states[|steps|].collected|
    ensures var report := states[|steps|].collected[i];
      var id := report.id;
      && id < |p.jobs| && report.isSkip == p.jobs[id].isSkip
      && (exists k: nat :: TakesUp(steps, states, k, id))
      && (forall k: nat :: TakesUp(steps, states, k, id) ==> (report.isBreak <==> states[k].threadExit))
      && (report.isBreak <==> forall k: nat :: !Ends(steps, states, k, id))
      && (forall k: nat :: Ends(steps, states, k, id) && !report.isSkip ==> report.returncode == steps[k].returncode)
  {
    var n, report := |steps|, states[|steps|].collected[i];
    RunInv(p, steps, states, n);
    hide IsRun, Inv, Of, Log;
    assert Tells(p, report, Of(Log(steps, states, n), report.id));
    TakenUpOnce(p, steps, states, n, report);
    EndedOnce(p, steps, states, n, report);
  }

  lemma TakenUpOnce(p: Plan, steps: seq<Step>, states: seq<State>, n: nat, report: Job)
    requires p.Valid() && n == |steps| <= |states| && Tells(p, report, Of(Log(steps, states, n), report.id))
    ensures exists k: nat :: TakesUp(steps, states, k, report.id)
    ensures forall k: nat :: TakesUp(steps, states, k, report.id) ==> (report.isBreak <==> states[k].threadExit)
  {
    hide Of, Log;
    var done := Of(Log(steps, states, n), report.id);
    var first := LoggedBy(steps, states, n, report.id, done[0]);
    assert TakesUp(steps, states, first, report.id);
    forall k: nat | TakesUp(steps, states, k, report.id) ensures report.isBreak <==> states[k].threadExit {
      Logged(steps, states, n, k, TookUp(report.id, states[k].threadExit));
    }
  }

  lemma EndedOnce(p: Plan, steps: seq<Step>, states: seq<State>, n: nat, report: Job)
    requires p.Valid() && n == |steps| <= |states| && Tells(p, report, Of(Log(steps, states, n), report.id))
    ensures report.isBreak <==> forall k: nat :: !Ends(steps, states, k, report.id)
    ensures forall k: nat :: Ends(steps, states, k, report.id) && !report.isSkip ==>
      report.returncode == steps[k].returncode
  {
    hide Of, Log;
    var done := Of(Log(steps, states, n), report.id);
    forall k: nat | Ends(steps, states, k, report.id)
      ensures !report.isBreak && (!report.isSkip ==> report.returncode == steps[k].returncode)
    {
      Logged(steps, states, n, k, Ended(report.id, steps[k].returncode));
    }
    if !report.isBreak {
      var last := LoggedBy(steps, states, n, report.id, done[1]);
      assert Ends(steps, states, last, report.id);
    }
  }

  lemma {:induction false} FlagMeansInterrupt(p: Plan, steps: seq<Step>, states: seq<State>, n: nat)
    requires IsRun(p, steps, states) && n <= |steps|
    ensures states[n].threadExit <==> Interrupt in steps[..n]
  {
    if n > 0 {
      FlagMeansInterrupt(p, steps, states, n - 1);
      assert steps[..n] == steps[..n - 1] + [steps[n - 1]];
      assert states[n - 1 + 1] == Next(p, states[n - 1], steps[n - 1]);
    }
  }

  /** The job met no interrupt, and it was skipped or some worker ran it to return code 0. */
  ghost predicate WentWell(p: Plan, steps: seq<Step>, states: seq<State>, id: nat)
    requires |steps| <= |states| && id < |p.jobs|
  {
    && (forall k: nat :: TakesUp(steps, states, k, id) ==> Interrupt !in steps[..k])
    && (p.jobs[id].isSkip || exists k: nat :: Ends(steps, states, k, id) && steps[k].returncode == 0)
  }

  /** A report is good exactly if its job went well. */
  lemma GoodReport(p: Plan, steps: seq<Step>, states: seq<State>, i: nat)
    requires p.Valid() && IsRun(p, steps, states) && i < |states[|steps|].collected|
    ensures var report := states[|steps|].collected[i];
      report.id < |p.jobs| && (Good(report) <==> WentWell(p, steps, states, report.id))
  {
    var id := states[|steps|].collected[i].id;
    ReportIsTrue(p, steps, states, i);
    forall k: nat | TakesUp(steps, states, k, id) ensures states[k].threadExit <==> Interrupt in steps[..k] {
      FlagMeansInterrupt(p, steps, states, k);
    }
    hide IsRun;
  }

  lemma {:induction false} OccursSomewhere(q: seq<Job>, id: nat) returns (i: nat)
    requires Occurs(q, id, true) > 0
    ensures i < |q| && q[i].id == id
  {
    i := |q| - 1;
    if q[i].id != id {
      i := OccursSomewhere(q[..|q| - 1], id);
    }
  }

  /** A run that is over returns 0 exactly if every job that was dispatched met no interrupt and was skipped
      or run to return code 0: none failed, crashed, had a valgrind error or was broken off. */
  lemma Verdict(p: Plan, steps: seq<Step>, states: seq<State>)
    requires p.Valid() && IsRun(p, steps, states) && states[|steps|].main == Done
    ensures forall id :: 0 <= id < |p.jobs| ==> Occurs(states[|steps|].collected, id, true) == 1
    ensures ExitCode(p, states[|steps|]) == 0 <==> forall id :: 0 <= id < |p.jobs| ==> WentWell(p, steps, states, id)
  {
    var s := states[|steps|];
    hide IsRun, WentWell, Good, Places, Occurs, TallyOf;
    RunInv(p, steps, states, |steps|);
    CollectedOnce(p, s);
    TallyBound(s.collected);
    forall i | 0 <= i < |s.collected|
      ensures s.collected[i].id < |p.jobs| && (Good(s.collected[i]) <==> WentWell(p, steps, states, s.collected[i].id))
    {
      GoodReport(p, steps, states, i);
    }
    if ExitCode(p, s) == 0 {
      forall id | 0 <= id < |p.jobs| ensures WentWell(p, steps, states, id) {
        var i := OccursSomewhere(s.collected, id);
        assert Good(s.collected[i]);
      }
    }
  }

  // ---------- the summary

  /** The positions of the reports that are as `what` says. */
  ghost function Where(q: seq<Job>, what: Job -> bool): set<nat> {
    set i | 0 <= i < |q| && what(q[i])
  }

  /** The job was run, and ended with this return code. */
  predicate RanTo(job: Job, returncode: int) {
    !job.isBreak && !job.isSkip && job.returncode == returncode
  }

  /** Each counter is the number of the reports it is meant for; reports of jobs broken off are in none. */
  ghost predicate CountsAll(q: seq<Job>, t: Tally) {
    && t.passed == |Where(q, (job: Job) => RanTo(job, 0))|
    && t.failed == |Where(q, (job: Job) => RanTo(job, 1))|
    && t.valgrind == |Where(q, (job: Job) => RanTo(job, 2))|
    && t.crashed == |Where(q, (job: Job) => !job.isBreak && !job.isSkip && job.returncode !in {0, 1, 2})|
    && t.skipped == |Where(q, (job: Job) => !job.isBreak && job.isSkip)|
  }

  lemma WhereMore(q: seq<Job>, what: Job -> bool)
    requires q != []
    ensures |Where(q, what)| == |Where(q[..|q| - 1], what)| + if what(q[|q| - 1]) then 1 else 0
  {
    var front, n := q[..|q| - 1], |q| - 1;
    assert Where(q, what) == Where(front, what) + if what(q[n]) then {n} else {};
  }

  lemma {:induction false} TallyCounts(q: seq<Job>)
    ensures CountsAll(q, TallyOf(q))
  {
    if q != [] {
      TallyCounts(q[..|q| - 1]);
      WhereMore(q, (job: Job) => RanTo(job, 0));
      WhereMore(q, (job: Job) => RanTo(job, 1));
      WhereMore(q, (job: Job) => RanTo(job, 2));
      WhereMore(q, (job: Job) => !job.isBreak && !job.isSkip && job.returncode !in {0, 1, 2});
      WhereMore(q, (job: Job) => !job.isBreak && job.isSkip);
      hide Where;
    }
  }

  /** The counters the summary prints, at every moment of every run. */
  lemma SummaryIsRight(p: Plan, steps: seq<Step>, states: seq<State>, n: nat)
    requires p.Valid() && IsRun(p, steps, states) && n <= |steps|
    ensures CountsAll(states[n].collected, states[n].tally)
  {
    RunInv(p, steps, states, n);
    TallyCounts(states[n].collected);
  }

  /** Lines 1679-1720 and 1909-1912: collecting the reports and judging them. */
  method CollectAndJudge(reports: seq<Job>) returns (code: int, tally: Tally)
    ensures code == 0 <==> forall i :: 0 <= i < |reports| ==> Good(reports[i])
    ensures code == 0 || code == 1
    ensures CountsAll(reports, tally)
  {
    hide CountsAll;
    var passedTests, failedTests, skippedTests, crashedTests, valgrindErrors := 0, 0, 0, 0, 0;
    for i := 0 to |reports|
      invariant TallyOf(reports[..i]) == Tally(passedTests, failedTests, crashedTests, valgrindErrors, skippedTests)
    {
      var job := reports[i];
      TakeOneMore(reports, i);
      assert reports[..i + 1][..i] == reports[..i];
      if job.isBreak {
        continue;
      }
      if job.isSkip {
        skippedTests := skippedTests + 1;
      } else {
        if job.returncode == 0 {
          passedTests := passedTests + 1;
        } else if job.returncode == 1 {
          failedTests := failedTests + 1;
        } else if job.returncode == 2 {
          valgrindErrors := valgrindErrors + 1;
        } else {
          crashedTests := crashedTests + 1;
        }
      }
    }
    assert reports[..|reports|] == reports;
    TallyBound(reports);
    TallyCounts(reports);
    tally := Tally(passedTests, failedTests, crashedTests, valgrindErrors, skippedTests);
    code := if passedTests + skippedTests == |reports| then 0 else 1;
  }
}
