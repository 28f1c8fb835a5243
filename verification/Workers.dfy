/** test.py: jobs, worker threads and the two queues between them and the main thread, step by step. */
module Workers {
  datatype Job = Job(id: nat, skip: bool)

  /** What the main thread puts into the input queue: jobs, then one stop token for every worker. */
  datatype Item = Work(job: Job) | Stop

  datatype Worker = Waiting | Holding(job: Job) | Running(job: Job) | Gone

  datatype Outcome = Interrupted | Skipped | Ran(code: int)

  datatype Result = Result(job: Job, outcome: Outcome)

  datatype State = State(
    todo: seq<Item>, input: seq<Item>, workers: seq<Worker>,
    output: seq<Result>, collected: seq<Result>, interrupted: bool)

  /** Steps of the main thread (Put, Collect), of worker `w` (Take, Check, Complete) and of the signal handler. */
  datatype Step = Put | Take(w: nat) | Check(w: nat) | Complete(w: nat, code: int) | Collect | Interrupt

  function Works(jobs: seq<Job>): seq<Item> { seq(|jobs|, i requires 0 <= i < |jobs| => Work(jobs[i])) }

  function Start(jobs: seq<Job>, n: nat): State {
    State(Works(jobs) + seq(n, _ => Stop), [], seq(n, _ => Waiting), [], [], false)
  }

  /** `total` is the number of jobs: the main thread collects as many results. */
  predicate Enabled(s: State, total: nat, step: Step) {
    match step
    case Put => s.todo != []
    case Take(w) => w < |s.workers| && s.workers[w] == Waiting && s.input != []
    case Check(w) => w < |s.workers| && s.workers[w].Holding?
    case Complete(w, _) => w < |s.workers| && s.workers[w].Running?
    case Collect => s.todo == [] && s.output != [] && |s.collected| < total
    case Interrupt => !s.interrupted
  }

  function Next(s: State, total: nat, step: Step): State
    requires Enabled(s, total, step)
  {
    match step
    case Put => s.(todo := s.todo[1..], input := s.input + [s.todo[0]])
    case Take(w) =>
      s.(input := s.input[1..],
         workers := s.workers[w := match s.input[0] case Work(job) => Holding(job) case Stop => Gone])
    case Check(w) =>
      var job := s.workers[w].job;
      if s.interrupted then Report(s, w, Result(job, Interrupted))
      else if job.skip then Report(s, w, Result(job, Skipped))
      else s.(workers := s.workers[w := Running(job)])
    case Complete(w, code) => Report(s, w, Result(s.workers[w].job, Ran(code)))
    case Collect => s.(output := s.output[1..], collected := s.collected + [s.output[0]])
    case Interrupt => s.(interrupted := true)
  }

  function Report(s: State, w: nat, r: Result): State
    requires w < |s.workers|
  {
    s.(workers := s.workers[w := Waiting], output := s.output + [r])
  }

  // ---------- where the jobs are ----------

  /** What to count: one job, or all of them. */
  datatype Which = Every | Only(job: Job)

  function One(c: Which, job: Job): nat { if c == Every || c == Only(job) then 1 else 0 }

  function Queued(c: Which, q: seq<Item>): nat {
    if q == [] then 0
    else Queued(c, q[..|q| - 1]) + match q[|q| - 1] case Work(job) => One(c, job) case Stop => 0
  }

  function Stops(q: seq<Item>): nat {
    if q == [] then 0 else Stops(q[..|q| - 1]) + if q[|q| - 1].Stop? then 1 else 0
  }

  function Reported(c: Which, rs: seq<Result>): nat {
    if rs == [] then 0 else Reported(c, rs[..|rs| - 1]) + One(c, rs[|rs| - 1].job)
  }

  function HeldBy(c: Which, w: Worker): nat {
    match w
    case Holding(job) => One(c, job)
    case Running(job) => One(c, job)
    case _ => 0
  }

  function Held(c: Which, ws: seq<Worker>): nat {
    if ws == [] then 0 else Held(c, ws[..|ws| - 1]) + HeldBy(c, ws[|ws| - 1])
  }

  function GoneIn(ws: seq<Worker>): nat {
    if ws == [] then 0 else GoneIn(ws[..|ws| - 1]) + if ws[|ws| - 1].Gone? then 1 else 0
  }

  function Given(c: Which, jobs: seq<Job>): nat {
    if jobs == [] then 0 else Given(c, jobs[..|jobs| - 1]) + One(c, jobs[|jobs| - 1])
  }

  lemma {:induction false} QueueFirst(c: Which, x: Item, q: seq<Item>)
    ensures Queued(c, [x] + q) == Queued(c, q) + match x case Work(job) => One(c, job) case Stop => 0
    ensures Stops([x] + q) == Stops(q) + if x.Stop? then 1 else 0
  {
    if q == [] {
      assert [x] + q == [x];
    } else {
      QueueFirst(c, x, q[..|q| - 1]);
      assert ([x] + q)[..|q|] == [x] + q[..|q| - 1];
    }
  }

  lemma {:induction false} QueueConcat(c: Which, a: seq<Item>, b: seq<Item>)
    ensures Queued(c, a + b) == Queued(c, a) + Queued(c, b) && Stops(a + b) == Stops(a) + Stops(b)
  {
    if b == [] {
      assert a + b == a;
    } else {
      QueueConcat(c, a, b[..|b| - 1]);
      assert (a + b)[..|a + b| - 1] == a + b[..|b| - 1];
    }
  }

  lemma ReportLast(c: Which, rs: seq<Result>, r: Result)
    ensures Reported(c, rs + [r]) == Reported(c, rs) + One(c, r.job)
  {
    assert (rs + [r])[..|rs|] == rs;
  }

  lemma {:induction false} ReportFirst(c: Which, rs: seq<Result>)
    requires rs != []
    ensures Reported(c, rs) == Reported(c, rs[1..]) + One(c, rs[0].job)
  {
    if |rs| > 1 {
      ReportFirst(c, rs[..|rs| - 1]);
      assert rs[..|rs| - 1][1..] == rs[1..][..|rs| - 2];
    }
  }

  lemma {:induction false} WorkerUpdate(c: Which, ws: seq<Worker>, w: nat, x: Worker)
    requires w < |ws|
    ensures Held(c, ws[w := x]) == Held(c, ws) - HeldBy(c, ws[w]) + HeldBy(c, x)
    ensures GoneIn(ws[w := x]) == GoneIn(ws) - (if ws[w].Gone? then 1 else 0) + if x.Gone? then 1 else 0
  {
    var n := |ws| - 1;
    if w == n {
      assert ws[w := x][..n] == ws[..n];
    } else {
      assert ws[w := x][..n] == ws[..n][w := x];
      WorkerUpdate(c, ws[..n], w, x);
    }
  }

  /** The queue as a whole, with what is still to be put. */
  function Queue(s: State): seq<Item> { s.input + s.todo }

  predicate OnlyStops(q: seq<Item>) { forall i :: 0 <= i < |q| ==> q[i].Stop? }

  predicate StopsLast(q: seq<Item>) {
    forall i, j :: 0 <= i < j < |q| && q[i].Stop? ==> q[j].Stop?
  }

  /** Of the jobs counted by `c`, each is in one place; stop tokens and absent workers make up the `n` workers;
      stop tokens come last, and no worker is gone while a job is queued. */
  ghost predicate Inv(s: State, c: Which, jobs: nat, n: nat) {
    && |s.workers| == n
    && Queued(c, Queue(s)) + Held(c, s.workers) + Reported(c, s.output) + Reported(c, s.collected) == jobs
    && Stops(Queue(s)) + GoneIn(s.workers) == n
    && StopsLast(Queue(s))
    && (GoneIn(s.workers) > 0 ==> OnlyStops(Queue(s)))
  }

  lemma TakeKeeps(s: State, total: nat, w: nat, c: Which, jobs: nat, n: nat)
    requires Inv(s, c, jobs, n) && Enabled(s, total, Take(w))
    ensures Inv(Next(s, total, Take(w)), c, jobs, n)
  {
    var t := Next(s, total, Take(w));
    var q, r := Queue(s), Queue(t);
    assert q == [s.input[0]] + r;
    QueueFirst(c, s.input[0], r);
    WorkerUpdate(c, s.workers, w, t.workers[w]);
    StopsTail(s.input[0], r);
  }

  lemma StopsTail(x: Item, r: seq<Item>)
    requires StopsLast([x] + r)
    ensures StopsLast(r) && (x.Stop? ==> OnlyStops(r)) && (OnlyStops([x] + r) ==> OnlyStops(r))
  {
    var q := [x] + r;
    assert forall i :: 0 <= i < |r| ==> r[i] == q[i + 1];
    assert q[0] == x;
  }

  lemma WorkerKeeps(s: State, total: nat, step: Step, c: Which, jobs: nat, n: nat)
    requires Inv(s, c, jobs, n) && Enabled(s, total, step) && (step.Check? || step.Complete?)
    ensures Inv(Next(s, total, step), c, jobs, n)
  {
    var t := Next(s, total, step);
    WorkerUpdate(c, s.workers, step.w, t.workers[step.w]);
    assert Queue(t) == Queue(s) && t.collected == s.collected;
    var x := t.workers[step.w];
    if x.Running? {
      assert t.output == s.output;
    } else {
      assert t.output == s.output + [t.output[|s.output|]];
      ReportLast(c, s.output, t.output[|s.output|]);
    }
  }

  lemma MainKeeps(s: State, total: nat, step: Step, c: Which, jobs: nat, n: nat)
    requires Inv(s, c, jobs, n) && Enabled(s, total, step) && (step.Put? || step.Collect? || step.Interrupt?)
    ensures Inv(Next(s, total, step), c, jobs, n)
  {
    var t := Next(s, total, step);
    if step.Collect? {
      ReportFirst(c, s.output);
      ReportLast(c, s.collected, s.output[0]);
    }
    assert Queue(t) == Queue(s);
  }

  // ---------- runs ----------

  ghost predicate Legal(jobs: seq<Job>, n: nat, steps: seq<Step>)
    decreases |steps|, 0
  {
    steps == [] || (Legal(jobs, n, steps[..|steps| - 1])
                    && Enabled(Run(jobs, n, steps[..|steps| - 1]), |jobs|, steps[|steps| - 1]))
  }

  ghost function Run(jobs: seq<Job>, n: nat, steps: seq<Step>): State
    requires Legal(jobs, n, steps)
    decreases |steps|, 1
  {
    if steps == [] then Start(jobs, n)
    else Next(Run(jobs, n, steps[..|steps| - 1]), |jobs|, steps[|steps| - 1])
  }

  lemma {:induction false} WorksCount(c: Which, jobs: seq<Job>)
    ensures Queued(c, Works(jobs)) == Given(c, jobs) && Stops(Works(jobs)) == 0
  {
    if jobs != [] {
      WorksCount(c, jobs[..|jobs| - 1]);
      assert Works(jobs)[..|jobs| - 1] == Works(jobs[..|jobs| - 1]);
    }
  }

  lemma {:induction false} StopsCount(c: Which, q: seq<Item>)
    requires OnlyStops(q)
    ensures Queued(c, q) == 0 && Stops(q) == |q|
  {
    if q != [] { StopsCount(c, q[..|q| - 1]); }
  }

  lemma {:induction false} NobodyWorking(c: Which, ws: seq<Worker>)
    requires forall w :: 0 <= w < |ws| ==> !ws[w].Holding? && !ws[w].Running?
    ensures Held(c, ws) == 0
    ensures GoneIn(ws) <= |ws| && (GoneIn(ws) == |ws| <==> forall w :: 0 <= w < |ws| ==> ws[w].Gone?)
    ensures GoneIn(ws) == 0 <==> forall w :: 0 <= w < |ws| ==> !ws[w].Gone?
  {
    if ws != [] {
      var r := ws[..|ws| - 1];
      NobodyWorking(c, r);
      assert forall w :: 0 <= w < |r| ==> r[w] == ws[w];
    }
  }

  lemma StartInv(jobs: seq<Job>, n: nat, c: Which)
    ensures Inv(Start(jobs, n), c, Given(c, jobs), n)
  {
    var s := Start(jobs, n);
    var q := seq(n, _ => Stop);
    assert Queue(s) == Works(jobs) + q;
    QueueConcat(c, Works(jobs), q);
    WorksCount(c, jobs);
    StopsCount(c, q);
    NobodyWorking(c, s.workers);
  }

  /** In every run each job is in exactly one place, every worker takes one stop token at most, and a worker is
      gone only when no job is left in the queue. */
  lemma {:induction false} RunKeepsInv(jobs: seq<Job>, n: nat, steps: seq<Step>, c: Which)
    requires Legal(jobs, n, steps)
    ensures Inv(Run(jobs, n, steps), c, Given(c, jobs), n)
    decreases |steps|
  {
    if steps == [] {
      StartInv(jobs, n, c);
    } else {
      var s, step := Run(jobs, n, steps[..|steps| - 1]), steps[|steps| - 1];
      RunKeepsInv(jobs, n, steps[..|steps| - 1], c);
      if step.Take? {
        TakeKeeps(s, |jobs|, step.w, c, Given(c, jobs), n);
      } else if step.Check? || step.Complete? {
        WorkerKeeps(s, |jobs|, step, c, Given(c, jobs), n);
      } else {
        MainKeeps(s, |jobs|, step, c, Given(c, jobs), n);
      }
    }
  }

  // ---------- termination ----------

  function Weight(w: Worker): nat {
    match w
    case Holding(_) => 3
    case Running(_) => 2
    case _ => 0
  }

  function Weights(ws: seq<Worker>): nat {
    if ws == [] then 0 else Weights(ws[..|ws| - 1]) + Weight(ws[|ws| - 1])
  }

  lemma {:induction false} WeightUpdate(ws: seq<Worker>, w: nat, x: Worker)
    requires w < |ws|
    ensures Weights(ws[w := x]) == Weights(ws) - Weight(ws[w]) + Weight(x)
  {
    var n := |ws| - 1;
    if w == n {
      assert ws[w := x][..n] == ws[..n];
    } else {
      assert ws[w := x][..n] == ws[..n][w := x];
      WeightUpdate(ws[..n], w, x);
    }
  }

  function Measure(s: State): nat {
    6 * |s.todo| + 5 * |s.input| + Weights(s.workers) + |s.output| + if s.interrupted then 0 else 1
  }

  lemma StepDescends(s: State, total: nat, step: Step)
    requires Enabled(s, total, step)
    ensures Measure(Next(s, total, step)) < Measure(s)
  {
    if step.Take? || step.Check? || step.Complete? {
      WeightUpdate(s.workers, step.w, Next(s, total, step).workers[step.w]);
    }
  }

  lemma {:induction false} NoWeight(n: nat)
    ensures Weights(seq(n, _ => Waiting)) == 0
  {
    if n > 0 {
      NoWeight(n - 1);
      assert seq(n, _ => Waiting)[..n - 1] == seq(n - 1, _ => Waiting);
    }
  }

  /** No interleaving goes on for more than 6 steps for every job and worker, and the interruption. */
  lemma {:induction false} RunsEnd(jobs: seq<Job>, n: nat, steps: seq<Step>)
    requires Legal(jobs, n, steps)
    ensures |steps| + Measure(Run(jobs, n, steps)) <= 6 * (|jobs| + n) + 1
    decreases |steps|
  {
    if steps == [] {
      NoWeight(n);
    } else {
      RunsEnd(jobs, n, steps[..|steps| - 1]);
      StepDescends(Run(jobs, n, steps[..|steps| - 1]), |jobs|, steps[|steps| - 1]);
    }
  }

  /** Nothing but the signal handler can do a step. */
  ghost predicate Stuck(s: State, total: nat) {
    forall step: Step :: !step.Interrupt? ==> !Enabled(s, total, step)
  }

  lemma {:induction false} EveryCounts(rs: seq<Result>, jobs: seq<Job>)
    ensures Reported(Every, rs) == |rs| && Given(Every, jobs) == |jobs|
    decreases |rs| + |jobs|
  {
    if rs != [] {
      EveryCounts(rs[..|rs| - 1], jobs);
    } else if jobs != [] {
      EveryCounts(rs, jobs[..|jobs| - 1]);
    }
  }

  /** A state in which only the signal handler can do a step has no worker left, and nothing on its way. */
  lemma StuckIsEmpty(s: State, n: nat, total: nat)
    requires n > 0 && Inv(s, Every, total, n) && Stuck(s, total)
    ensures s.todo == [] && s.input == [] && s.output == [] && |s.workers| == n
    ensures forall w :: 0 <= w < n ==> s.workers[w] == Gone
  {
    assert !Enabled(s, total, Put) && !Enabled(s, total, Collect);
    forall w | 0 <= w < n
      ensures !s.workers[w].Holding? && !s.workers[w].Running? && (s.workers[w].Gone? || s.input == [])
    {
      assert !Enabled(s, total, Check(w)) && !Enabled(s, total, Complete(w, 0)) && !Enabled(s, total, Take(w));
    }
    NobodyWorking(Every, s.workers);
    assert Queue(s) == s.input;
    if OnlyStops(s.input) { StopsCount(Every, s.input); }
    EveryCounts(s.output, []);
    EveryCounts(s.collected, []);
  }

  /** Every run can go on until all workers are gone and exactly one result for every job has been collected. */
  lemma StuckIsDone(jobs: seq<Job>, n: nat, steps: seq<Step>, job: Job)
    requires Legal(jobs, n, steps) && n > 0 && Stuck(Run(jobs, n, steps), |jobs|)
    ensures var s := Run(jobs, n, steps);
            && s.todo == [] && s.input == [] && s.output == [] && |s.workers| == n
            && (forall w :: 0 <= w < n ==> s.workers[w] == Gone)
            && |s.collected| == |jobs| && Reported(Only(job), s.collected) == Given(Only(job), jobs)
  {
    var s := Run(jobs, n, steps);
    RunKeepsInv(jobs, n, steps, Every);
    EveryCounts(s.collected, jobs);
    StuckIsEmpty(s, n, |jobs|);
    RunKeepsInv(jobs, n, steps, Only(job));
    NobodyWorking(Every, s.workers);
    NobodyWorking(Only(job), s.workers);
  }

  // ---------- results ----------

  /** Jobs marked to be skipped are never run, and jobs are given up only after an interruption. */
  predicate Sound(rs: seq<Result>, interrupted: bool) {
    forall i {:trigger rs[i]} :: 0 <= i < |rs| ==>
      match rs[i].outcome
      case Interrupted => interrupted
      case Skipped => rs[i].job.skip
      case Ran(_) => !rs[i].job.skip
  }

  lemma {:induction false} ResultsSound(jobs: seq<Job>, n: nat, steps: seq<Step>)
    requires Legal(jobs, n, steps)
    ensures var s := Run(jobs, n, steps);
            && Sound(s.output, s.interrupted) && Sound(s.collected, s.interrupted)
            && forall w :: 0 <= w < |s.workers| && s.workers[w].Running? ==> !s.workers[w].job.skip
    decreases |steps|
  {
    if steps != [] { ResultsSound(jobs, n, steps[..|steps| - 1]); }
  }

  lemma {:induction false} PrefixLegal(jobs: seq<Job>, n: nat, steps: seq<Step>, k: nat)
    requires Legal(jobs, n, steps) && k <= |steps|
    ensures Legal(jobs, n, steps[..k])
    decreases |steps|
  {
    if k == |steps| {
      assert steps[..k] == steps;
    } else {
      PrefixLegal(jobs, n, steps[..|steps| - 1], k);
      assert steps[..|steps| - 1][..k] == steps[..k];
    }
  }

  lemma InterruptStep(s: State, total: nat, step: Step)
    requires Enabled(s, total, step)
    ensures Next(s, total, step).interrupted == (s.interrupted || step == Interrupt)
  {
  }

  lemma {:induction false} InterruptSeen(jobs: seq<Job>, n: nat, steps: seq<Step>)
    requires Legal(jobs, n, steps)
    ensures Run(jobs, n, steps).interrupted <==> Interrupt in steps
    decreases |steps|
  {
    if steps != [] {
      InterruptSeen(jobs, n, steps[..|steps| - 1]);
      InterruptStep(Run(jobs, n, steps[..|steps| - 1]), |jobs|, steps[|steps| - 1]);
      assert steps == steps[..|steps| - 1] + [steps[|steps| - 1]];
    }
  }

  /** What worker `w` does at step `k`, and with which job. */
  ghost predicate At(jobs: seq<Job>, n: nat, steps: seq<Step>, k: nat, w: nat, worker: Worker, step: Step)
    requires Legal(jobs, n, steps)
  {
    k < |steps| && Legal(jobs, n, steps[..k]) && w < |Run(jobs, n, steps[..k]).workers|
    && Run(jobs, n, steps[..k]).workers[w] == worker && steps[k] == step
  }

  lemma AtEarlier(jobs: seq<Job>, n: nat, steps: seq<Step>, k: nat, w: nat, worker: Worker, step: Step)
    requires Legal(jobs, n, steps) && steps != [] && At(jobs, n, steps[..|steps| - 1], k, w, worker, step)
    ensures At(jobs, n, steps, k, w, worker, step) && steps[..|steps| - 1][..k] == steps[..k]
  {
    assert steps[..|steps| - 1][..k] == steps[..k];
  }

  /** A job is run only if it was looked at before any interruption, and is not to be skipped. */
  lemma {:induction false} RunningWasChecked(jobs: seq<Job>, n: nat, steps: seq<Step>, w: nat) returns (k: nat)
    requires Legal(jobs, n, steps) && w < |Run(jobs, n, steps).workers| && Run(jobs, n, steps).workers[w].Running?
    ensures var job := Run(jobs, n, steps).workers[w].job;
            At(jobs, n, steps, k, w, Holding(job), Check(w)) && Interrupt !in steps[..k] && !job.skip
    decreases |steps|
  {
    var b, step := steps[..|steps| - 1], steps[|steps| - 1];
    if step == Check(w) {
      k := |steps| - 1;
      InterruptSeen(jobs, n, b);
    } else {
      k := RunningWasChecked(jobs, n, b, w);
      AtEarlier(jobs, n, steps, k, w, Holding(Run(jobs, n, steps).workers[w].job), Check(w));
    }
  }

  /** Step `k` is where the result comes from: a job looked at after the interruption is given up, one to be skipped
      is skipped, and one that was run has the code that it ended with. */
  ghost predicate Origin(jobs: seq<Job>, n: nat, steps: seq<Step>, k: nat, r: Result)
    requires Legal(jobs, n, steps)
  {
    match r.outcome
    case Interrupted => exists w :: At(jobs, n, steps, k, w, Holding(r.job), Check(w)) && Interrupt in steps[..k]
    case Skipped =>
      r.job.skip && exists w :: At(jobs, n, steps, k, w, Holding(r.job), Check(w)) && Interrupt !in steps[..k]
    case Ran(code) => exists w :: At(jobs, n, steps, k, w, Running(r.job), Complete(w, code))
  }

  /** The results in the order of the steps they come from. */
  function Results(s: State): seq<Result> { s.collected + s.output }

  lemma OriginEarlier(jobs: seq<Job>, n: nat, steps: seq<Step>, k: nat, r: Result)
    requires Legal(jobs, n, steps) && steps != [] && Origin(jobs, n, steps[..|steps| - 1], k, r)
    ensures Origin(jobs, n, steps, k, r)
  {
    var b := steps[..|steps| - 1];
    match r.outcome
    case Ran(code) =>
      var w :| At(jobs, n, b, k, w, Running(r.job), Complete(w, code));
      AtEarlier(jobs, n, steps, k, w, Running(r.job), Complete(w, code));
    case _ =>
      var w :| At(jobs, n, b, k, w, Holding(r.job), Check(w));
      AtEarlier(jobs, n, steps, k, w, Holding(r.job), Check(w));
  }

  /** The result that a step adds, if any. */
  function Added(s: State, total: nat, step: Step): seq<Result>
    requires Enabled(s, total, step)
  {
    match step
    case Check(w) =>
      var job := s.workers[w].job;
      if s.interrupted then [Result(job, Interrupted)] else if job.skip then [Result(job, Skipped)] else []
    case Complete(w, code) => [Result(s.workers[w].job, Ran(code))]
    case _ => []
  }

  lemma ResultsStep(s: State, total: nat, step: Step)
    requires Enabled(s, total, step)
    ensures Results(Next(s, total, step)) == Results(s) + Added(s, total, step)
  {
    if step.Collect? { assert s.output == [s.output[0]] + s.output[1..]; }
  }

  lemma NewResult(jobs: seq<Job>, n: nat, steps: seq<Step>)
    requires Legal(jobs, n, steps) && steps != []
    ensures var s, step := Run(jobs, n, steps[..|steps| - 1]), steps[|steps| - 1];
            && Results(Run(jobs, n, steps)) == Results(s) + Added(s, |jobs|, step)
            && forall i :: 0 <= i < |Added(s, |jobs|, step)| ==>
                 Origin(jobs, n, steps, |steps| - 1, Added(s, |jobs|, step)[i])
  {
    var b, step := steps[..|steps| - 1], steps[|steps| - 1];
    var s := Run(jobs, n, b);
    ResultsStep(s, |jobs|, step);
    if step.Check? || step.Complete? {
      InterruptSeen(jobs, n, b);
      assert At(jobs, n, steps, |b|, step.w, s.workers[step.w], step);
    }
  }

  /** Every result on its way or collected has such an origin. */
  lemma {:induction false} ResultsHaveOrigins(jobs: seq<Job>, n: nat, steps: seq<Step>, i: nat) returns (k: nat)
    requires Legal(jobs, n, steps) && i < |Results(Run(jobs, n, steps))|
    ensures Origin(jobs, n, steps, k, Results(Run(jobs, n, steps))[i])
    decreases |steps|
  {
    var was, now := Results(Run(jobs, n, steps[..|steps| - 1])), Results(Run(jobs, n, steps));
    NewResult(jobs, n, steps);
    if i < |was| {
      k := ResultsHaveOrigins(jobs, n, steps[..|steps| - 1], i);
      assert was[i] == now[i];
      OriginEarlier(jobs, n, steps, k, was[i]);
    } else {
      k := |steps| - 1;
      assert now[i] == Added(Run(jobs, n, steps[..k]), |jobs|, steps[k])[i - |was|];
    }
  }

  function Count(rs: seq<Result>, kind: Result -> bool): nat {
    if rs == [] then 0 else Count(rs[..|rs| - 1], kind) + if kind(rs[|rs| - 1]) then 1 else 0
  }

  datatype Tally = Tally(passed: nat, failed: nat, valgrind: nat, crashed: nat, skipped: nat)

  lemma CountLast(rs: seq<Result>, i: nat, kind: Result -> bool)
    requires i < |rs|
    ensures Count(rs[..i + 1], kind) == Count(rs[..i], kind) + if kind(rs[i]) then 1 else 0
  {
    assert rs[..i + 1][..i] == rs[..i];
  }

  /** Every result is of one kind. */
  lemma {:induction false} AllCounted(rs: seq<Result>, skipped: Result -> bool, passed: Result -> bool,
                                      failed: Result -> bool, valgrind: Result -> bool, crashed: Result -> bool,
                                      interrupted: Result -> bool)
    requires forall r :: skipped(r) == (r.outcome == Skipped) && passed(r) == (r.outcome == Ran(0))
    requires forall r :: failed(r) == (r.outcome == Ran(1)) && valgrind(r) == (r.outcome == Ran(2))
    requires forall r :: crashed(r) == (r.outcome.Ran? && (r.outcome.code < 0 || r.outcome.code > 2))
    requires forall r :: interrupted(r) == r.outcome.Interrupted?
    ensures Count(rs, passed) + Count(rs, failed) + Count(rs, valgrind) + Count(rs, crashed) + Count(rs, skipped)
            == |rs| - Count(rs, interrupted)
    ensures Count(rs, passed) + Count(rs, skipped) <= |rs|
    ensures Count(rs, passed) + Count(rs, skipped) == |rs| <==>
              forall i :: 0 <= i < |rs| ==> rs[i].outcome == Skipped || rs[i].outcome == Ran(0)
  {
    if rs != [] {
      AllCounted(rs[..|rs| - 1], skipped, passed, failed, valgrind, crashed, interrupted);
      assert forall i :: 0 <= i < |rs| - 1 ==> rs[..|rs| - 1][i] == rs[i];
    }
  }

  /** The loop of run_tests over the results: each is counted under what became of it, interrupted jobs not at all. */
  method TallyResults(rs: seq<Result>) returns (t: Tally)
    ensures t.skipped == Count(rs, (r: Result) => r.outcome == Skipped)
    ensures t.passed == Count(rs, (r: Result) => r.outcome == Ran(0))
    ensures t.failed == Count(rs, (r: Result) => r.outcome == Ran(1))
    ensures t.valgrind == Count(rs, (r: Result) => r.outcome == Ran(2))
    ensures t.crashed == Count(rs, (r: Result) => r.outcome.Ran? && (r.outcome.code < 0 || r.outcome.code > 2))
    ensures t.passed + t.failed + t.valgrind + t.crashed + t.skipped
            == |rs| - Count(rs, (r: Result) => r.outcome.Interrupted?)
    ensures t.passed + t.skipped == |rs| <==>
              forall i :: 0 <= i < |rs| ==> rs[i].outcome == Skipped || rs[i].outcome == Ran(0)
  {
    t := Tally(0, 0, 0, 0, 0);
    var i := 0;
    ghost var skipped := (r: Result) => r.outcome == Skipped;
    ghost var passed := (r: Result) => r.outcome == Ran(0);
    ghost var failed := (r: Result) => r.outcome == Ran(1);
    ghost var valgrind := (r: Result) => r.outcome == Ran(2);
    ghost var crashed := (r: Result) => r.outcome.Ran? && (r.outcome.code < 0 || r.outcome.code > 2);
    ghost var interrupted := (r: Result) => r.outcome.Interrupted?;
    while i < |rs|
      invariant 0 <= i <= |rs|
      invariant t.skipped == Count(rs[..i], skipped) && t.passed == Count(rs[..i], passed)
      invariant t.failed == Count(rs[..i], failed) && t.valgrind == Count(rs[..i], valgrind)
      invariant t.crashed == Count(rs[..i], crashed)
    {
      CountLast(rs, i, skipped);
      CountLast(rs, i, passed);
      CountLast(rs, i, failed);
      CountLast(rs, i, valgrind);
      CountLast(rs, i, crashed);
      match rs[i].outcome {
        case Interrupted =>
        case Skipped => t := t.(skipped := t.skipped + 1);
        case Ran(code) =>
          if code == 0 {
            t := t.(passed := t.passed + 1);
          } else if code == 1 {
            t := t.(failed := t.failed + 1);
          } else if code == 2 {
            t := t.(valgrind := t.valgrind + 1);
          } else {
            t := t.(crashed := t.crashed + 1);
          }
      }
      i := i + 1;
    }
    assert rs[..i] == rs;
    AllCounted(rs, skipped, passed, failed, valgrind, crashed, interrupted);
  }
}
