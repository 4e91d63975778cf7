/**
 The parallel executor as a state machine. The main thread spawns one worker per batch and then
 the reporter; workers push results and increment their counters; the reporter adds up the live
 counters without a lock; the main thread joins all threads and concatenates the storages. A run
 is any interleaving of these steps.
 */
module TaskExecutor {
  import opened TaskBatches

  /** What is executed: `process` gives the results that a task pushes for one item. */
  datatype Job<!I, R> = Job(items: seq<I>, process: I -> seq<R>, batches: seq<nat>, initial: seq<R>)

  /** One worker thread; `pushed` says that the results of the item at `position` are in the storage
      and its counter is not incremented yet. */
  datatype Worker<R> = Worker(begin: nat, end: nat, position: nat, pushed: bool, storage: seq<R>, counter: nat)

  /** The reporter has read some of the counters in the current scan. */
  datatype Reporter = NotStarted | Scanning(samples: seq<nat>) | Exited

  datatype System<R> = System(workers: seq<Worker<R>>, reporter: Reporter, out: seq<R>, joined: bool)

  datatype Step = SpawnWorker | SpawnReporter | Process(w: nat) | Increment(w: nat) | ReadCounter | EndScan | Join

  function PerItem<I, R>(process: I -> seq<R>, items: seq<I>): seq<R> {
    if items == [] then [] else PerItem(process, items[..|items| - 1]) + process(items[|items| - 1])
  }

  lemma {:induction false} PerItemPrefix<I, R>(process: I -> seq<R>, items: seq<I>, i: nat)
    requires i <= |items|
    ensures PerItem(process, items[..i]) <= PerItem(process, items)
    decreases |items|
  {
    if i < |items| {
      assert items[..|items| - 1][..i] == items[..i];
      PerItemPrefix(process, items[..|items| - 1], i);
    } else {
      assert items[..i] == items;
    }
  }

  /** The results of item i come behind those of the items before it, and nothing comes in between. */
  lemma {:induction false} PerItemInOrder<I, R>(process: I -> seq<R>, items: seq<I>, i: nat)
    requires i < |items|
    ensures var (begin, end) := (|PerItem(process, items[..i])|, |PerItem(process, items[..i + 1])|);
      begin <= end <= |PerItem(process, items)| && PerItem(process, items)[begin..end] == process(items[i])
    ensures PerItem(process, items[..0]) == [] && PerItem(process, items[..|items|]) == PerItem(process, items)
  {
    assert items[..i + 1][..i] == items[..i] && items[..|items|] == items;
    PerItemPrefix(process, items, i + 1);
    var (before, upTo) := (PerItem(process, items[..i]), PerItem(process, items[..i + 1]));
    assert upTo == before + process(items[i]);
    assert PerItem(process, items)[|before|..|upTo|] == upTo[|before|..];
  }

  /** The input is split completely, with something for everyone. */
  predicate ValidJob<I, R>(job: Job<I, R>) {
    job.items != [] && job.batches != [] && Sum(job.batches) == |job.items|
  }

  /** Where batch `w` begins. */
  function Offset<I, R>(job: Job<I, R>, w: nat): nat
    requires w <= |job.batches|
  {
    Sum(job.batches[..w])
  }

  lemma OffsetStep<I, R>(job: Job<I, R>, w: nat)
    requires w < |job.batches|
    ensures Offset(job, w + 1) == Offset(job, w) + job.batches[w]
    ensures ValidJob(job) ==> Offset(job, w + 1) <= |job.items|
  {
    assert job.batches[..w + 1] == job.batches[..w] + [job.batches[w]];
    SumAppend(job.batches[..w], job.batches[w]);
    SumPrefix(job.batches, w + 1);
  }

  predicate Finished<R>(worker: Worker<R>) {
    worker.position == worker.end && !worker.pushed
  }

  function Init<I, R>(job: Job<I, R>): System<R> {
    System([], NotStarted, job.initial, false)
  }

  function Storages<R>(workers: seq<Worker<R>>): seq<R> {
    if workers == [] then [] else Storages(workers[..|workers| - 1]) + workers[|workers| - 1].storage
  }

  predicate Enabled<I, R>(job: Job<I, R>, s: System<R>, step: Step) {
    match step
    case SpawnWorker => |s.workers| < |job.batches|
    case SpawnReporter => |s.workers| == |job.batches| && s.reporter.NotStarted?
    case Process(w) =>
      w < |s.workers| && !s.workers[w].pushed && s.workers[w].position < s.workers[w].end <= |job.items|
    case Increment(w) => w < |s.workers| && s.workers[w].pushed
    case ReadCounter => s.reporter.Scanning? && |s.reporter.samples| < |s.workers|
    case EndScan => s.reporter.Scanning? && |s.reporter.samples| == |s.workers|
    case Join => !s.joined && s.reporter.Exited? && forall w :: 0 <= w < |s.workers| ==> Finished(s.workers[w])
  }

  /** One atomic step of one thread. */
  function Do<I, R>(job: Job<I, R>, s: System<R>, step: Step): System<R>
    requires Enabled(job, s, step)
  {
    match step
    case SpawnWorker =>
      var begin := if s.workers == [] then 0 else s.workers[|s.workers| - 1].end;
      var end := begin + job.batches[|s.workers|];
      s.(workers := s.workers + [Worker(begin, end, begin, false, [], 0)])
    case SpawnReporter => s.(reporter := Scanning([]))
    case Process(w) =>
      var worker := s.workers[w];
      s.(workers := s.workers[w := worker.(storage := worker.storage + job.process(job.items[worker.position]),
                                            pushed := true)])
    case Increment(w) =>
      var worker := s.workers[w];
      s.(workers := s.workers[w := worker.(position := worker.position + 1, counter := worker.counter + 1,
                                            pushed := false)])
    case ReadCounter =>
      s.(reporter := Scanning(s.reporter.samples + [s.workers[|s.reporter.samples|].counter]))
    case EndScan =>
      if Sum(s.reporter.samples) == |job.items| && Sum(s.reporter.samples) != 0 then s.(reporter := Exited)
      else s.(reporter := Scanning([]))
    case Join => s.(out := s.out + Storages(s.workers), joined := true)
  }

  /** Every step of the run is enabled when it is taken. */
  predicate Possible<I, R>(job: Job<I, R>, run: seq<Step>)
    decreases |run|, 0
  {
    run == [] ||
    (Possible(job, run[..|run| - 1]) && Enabled(job, After(job, run[..|run| - 1]), run[|run| - 1]))
  }

  function After<I, R>(job: Job<I, R>, run: seq<Step>): System<R>
    requires Possible(job, run)
    decreases |run|, 1
  {
    if run == [] then Init(job) else Do(job, After(job, run[..|run| - 1]), run[|run| - 1])
  }

  // ---- What every step keeps -------------------------------------------------------------------

  /** A worker owns its batch, has stored the results of what it processed, in order, and counted
      what it completed. */
  ghost predicate WorkerOk<I, R>(job: Job<I, R>, w: nat, worker: Worker<R>)
    requires ValidJob(job) && w < |job.batches|
  {
    && worker.begin == Offset(job, w) && worker.end == Offset(job, w + 1) <= |job.items|
    && worker.begin <= worker.position <= worker.end
    && worker.counter == worker.position - worker.begin
    && (worker.pushed ==> worker.position < worker.end)
    && worker.storage == PerItem(job.process, job.items[worker.begin..worker.position])
                         + (if worker.pushed then job.process(job.items[worker.position]) else [])
  }

  ghost predicate Workers<I, R>(job: Job<I, R>, workers: seq<Worker<R>>)
    requires ValidJob(job)
  {
    |workers| <= |job.batches| && forall w :: 0 <= w < |workers| ==> WorkerOk(job, w, workers[w])
  }

  /** Counters only grow, so what was sampled is at most what they hold now. */
  ghost predicate ReporterOk<I, R>(job: Job<I, R>, s: System<R>) {
    match s.reporter
    case NotStarted => true
    case Scanning(samples) =>
      |s.workers| == |job.batches| && |samples| <= |s.workers|
      && forall w :: 0 <= w < |samples| ==> samples[w] <= s.workers[w].counter
    case Exited => |s.workers| == |job.batches| && forall w :: 0 <= w < |s.workers| ==> Finished(s.workers[w])
  }

  ghost predicate Inv<I, R>(job: Job<I, R>, s: System<R>)
    requires ValidJob(job)
  {
    && Workers(job, s.workers) && ReporterOk(job, s)
    && (s.joined ==> |s.workers| == |job.batches| && s.reporter.Exited?)
    && s.out == (if s.joined then job.initial + PerItem(job.process, job.items) else job.initial)
  }

  lemma {:induction false} PerItemAppend<I, R>(process: I -> seq<R>, items: seq<I>, more: seq<I>)
    ensures PerItem(process, items + more) == PerItem(process, items) + PerItem(process, more)
    decreases |more|
  {
    if more == [] {
      assert items + more == items;
    } else {
      var init := more[..|more| - 1];
      assert (items + more)[..|items + more| - 1] == items + init;
      PerItemAppend(process, items, init);
    }
  }

  lemma SpawnKeeps<I, R>(job: Job<I, R>, workers: seq<Worker<R>>)
    requires ValidJob(job) && Workers(job, workers) && |workers| < |job.batches|
    ensures var begin := if workers == [] then 0 else workers[|workers| - 1].end;
      Workers(job, workers + [Worker(begin, begin + job.batches[|workers|], begin, false, [], 0)])
  {
    OffsetStep(job, |workers|);
    assert workers != [] ==> WorkerOk(job, |workers| - 1, workers[|workers| - 1]);
    assert Offset(job, 0) == 0;
  }

  lemma IncrementKeeps<I, R>(job: Job<I, R>, w: nat, worker: Worker<R>)
    requires ValidJob(job) && w < |job.batches| && WorkerOk(job, w, worker) && worker.pushed
    ensures WorkerOk(job, w, worker.(position := worker.position + 1, counter := worker.counter + 1, pushed := false))
  {
    var before := job.items[worker.begin..worker.position];
    assert job.items[worker.begin..worker.position + 1] == before + [job.items[worker.position]];
    assert (before + [job.items[worker.position]])[..|before|] == before;
  }

  /** The samples of a scan that add up to the number of items were all complete. */
  lemma {:induction false} FullReads(samples: seq<nat>, batches: seq<nat>)
    requires |samples| == |batches| && forall w :: 0 <= w < |samples| ==> samples[w] <= batches[w]
    ensures Sum(samples) <= Sum(batches)
    ensures Sum(samples) == Sum(batches) ==> samples == batches
  {
    if samples != [] {
      FullReads(samples[..|samples| - 1], batches[..|batches| - 1]);
      assert samples == samples[..|samples| - 1] + [samples[|samples| - 1]];
      assert batches == batches[..|batches| - 1] + [batches[|batches| - 1]];
    }
  }

  lemma CountersBounded<I, R>(job: Job<I, R>, workers: seq<Worker<R>>, w: nat)
    requires ValidJob(job) && Workers(job, workers) && w < |workers|
    ensures workers[w].counter <= job.batches[w]
    ensures workers[w].counter == job.batches[w] ==> Finished(workers[w])
  {
    OffsetStep(job, w);
    assert WorkerOk(job, w, workers[w]);
  }

  lemma {:induction false} ScanExits<I, R>(job: Job<I, R>, s: System<R>)
    requires ValidJob(job) && Inv(job, s) && s.reporter.Scanning? && |s.reporter.samples| == |s.workers|
    ensures Sum(s.reporter.samples) <= |job.items|
    ensures Sum(s.reporter.samples) == |job.items| ==> forall w :: 0 <= w < |s.workers| ==> Finished(s.workers[w])
  {
    var samples := s.reporter.samples;
    forall w | 0 <= w < |samples| ensures samples[w] <= s.workers[w].counter <= job.batches[w] {
      CountersBounded(job, s.workers, w);
    }
    FullReads(samples, job.batches);
    if Sum(samples) == |job.items| {
      forall w | 0 <= w < |s.workers| ensures Finished(s.workers[w]) {
        CountersBounded(job, s.workers, w);
      }
    }
  }

  lemma FinishedStorage<I, R>(job: Job<I, R>, w: nat, worker: Worker<R>)
    requires ValidJob(job) && w < |job.batches| && WorkerOk(job, w, worker) && Finished(worker)
    ensures worker.begin == Offset(job, w) <= worker.end == Offset(job, w + 1) <= |job.items|
    ensures worker.storage == PerItem(job.process, job.items[worker.begin..worker.end])
  {
  }

  /** The concatenated storages of finished workers are the results of one pass over their items. */
  lemma {:induction false} StoragesInOrder<I, R>(job: Job<I, R>, workers: seq<Worker<R>>)
    requires ValidJob(job) && Workers(job, workers)
    requires forall w :: 0 <= w < |workers| ==> Finished(workers[w])
    ensures Offset(job, |workers|) <= |job.items|
    ensures Storages(workers) == PerItem(job.process, job.items[..Offset(job, |workers|)])
  {
    if workers == [] {
      assert job.batches[..0] == [];
    } else {
      var w := |workers| - 1;
      var before, worker := workers[..w], workers[w];
      StoragesInOrder(job, before);
      assert Storages(workers) == Storages(before) + worker.storage;
      FinishedStorage(job, w, worker);
      BatchInOrder(job, worker.begin, worker.end);
    }
  }

  lemma BatchInOrder<I, R>(job: Job<I, R>, begin: nat, end: nat)
    requires begin <= end <= |job.items|
    ensures PerItem(job.process, job.items[..begin]) + PerItem(job.process, job.items[begin..end])
         == PerItem(job.process, job.items[..end])
  {
    assert job.items[..end] == job.items[..begin] + job.items[begin..end];
    PerItemAppend(job.process, job.items[..begin], job.items[begin..end]);
  }

  lemma JoinKeeps<I, R>(job: Job<I, R>, s: System<R>)
    requires ValidJob(job) && Inv(job, s) && Enabled(job, s, Join)
    ensures Inv(job, Do(job, s, Join))
  {
    StoragesInOrder(job, s.workers);
    assert job.batches[..|job.batches|] == job.batches;
    assert job.items[..|job.items|] == job.items;
  }

  lemma WorkerStepKeeps<I, R>(job: Job<I, R>, s: System<R>, w: nat, worker: Worker<R>)
    requires ValidJob(job) && Inv(job, s) && w < |s.workers| && WorkerOk(job, w, worker)
    requires s.workers[w].counter <= worker.counter && !Finished(s.workers[w])
    ensures Inv(job, s.(workers := s.workers[w := worker]))
  {
  }

  lemma {:induction false} ProcessKeeps<I, R>(job: Job<I, R>, s: System<R>, w: nat)
    requires ValidJob(job) && Inv(job, s) && Enabled(job, s, Process(w))
    ensures Inv(job, Do(job, s, Process(w)))
  {
    var worker := s.workers[w];
    assert WorkerOk(job, w, worker);
    WorkerStepKeeps(job, s, w, worker.(storage := worker.storage + job.process(job.items[worker.position]),
                                       pushed := true));
  }

  lemma {:induction false} CountKeeps<I, R>(job: Job<I, R>, s: System<R>, w: nat)
    requires ValidJob(job) && Inv(job, s) && Enabled(job, s, Increment(w))
    ensures Inv(job, Do(job, s, Increment(w)))
  {
    var worker := s.workers[w];
    assert WorkerOk(job, w, worker);
    IncrementKeeps(job, w, worker);
    WorkerStepKeeps(job, s, w, worker.(position := worker.position + 1, counter := worker.counter + 1,
                                       pushed := false));
  }

  lemma {:induction false} ReporterKeeps<I, R>(job: Job<I, R>, s: System<R>, step: Step)
    requires ValidJob(job) && Inv(job, s) && Enabled(job, s, step)
    requires step.SpawnReporter? || step.ReadCounter? || step.EndScan?
    ensures Inv(job, Do(job, s, step))
  {
    if step.EndScan? {
      ScanExits(job, s);
    }
  }

  lemma {:induction false} StepKeeps<I, R>(job: Job<I, R>, s: System<R>, step: Step)
    requires ValidJob(job) && Inv(job, s) && Enabled(job, s, step)
    ensures Inv(job, Do(job, s, step))
  {
    match step
    case SpawnWorker => SpawnKeeps(job, s.workers);
    case Process(w) => ProcessKeeps(job, s, w);
    case Increment(w) => CountKeeps(job, s, w);
    case Join => JoinKeeps(job, s);
    case _ => ReporterKeeps(job, s, step);
  }

  lemma {:induction false} RunsKeep<I, R>(job: Job<I, R>, run: seq<Step>)
    requires ValidJob(job) && Possible(job, run)
    ensures Inv(job, After(job, run))
    decreases |run|
  {
    if run != [] {
      RunsKeep(job, run[..|run| - 1]);
      StepKeeps(job, After(job, run[..|run| - 1]), run[|run| - 1]);
    }
  }

  // ---- What every run guarantees ------------------------------------------------------------------

  /** Whatever the interleaving, once the threads are joined the output is what one sequential pass
      would have appended. */
  lemma {:induction false} OutputIsSequential<I, R>(job: Job<I, R>, run: seq<Step>)
    requires ValidJob(job) && Possible(job, run) && After(job, run).joined
    ensures After(job, run).out == job.initial + PerItem(job.process, job.items)
  {
    RunsKeep(job, run);
  }

  /** At any moment of any run, the reporter's partial sum is at most the number of items; if it has
      exited, every worker has processed and counted every item of its batch. */
  lemma {:induction false} ReporterIsSafe<I, R>(job: Job<I, R>, run: seq<Step>)
    requires ValidJob(job) && Possible(job, run)
    ensures var s := After(job, run);
      && (s.reporter.Scanning? ==> Sum(s.reporter.samples) <= |job.items|)
      && (s.reporter.Exited? ==>
            |s.workers| == |job.batches| &&
            forall w :: 0 <= w < |s.workers| ==> Finished(s.workers[w]) && s.workers[w].counter == job.batches[w])
  {
    RunsKeep(job, run);
    var s := After(job, run);
    if s.reporter.Scanning? {
      var samples := s.reporter.samples;
      forall w | 0 <= w < |samples| ensures samples[w] <= job.batches[..|samples|][w] {
        CountersBounded(job, s.workers, w);
      }
      FullReads(samples, job.batches[..|samples|]);
      SumPrefix(job.batches, |samples|);
    }
    forall w | 0 <= w < |s.workers| && s.reporter.Exited? ensures s.workers[w].counter == job.batches[w] {
      OffsetStep(job, w);
      assert WorkerOk(job, w, s.workers[w]);
    }
  }

  /** One more step. */
  lemma AfterStep<I, R>(job: Job<I, R>, run: seq<Step>, s: System<R>, step: Step)
    requires Possible(job, run) && s == After(job, run) && Enabled(job, s, step)
    ensures Possible(job, run + [step]) && After(job, run + [step]) == Do(job, s, step)
  {
    assert (run + [step])[..|run|] == run;
  }

  lemma SampleFinished<I, R>(job: Job<I, R>, s: System<R>, w: nat)
    requires ValidJob(job) && Inv(job, s) && w < |s.workers| && Finished(s.workers[w])
    ensures w < |job.batches|
    ensures var scanning := s.(reporter := Scanning(job.batches[..w]));
      Enabled(job, scanning, ReadCounter) &&
      Do(job, scanning, ReadCounter) == s.(reporter := Scanning(job.batches[..w + 1]))
  {
    OffsetStep(job, w);
    assert WorkerOk(job, w, s.workers[w]);
    assert job.batches[..w + 1] == job.batches[..w] + [job.batches[w]];
  }

  /** From a state in which all workers are finished and a scan begins, sampling `k` counters yields
      the first `k` batch sizes. */
  lemma {:induction false} ScanAllFinished<I, R>(job: Job<I, R>, run: seq<Step>, s: System<R>, k: nat)
    returns (run': seq<Step>)
    requires ValidJob(job) && Possible(job, run) && s == After(job, run)
    requires s.reporter == Scanning([]) && Inv(job, s) && k <= |s.workers|
    requires forall w :: 0 <= w < |s.workers| ==> Finished(s.workers[w])
    ensures run <= run' && |run'| == |run| + k && forall i :: |run| <= i < |run'| ==> run'[i] == ReadCounter
    ensures Possible(job, run') && After(job, run') == s.(reporter := Scanning(job.batches[..k]))
    decreases k
  {
    hide Inv;
    if k == 0 {
      run' := run;
      assert job.batches[..0] == [];
    } else {
      var before := ScanAllFinished(job, run, s, k - 1);
      SampleFinished(job, s, k - 1);
      AfterStep(job, before, s.(reporter := Scanning(job.batches[..k - 1])), ReadCounter);
      run' := before + [ReadCounter];
    }
  }

  /** Once all workers have finished, the next complete scan makes the reporter exit. */
  lemma {:induction false} NextScanExits<I, R>(job: Job<I, R>, run: seq<Step>) returns (run': seq<Step>)
    requires ValidJob(job) && Possible(job, run)
    requires After(job, run).reporter == Scanning([]) && AllFinished(After(job, run))
    ensures run <= run' && |run'| == |run| + |job.batches| + 1 && run'[|run'| - 1] == EndScan
    ensures forall i :: |run| <= i < |run'| - 1 ==> run'[i] == ReadCounter
    ensures Possible(job, run') && After(job, run').reporter.Exited?
  {
    RunsKeep(job, run);
    var s := After(job, run);
    var n := |job.batches|;
    var scanned := ScanAllFinished(job, run, s, n);
    assert job.batches[..n] == job.batches;
    AfterStep(job, scanned, s.(reporter := Scanning(job.batches)), EndScan);
    run' := scanned + [EndScan];
  }

  // ---- Progress -----------------------------------------------------------------------------------

  /** No worker waits for another thread: one that is not finished has an enabled step of its own. */
  lemma {:induction false} WorkersCanStep<I, R>(job: Job<I, R>, run: seq<Step>, w: nat)
    requires ValidJob(job) && Possible(job, run) && w < |After(job, run).workers|
    ensures Finished(After(job, run).workers[w])
       <==> !Enabled(job, After(job, run), Process(w)) && !Enabled(job, After(job, run), Increment(w))
  {
    RunsKeep(job, run);
    assert WorkerOk(job, w, After(job, run).workers[w]);
  }

  predicate IsWork(step: Step) {
    step.Process? || step.Increment?
  }

  /** How many steps of a run were taken by workers. */
  function WorkSteps(run: seq<Step>): nat {
    if run == [] then 0 else WorkSteps(run[..|run| - 1]) + (if IsWork(run[|run| - 1]) then 1 else 0)
  }

  /** What a worker has done: two steps per item, or one so far. */
  function Own<R>(worker: Worker<R>): nat {
    2 * worker.counter + (if worker.pushed then 1 else 0)
  }

  function Work<R>(workers: seq<Worker<R>>): nat {
    if workers == [] then 0 else Work(workers[..|workers| - 1]) + Own(workers[|workers| - 1])
  }

  lemma {:induction false} WorkUpdate<R>(workers: seq<Worker<R>>, w: nat, worker: Worker<R>)
    requires w < |workers|
    ensures Work(workers[w := worker]) + Own(workers[w]) == Work(workers) + Own(worker)
  {
    var n := |workers| - 1;
    if w < n {
      WorkUpdate(workers[..n], w, worker);
      assert workers[w := worker][..n] == workers[..n][w := worker];
    } else {
      assert workers[w := worker][..n] == workers[..n];
    }
  }

  lemma {:induction false} WorkIsCounted<I, R>(job: Job<I, R>, run: seq<Step>)
    requires ValidJob(job) && Possible(job, run)
    ensures WorkSteps(run) == Work(After(job, run).workers)
    decreases |run|
  {
    if run != [] {
      var before, step := run[..|run| - 1], run[|run| - 1];
      WorkIsCounted(job, before);
      var s, s' := After(job, before), After(job, run);
      match step
      case SpawnWorker => assert s'.workers[..|s.workers|] == s.workers;
      case Process(w) => WorkUpdate(s.workers, w, s'.workers[w]);
      case Increment(w) => WorkUpdate(s.workers, w, s'.workers[w]);
      case _ =>
    }
  }

  lemma {:induction false} WorkIsBounded<I, R>(job: Job<I, R>, workers: seq<Worker<R>>)
    requires ValidJob(job) && Workers(job, workers)
    ensures Work(workers) <= 2 * Sum(job.batches[..|workers|])
  {
    if workers != [] {
      var w := |workers| - 1;
      WorkIsBounded(job, workers[..w]);
      OffsetStep(job, w);
      assert WorkerOk(job, w, workers[w]);
    }
  }

  /** No run keeps the workers busy forever: it holds at most two worker steps per item. */
  lemma {:induction false} WorkEnds<I, R>(job: Job<I, R>, run: seq<Step>)
    requires ValidJob(job) && Possible(job, run)
    ensures WorkSteps(run) <= 2 * |job.items|
  {
    RunsKeep(job, run);
    WorkIsCounted(job, run);
    WorkIsBounded(job, After(job, run).workers);
    SumPrefix(job.batches, |After(job, run).workers|);
  }

  predicate AllFinished<R>(s: System<R>) {
    forall w :: 0 <= w < |s.workers| ==> Finished(s.workers[w])
  }

  /** The main thread can spawn all workers and the reporter. */
  lemma {:induction false} CanSpawn<I, R>(job: Job<I, R>, run: seq<Step>) returns (run': seq<Step>)
    requires ValidJob(job) && Possible(job, run)
    ensures run <= run' && Possible(job, run')
    ensures |After(job, run').workers| == |job.batches| && !After(job, run').reporter.NotStarted?
    decreases |job.batches| - |After(job, run).workers|
  {
    RunsKeep(job, run);
    var s := After(job, run);
    run' := run;
    if |s.workers| < |job.batches| {
      AfterStep(job, run, s, SpawnWorker);
      run' := CanSpawn(job, run + [SpawnWorker]);
    } else if s.reporter.NotStarted? {
      AfterStep(job, run, s, SpawnReporter);
      run' := run + [SpawnReporter];
    }
  }

  /** The workers can finish, while the other threads do nothing. */
  lemma {:induction false} CanWork<I, R>(job: Job<I, R>, run: seq<Step>) returns (run': seq<Step>)
    requires ValidJob(job) && Possible(job, run) && |After(job, run).workers| == |job.batches|
    requires !After(job, run).reporter.NotStarted?
    ensures run <= run' && Possible(job, run') && AllFinished(After(job, run'))
    ensures |After(job, run').workers| == |job.batches| && !After(job, run').reporter.NotStarted?
    decreases 2 * |job.items| - WorkSteps(run)
  {
    var s := After(job, run);
    run' := run;
    if !AllFinished(s) {
      var w :| 0 <= w < |s.workers| && !Finished(s.workers[w]);
      WorkersCanStep(job, run, w);
      var step := if Enabled(job, s, Process(w)) then Process(w) else Increment(w);
      AfterStep(job, run, s, step);
      assert (run + [step])[..|run|] == run;
      WorkEnds(job, run + [step]);
      run' := CanWork(job, run + [step]);
    }
  }

  /** The reporter can complete the scan it is in. */
  lemma {:induction false} CanScan<I, R>(job: Job<I, R>, run: seq<Step>) returns (run': seq<Step>)
    requires ValidJob(job) && Possible(job, run) && After(job, run).reporter.Scanning?
    requires |After(job, run).workers| == |job.batches| && AllFinished(After(job, run))
    ensures run <= run' && Possible(job, run') && AllFinished(After(job, run'))
    ensures After(job, run').reporter.Exited? || After(job, run').reporter == Scanning([])
    decreases |job.batches| - |After(job, run).reporter.samples|
  {
    RunsKeep(job, run);
    var s := After(job, run);
    if |s.reporter.samples| < |s.workers| {
      AfterStep(job, run, s, ReadCounter);
      run' := CanScan(job, run + [ReadCounter]);
    } else {
      AfterStep(job, run, s, EndScan);
      run' := run + [EndScan];
    }
  }

  lemma {:induction false} CanJoin<I, R>(job: Job<I, R>, run: seq<Step>) returns (run': seq<Step>)
    requires ValidJob(job) && Possible(job, run) && After(job, run).reporter.Exited?
    ensures run <= run' && Possible(job, run') && After(job, run').joined
  {
    ReporterIsSafe(job, run);
    run' := run;
    if !After(job, run).joined {
      AfterStep(job, run, After(job, run), Join);
      run' := run + [Join];
    }
  }

  /** From every reachable state the threads can still be joined. */
  lemma {:induction false} CanFinish<I, R>(job: Job<I, R>, run: seq<Step>) returns (run': seq<Step>)
    requires ValidJob(job) && Possible(job, run)
    ensures run <= run' && Possible(job, run') && After(job, run').joined
  {
    hide *;
    run' := CanSpawn(job, run);
    run' := CanWork(job, run');
    if After(job, run').reporter.Scanning? {
      run' := CanScan(job, run');
    }
    if !After(job, run').reporter.Exited? {
      run' := NextScanExits(job, run');
    }
    run' := CanJoin(job, run');
  }

  // ---- The sequential executor --------------------------------------------------------------------

  /** A task: one pass over its items, pushing results and counting. */
  method RunTask<I, R>(items: seq<I>, process: I -> seq<R>, out: seq<R>) returns (out': seq<R>, counter: nat)
    ensures out' == out + PerItem(process, items) && counter == |items|
  {
    out', counter := out, 0;
    for i := 0 to |items|
      invariant out' == out + PerItem(process, items[..i]) && counter == i
    {
      assert items[..i + 1][..i] == items[..i];
      out' := out' + process(items[i]);
      counter := counter + 1;
    }
    assert items[..|items|] == items;
  }

  /** The executor's choice: nothing to do, one pass, or a split for as many workers as there are
      items to share. A split always makes a valid job, so its runs end with the same output. */
  method Prepare<I, R>(items: seq<I>, process: I -> seq<R>, tasks: nat, out: seq<R>)
    returns (sequential: bool, out': seq<R>, batches: seq<nat>)
    ensures sequential <==> tasks == 0 || items == [] || tasks == 1 || |items| == 1
    ensures tasks == 0 ==> out' == out
    ensures sequential && tasks > 0 ==> out' == out + PerItem(process, items)
    ensures !sequential ==> out' == out && ValidJob(Job(items, process, batches, out))
                            && |batches| == if |items| < tasks then |items| else tasks
  {
    out', batches := out, [];
    sequential := tasks == 0 || items == [] || tasks == 1 || |items| == 1;
    if tasks == 0 || items == [] {
      return;
    }
    if sequential {
      var counter;
      out', counter := RunTask(items, process, out);
    } else {
      var workers := if |items| < tasks then |items| else tasks;
      batches := Batches(|items|, workers);
    }
  }

  // ---- The progress bar -----------------------------------------------------------------------------

  const BAR_WIDTH := 32

  /** How many cells of the bar are filled. */
  function Stars(current: nat, total: nat): int
    requires total > 0
  {
    (current as real / total as real * BAR_WIDTH as real).Floor
  }

  lemma ProductOf(part: real, whole: real, product: real)
    requires whole > 0.0 && product == part * whole
    ensures part < 0.0 ==> product < 0.0
    ensures part > 1.0 ==> product > whole
    ensures part < 1.0 ==> product < whole
  {
    assert product - whole == (part - 1.0) * whole;
  }

  /** A part of a whole is a fraction, and one exactly if it is the whole. */
  lemma Fraction(product: real, whole: real) returns (part: real)
    requires whole > 0.0 && 0.0 <= product <= whole
    ensures part == product / whole && 0.0 <= part <= 1.0 && (part == 1.0 <==> product == whole)
  {
    part := product / whole;
    ProductOf(part, whole, product);
  }

  /** The number of dots never underflows, and the bar is full exactly when everything is done. */
  lemma BarFits(current: nat, total: nat)
    requires total > 0 && current <= total
    ensures 0 <= Stars(current, total) <= BAR_WIDTH
    ensures Stars(current, total) == BAR_WIDTH <==> current == total
  {
    StarsMeasure(current, total);
    var part := Fraction(current as real, total as real);
    assert part < 1.0 ==> 0.0 <= part * 32.0 < 32.0;
  }

  /** The bar shows the finished share of all items, rounded down to whole cells. */
  lemma StarsMeasure(current: nat, total: nat)
    requires total > 0
    ensures Stars(current, total) * total <= BAR_WIDTH * current
    ensures BAR_WIDTH * current < (Stars(current, total) + 1) * total
  {
    var (part, whole, stars) := (current as real / total as real, total as real, Stars(current, total));
    Rearranged(part, 32.0, whole, current as real);
    Product(stars, total);
    Product(stars + 1, total);
    Scaled(stars as real, part * 32.0, whole, (stars * total) as real, (BAR_WIDTH * current) as real);
    Scaled(part * 32.0, (stars + 1) as real, whole, (BAR_WIDTH * current) as real, ((stars + 1) * total) as real);
  }

  lemma Rearranged(a: real, b: real, c: real, product: real)
    requires a * c == product
    ensures (a * b) * c == b * product
  {
  }

  lemma Scaled(a: real, b: real, whole: real, scaledA: real, scaledB: real)
    requires whole > 0.0 && scaledA == a * whole && scaledB == b * whole
    ensures a <= b ==> scaledA <= scaledB
    ensures a < b ==> scaledA < scaledB
  {
    assert (b - a) * whole == scaledB - scaledA;
  }

  lemma {:induction false} Product(a: int, b: nat)
    ensures (a * b) as real == a as real * b as real
    decreases b
  {
    if b > 0 {
      Product(a, b - 1);
      assert a * b == a * (b - 1) + a;
    }
  }}
