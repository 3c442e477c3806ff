/** Starting the workers: the main thread posts every listener to every worker, starts the worker
    threads and waits on a counter that each worker decrements from a callback of its own; the
    completions travel back to the main dispatcher, where the last one calls back.

    Each dispatcher is a list under a lock and a batch moved out of it, as the mailbox machine has it;
    one step is one access to shared state. */
module WorkerStartup {
  datatype Job = AddListener(listener: nat) | Completion | StartedRunning

  datatype Phase = NotStarted | Spawned | Running

  /** `added` is what `handler_->addListener` has been called with, in order. */
  datatype Worker = Worker(phase: Phase, queue: seq<Job>, batch: seq<Job>, added: seq<nat>)

  datatype Main =
    | Adding(listener: nat, worker: nat)
    | Spawning(worker: nat)
    | Waiting
    | Returned

  /** `counter` is the blocking counter, `pending` is `listeners_pending_init`, `completions` the
      number of completions queued on the main dispatcher, `fired` how often the callback ran. */
  datatype State = State(
    main: Main,
    workers: seq<Worker>,
    counter: int,
    pending: int,
    completions: nat,
    fired: nat)

  datatype Step =
    | PostListener
    | Spawn
    | StopWaiting
    | PostStarted(worker: nat)
    | TakeBatch(worker: nat)
    | RunFirst(worker: nat)
    | RunCompletion

  predicate Initial(s: State, listeners: nat) {
    s.main == Adding(0, 0) &&
    (forall w :: 0 <= w < |s.workers| ==> s.workers[w] == Worker(NotStarted, [], [], [])) &&
    s.counter == |s.workers| && s.pending == |s.workers| * listeners &&
    s.completions == 0 && s.fired == 0
  }

  predicate Enabled(s: State, listeners: nat, step: Step) {
    match step
    case PostListener => s.main.Adding?
    case Spawn => s.main.Spawning?
    case StopWaiting => s.main == Waiting && s.counter == 0
    case PostStarted(w) => w < |s.workers| && s.workers[w].phase == Spawned
    case TakeBatch(w) =>
      w < |s.workers| && s.workers[w].phase == Running && s.workers[w].batch == [] && s.workers[w].queue != []
    case RunFirst(w) => w < |s.workers| && s.workers[w].phase == Running && s.workers[w].batch != []
    case RunCompletion => s.main == Returned && s.completions > 0
  }

  /** The two loops of `startWorkers` over listeners and workers, and the loop that spawns. */
  function NextMain(s: State, listeners: nat): State
    requires s.main.Adding? || s.main.Spawning?
  {
    match s.main
    case Adding(l, w) =>
      if l >= listeners then s.(main := Spawning(0))
      else if w >= |s.workers| then s.(main := Adding(l + 1, 0))
      else
        var worker := s.workers[w];
        s.(main := Adding(l, w + 1),
           workers := s.workers[w := worker.(queue := worker.queue + [AddListener(l)])])
    case Spawning(w) =>
      if w >= |s.workers| then s.(main := Waiting)
      else s.(main := Spawning(w + 1), workers := s.workers[w := s.workers[w].(phase := Spawned)])
  }

  /** Adding a listener and posting its completion are separate steps of one callback. */
  function NextRun(s: State, w: nat): State
    requires w < |s.workers| && s.workers[w].batch != []
  {
    var worker := s.workers[w];
    match worker.batch[0]
    case AddListener(l) =>
      s.(workers := s.workers[w := worker.(added := worker.added + [l], batch := [Completion] + worker.batch[1..])])
    case Completion =>
      s.(workers := s.workers[w := worker.(batch := worker.batch[1..])], completions := s.completions + 1)
    case StartedRunning =>
      s.(workers := s.workers[w := worker.(batch := worker.batch[1..])], counter := s.counter - 1)
  }

  function Next(s: State, listeners: nat, step: Step): State
    requires Enabled(s, listeners, step)
  {
    match step
    case PostListener => NextMain(s, listeners)
    case Spawn => NextMain(s, listeners)
    case StopWaiting => s.(main := Returned)
    case PostStarted(w) =>
      var worker := s.workers[w];
      s.(workers := s.workers[w := worker.(phase := Running, queue := worker.queue + [StartedRunning])])
    case TakeBatch(w) =>
      var worker := s.workers[w];
      s.(workers := s.workers[w := worker.(batch := worker.queue, queue := [])])
    case RunFirst(w) => NextRun(s, w)
    case RunCompletion =>
      s.(completions := s.completions - 1, pending := s.pending - 1,
         fired := s.fired + if s.pending - 1 == 0 then 1 else 0)
  }

  // ---------------------------------------------------------------- what a worker holds

  /** The callbacks that add listeners `from` up to `to`, in order. */
  function Adds(from: nat, to: nat): seq<Job>
    requires from <= to
  {
    seq(to - from, (i: nat) => AddListener(from + i))
  }

  function UpTo(n: nat): seq<nat> {
    seq(n, (i: nat) => i)
  }

  /** How many listeners the main thread has posted to worker w. */
  function Posted(main: Main, listeners: nat, w: nat): nat {
    match main
    case Adding(l, next) => if w < next then l + 1 else l
    case _ => listeners
  }

  predicate Completing(worker: Worker) {
    worker.batch != [] && worker.batch[0] == Completion
  }

  /** What is left of the worker's callbacks, the one that is half done excepted. */
  function Left(worker: Worker): seq<Job> {
    (if Completing(worker) then worker.batch[1..] else worker.batch) + worker.queue
  }

  predicate Signalled(worker: Worker) {
    worker.phase == Running && worker.batch == [] && worker.queue == []
  }

  /** A worker has added the first listeners, in order, and holds the rest of what was posted, then,
      once it runs, the callback that decrements the counter, unless that has run. */
  predicate WorkerInv(worker: Worker, posted: nat) {
    |worker.added| <= posted && worker.added == UpTo(|worker.added|) &&
    (worker.phase != Running ==> worker.batch == [] && Left(worker) == Adds(|worker.added|, posted)) &&
    (worker.phase == Running ==>
       Left(worker) == Adds(|worker.added|, posted) + [StartedRunning] ||
       (Signalled(worker) && |worker.added| == posted))
  }

  function Completed(worker: Worker): int {
    |worker.added| - if Completing(worker) then 1 else 0
  }

  function TotalCompleted(ws: seq<Worker>): int {
    if ws == [] then 0 else Completed(ws[0]) + TotalCompleted(ws[1..])
  }

  function Unsignalled(ws: seq<Worker>): nat {
    if ws == [] then 0 else (if Signalled(ws[0]) then 0 else 1) + Unsignalled(ws[1..])
  }

  lemma {:induction false} SumsUpdate(ws: seq<Worker>, w: nat, worker: Worker)
    requires w < |ws|
    ensures TotalCompleted(ws[w := worker]) == TotalCompleted(ws) - Completed(ws[w]) + Completed(worker)
    ensures Unsignalled(ws[w := worker])
         == Unsignalled(ws) - (if Signalled(ws[w]) then 0 else 1) + if Signalled(worker) then 0 else 1
  {
    if w == 0 {
      assert ws[w := worker][1..] == ws[1..];
    } else {
      assert ws[w := worker][1..] == ws[1..][w - 1 := worker];
      SumsUpdate(ws[1..], w - 1, worker);
    }
  }

  predicate MainInv(main: Main, listeners: nat, workers: seq<Worker>) {
    match main
    case Adding(l, w) =>
      l <= listeners && w <= |workers| && (l == listeners ==> w == 0) &&
      forall i :: 0 <= i < |workers| ==> workers[i].phase == NotStarted
    case Spawning(w) =>
      w <= |workers| && forall i :: 0 <= i < |workers| ==> (workers[i].phase == NotStarted <==> w <= i)
    case _ => forall i :: 0 <= i < |workers| ==> workers[i].phase != NotStarted
  }

  predicate Inv(s: State, listeners: nat) {
    MainInv(s.main, listeners, s.workers) &&
    (forall w :: 0 <= w < |s.workers| ==> WorkerInv(s.workers[w], Posted(s.main, listeners, w))) &&
    s.counter == Unsignalled(s.workers) &&
    s.pending + TotalCompleted(s.workers) - s.completions == |s.workers| * listeners &&
    (s.fired == if s.pending == 0 && 0 < |s.workers| * listeners then 1 else 0) &&
    0 <= s.pending <= |s.workers| * listeners &&
    (s.main == Returned ==> s.counter == 0) &&
    (s.main != Returned ==> s.pending == |s.workers| * listeners)
  }

  // ---------------------------------------------------------------- one step

  lemma PostListenerKeepsInv(s: State, listeners: nat)
    requires Inv(s, listeners) && s.main.Adding?
    ensures Inv(NextMain(s, listeners), listeners)
  {
    var l, w := s.main.listener, s.main.worker;
    if l < listeners && w < |s.workers| {
      var worker := s.workers[w];
      var after := worker.(queue := worker.queue + [AddListener(l)]);
      SumsUpdate(s.workers, w, after);
      assert Left(after) == Left(worker) + [AddListener(l)] == Adds(|after.added|, l + 1);
    }
  }

  lemma SpawnKeepsInv(s: State, listeners: nat)
    requires Inv(s, listeners) && s.main.Spawning?
    ensures Inv(NextMain(s, listeners), listeners)
  {
    var w := s.main.worker;
    if w < |s.workers| {
      SumsUpdate(s.workers, w, s.workers[w].(phase := Spawned));
    }
  }

  lemma PostStartedKeepsInv(s: State, listeners: nat, w: nat)
    requires Inv(s, listeners) && Enabled(s, listeners, PostStarted(w))
    ensures Inv(Next(s, listeners, PostStarted(w)), listeners)
  {
    var worker := s.workers[w];
    var after := worker.(phase := Running, queue := worker.queue + [StartedRunning]);
    SumsUpdate(s.workers, w, after);
    assert Left(after) == Left(worker) + [StartedRunning];
    assert after.added == worker.added;
    assert Posted(s.main, listeners, w) == listeners;
  }

  lemma TakeBatchKeepsInv(s: State, listeners: nat, w: nat)
    requires Inv(s, listeners) && Enabled(s, listeners, TakeBatch(w))
    ensures Inv(Next(s, listeners, TakeBatch(w)), listeners)
  {
    var worker := s.workers[w];
    var after := worker.(batch := worker.queue, queue := []);
    SumsUpdate(s.workers, w, after);
    assert Left(worker) == worker.queue;
    assert worker.queue[0] != Completion;
    assert Left(after) == Left(worker);
  }

  /** Running the first callback adds the next listener; its completion is still to be posted. */
  lemma AddsNextListener(worker: Worker, posted: nat, after: Worker)
    requires WorkerInv(worker, posted) && worker.phase == Running
    requires worker.batch != [] && worker.batch[0].AddListener?
    requires after == worker.(added := worker.added + [worker.batch[0].listener],
                              batch := [Completion] + worker.batch[1..])
    ensures WorkerInv(after, posted) && Completed(after) == Completed(worker)
  {
    var l := worker.batch[0].listener;
    assert Left(worker)[0] == AddListener(l);
    assert Left(after) == Left(worker)[1..];
    assert l == |worker.added| < posted;
    assert Adds(l, posted)[1..] == Adds(l + 1, posted);
    assert after.added == UpTo(l + 1);
  }

  lemma RunAddListenerKeepsInv(s: State, listeners: nat, w: nat)
    requires Inv(s, listeners) && Enabled(s, listeners, RunFirst(w)) && s.workers[w].batch[0].AddListener?
    ensures Inv(NextRun(s, w), listeners)
  {
    var after := NextRun(s, w).workers[w];
    SumsUpdate(s.workers, w, after);
    AddsNextListener(s.workers[w], Posted(s.main, listeners, w), after);
  }

  lemma RunWorkerCompletionKeepsInv(s: State, listeners: nat, w: nat)
    requires Inv(s, listeners) && Enabled(s, listeners, RunFirst(w)) && s.workers[w].batch[0].Completion?
    ensures Inv(NextRun(s, w), listeners)
  {
    var worker := s.workers[w];
    var after := NextRun(s, w).workers[w];
    SumsUpdate(s.workers, w, after);
    assert after.batch == worker.batch[1..];
    if after.batch != [] {
      assert after.batch[0] == Left(worker)[0] != Completion;
    }
    assert Left(after) == Left(worker);
  }

  lemma RunStartedKeepsInv(s: State, listeners: nat, w: nat)
    requires Inv(s, listeners) && Enabled(s, listeners, RunFirst(w)) && s.workers[w].batch[0].StartedRunning?
    ensures Inv(NextRun(s, w), listeners)
  {
    var worker := s.workers[w];
    SumsUpdate(s.workers, w, NextRun(s, w).workers[w]);
    assert Left(worker)[0] == StartedRunning;
    assert |Adds(|worker.added|, Posted(s.main, listeners, w))| == 0;
  }

  lemma OneMore(n: nat, k: nat)
    ensures (n + 1) * k == n * k + k
  {
  }

  lemma {:induction false} TotalBound(ws: seq<Worker>, listeners: nat)
    requires forall w :: 0 <= w < |ws| ==> |ws[w].added| <= listeners
    ensures TotalCompleted(ws) <= |ws| * listeners
  {
    if ws != [] {
      TotalBound(ws[1..], listeners);
      OneMore(|ws[1..]|, listeners);
      assert |ws[0].added| <= listeners;
    }
  }

  lemma RunCompletionKeepsInv(s: State, listeners: nat)
    requires Inv(s, listeners) && Enabled(s, listeners, RunCompletion)
    ensures Inv(Next(s, listeners, RunCompletion), listeners)
  {
    forall w | 0 <= w < |s.workers| ensures |s.workers[w].added| <= listeners {
      assert WorkerInv(s.workers[w], Posted(s.main, listeners, w));
    }
    TotalBound(s.workers, listeners);
  }

  lemma StepKeepsInv(s: State, listeners: nat, step: Step)
    requires Inv(s, listeners) && Enabled(s, listeners, step)
    ensures Inv(Next(s, listeners, step), listeners)
  {
    match step
    case PostListener => PostListenerKeepsInv(s, listeners);
    case Spawn => SpawnKeepsInv(s, listeners);
    case StopWaiting =>
    case PostStarted(w) => PostStartedKeepsInv(s, listeners, w);
    case TakeBatch(w) => TakeBatchKeepsInv(s, listeners, w);
    case RunFirst(w) =>
      match s.workers[w].batch[0] {
        case AddListener(_) => RunAddListenerKeepsInv(s, listeners, w);
        case Completion => RunWorkerCompletionKeepsInv(s, listeners, w);
        case StartedRunning => RunStartedKeepsInv(s, listeners, w);
      }
    case RunCompletion => RunCompletionKeepsInv(s, listeners);
  }

  // ---------------------------------------------------------------- whole runs

  predicate Follows(states: seq<State>, steps: seq<Step>, listeners: nat)
    requires |states| == |steps| + 1
  {
    forall i :: 0 <= i < |steps| ==>
                  Enabled(states[i], listeners, steps[i]) && states[i + 1] == Next(states[i], listeners, steps[i])
  }

  predicate Run(states: seq<State>, steps: seq<Step>, listeners: nat) {
    |states| == |steps| + 1 && Initial(states[0], listeners) && Follows(states, steps, listeners)
  }

  lemma {:induction false} FreshWorkers(ws: seq<Worker>)
    requires forall w :: 0 <= w < |ws| ==> ws[w] == Worker(NotStarted, [], [], [])
    ensures TotalCompleted(ws) == 0 && Unsignalled(ws) == |ws|
  {
    if ws != [] {
      FreshWorkers(ws[1..]);
    }
  }

  lemma InitialInv(s: State, listeners: nat)
    requires Initial(s, listeners)
    ensures Inv(s, listeners)
  {
    FreshWorkers(s.workers);
  }

  lemma {:induction false} RunKeepsInv(states: seq<State>, steps: seq<Step>, listeners: nat, i: nat)
    requires Run(states, steps, listeners) && i < |states|
    ensures Inv(states[i], listeners)
  {
    if i == 0 {
      InitialInv(states[0], listeners);
    } else {
      RunKeepsInv(states, steps, listeners, i - 1);
      StepKeepsInv(states[i - 1], listeners, steps[i - 1]);
    }
  }

  lemma {:induction false} AllSignalled(ws: seq<Worker>, w: nat)
    requires Unsignalled(ws) == 0 && w < |ws|
    ensures Signalled(ws[w])
  {
    if w > 0 {
      AllSignalled(ws[1..], w - 1);
    }
  }

  lemma {:induction false} AllCompleted(ws: seq<Worker>, listeners: nat)
    requires forall w :: 0 <= w < |ws| ==> Completed(ws[w]) == listeners
    ensures TotalCompleted(ws) == |ws| * listeners
  {
    if ws != [] {
      AllCompleted(ws[1..], listeners);
      OneMore(|ws| - 1, listeners);
    }
  }

  lemma Settled(s: State, listeners: nat)
    requires Inv(s, listeners) && s.main == Returned
    ensures forall w :: 0 <= w < |s.workers| ==> Signalled(s.workers[w]) && s.workers[w].added == UpTo(listeners)
    ensures s.pending == s.completions
  {
    forall w | 0 <= w < |s.workers|
      ensures Signalled(s.workers[w]) && s.workers[w].added == UpTo(listeners) && Completed(s.workers[w]) == listeners
    {
      AllSignalled(s.workers, w);
      assert WorkerInv(s.workers[w], Posted(s.main, listeners, w));
    }
    AllCompleted(s.workers, listeners);
  }

  /** In every interleaving, once the wait has returned every worker has added every listener, in
      order, has nothing left to run, and has posted every completion back. */
  lemma ReturnedMeansAllAdded(states: seq<State>, steps: seq<Step>, listeners: nat, i: nat)
    requires Run(states, steps, listeners) && i < |states| && states[i].main == Returned
    ensures forall w :: 0 <= w < |states[i].workers| ==> states[i].workers[w].added == UpTo(listeners)
    ensures states[i].pending == states[i].completions
  {
    RunKeepsInv(states, steps, listeners, i);
    Settled(states[i], listeners);
  }

  /** The callback runs at most once, only after the wait has returned, so on the main thread, and
      only when every listener of every worker has been added and its completion has run. */
  lemma FiresOnceAtTheEnd(states: seq<State>, steps: seq<Step>, listeners: nat, i: nat)
    requires Run(states, steps, listeners) && i < |states|
    ensures states[i].fired <= 1
    ensures states[i].fired == 1 ==>
              states[i].main == Returned && states[i].completions == 0 &&
              forall w :: 0 <= w < |states[i].workers| ==> states[i].workers[w].added == UpTo(listeners)
  {
    RunKeepsInv(states, steps, listeners, i);
    if states[i].fired == 1 {
      Settled(states[i], listeners);
    }
  }

  predicate Stuck(s: State, listeners: nat) {
    !Enabled(s, listeners, PostListener) && !Enabled(s, listeners, Spawn) && !Enabled(s, listeners, StopWaiting) &&
    !Enabled(s, listeners, RunCompletion) &&
    forall w :: 0 <= w < |s.workers| ==>
      !Enabled(s, listeners, PostStarted(w)) && !Enabled(s, listeners, TakeBatch(w)) &&
        !Enabled(s, listeners, RunFirst(w))
  }

  lemma {:induction false} NoneUnsignalled(ws: seq<Worker>)
    requires forall w :: 0 <= w < |ws| ==> Signalled(ws[w])
    ensures Unsignalled(ws) == 0
  {
    if ws != [] {
      NoneUnsignalled(ws[1..]);
    }
  }

  /** There is no deadlock, and a run that has gone as far as it can has called back, exactly when
      there was at least one worker and at least one listener. */
  lemma StuckMeansFired(states: seq<State>, steps: seq<Step>, listeners: nat)
    requires Run(states, steps, listeners) && Stuck(states[|steps|], listeners)
    ensures states[|steps|].main == Returned
    ensures states[|steps|].fired == 1 <==> |states[|steps|].workers| > 0 && listeners > 0
  {
    var s := states[|steps|];
    RunKeepsInv(states, steps, listeners, |steps|);
    if s.main == Waiting {
      forall w | 0 <= w < |s.workers| ensures Signalled(s.workers[w]) {
        assert WorkerInv(s.workers[w], Posted(s.main, listeners, w));
        assert !Enabled(s, listeners, PostStarted(w)) && !Enabled(s, listeners, TakeBatch(w)) &&
               !Enabled(s, listeners, RunFirst(w));
      }
      NoneUnsignalled(s.workers);
      assert false;
    }
    Settled(s, listeners);
    if |s.workers| > 0 && listeners > 0 {
      assert |s.workers| * listeners > 0;
    }
  }

  // ---------------------------------------------------------------- termination

  function JobsCost(jobs: seq<Job>, queued: nat): nat {
    if jobs == [] then 0
    else (match jobs[0] case AddListener(_) => 4 case Completion => 2 case StartedRunning => 1) + queued +
         JobsCost(jobs[1..], queued)
  }

  lemma {:induction false} JobsCostSnoc(jobs: seq<Job>, job: Job, queued: nat)
    ensures JobsCost(jobs + [job], queued) == JobsCost(jobs, queued) + JobsCost([job], queued)
  {
    if jobs == [] {
      assert jobs + [job] == [job];
    } else {
      assert (jobs + [job])[1..] == jobs[1..] + [job];
      JobsCostSnoc(jobs[1..], job, queued);
    }
  }

  lemma {:induction false} TakingIsCheaper(jobs: seq<Job>)
    ensures JobsCost(jobs, 1) == JobsCost(jobs, 0) + |jobs|
  {
    if jobs != [] {
      TakingIsCheaper(jobs[1..]);
    }
  }

  function WorkerCost(worker: Worker): nat {
    (match worker.phase case NotStarted => 4 case Spawned => 3 case Running => 0) +
    JobsCost(worker.queue, 1) + JobsCost(worker.batch, 0)
  }

  function WorkersCost(ws: seq<Worker>): nat {
    if ws == [] then 0 else WorkerCost(ws[0]) + WorkersCost(ws[1..])
  }

  lemma {:induction false} WorkersCostUpdate(ws: seq<Worker>, w: nat, worker: Worker)
    requires w < |ws|
    ensures WorkersCost(ws[w := worker]) == WorkersCost(ws) - WorkerCost(ws[w]) + WorkerCost(worker)
  {
    if w == 0 {
      assert ws[w := worker][1..] == ws[1..];
    } else {
      assert ws[w := worker][1..] == ws[1..][w - 1 := worker];
      WorkersCostUpdate(ws[1..], w - 1, worker);
    }
  }

  /** `times` rounds of `each`. */
  function Rounds(times: nat, each: nat): nat {
    if times == 0 then 0 else each + Rounds(times - 1, each)
  }

  function MainCost(main: Main, listeners: nat, workers: nat): int
    requires main.Adding? ==> main.listener <= listeners
  {
    match main
    case Adding(l, w) => Rounds(listeners - l, 6 * workers + 1) - 6 * w + workers + 3
    case Spawning(w) => workers - w + 2
    case Waiting => 1
    case Returned => 0
  }

  function Cost(s: State, listeners: nat): int
    requires MainInv(s.main, listeners, s.workers)
  {
    MainCost(s.main, listeners, |s.workers|) + WorkersCost(s.workers) + s.completions
  }

  lemma CostIsNat(s: State, listeners: nat)
    requires Inv(s, listeners)
    ensures Cost(s, listeners) >= 0
  {
  }

  lemma MainStepCosts(s: State, listeners: nat)
    requires Inv(s, listeners) && (s.main.Adding? || s.main.Spawning?)
    requires Inv(NextMain(s, listeners), listeners)
    ensures Cost(NextMain(s, listeners), listeners) < Cost(s, listeners)
  {
    var n := NextMain(s, listeners);
    match s.main
    case Adding(l, w) =>
      if l < listeners && w < |s.workers| {
        WorkersCostUpdate(s.workers, w, n.workers[w]);
        JobsCostSnoc(s.workers[w].queue, AddListener(l), 1);
      }
    case Spawning(w) =>
      if w < |s.workers| {
        WorkersCostUpdate(s.workers, w, n.workers[w]);
      }
  }

  lemma WorkerStepCosts(s: State, listeners: nat, step: Step, w: nat)
    requires Enabled(s, listeners, step)
    requires step == PostStarted(w) || step == TakeBatch(w) || step == RunFirst(w)
    ensures var n := Next(s, listeners, step);
            WorkersCost(n.workers) + n.completions < WorkersCost(s.workers) + s.completions
  {
    var n := Next(s, listeners, step);
    var worker := s.workers[w];
    WorkersCostUpdate(s.workers, w, n.workers[w]);
    match step
    case PostStarted(_) => JobsCostSnoc(worker.queue, StartedRunning, 1);
    case TakeBatch(_) => TakingIsCheaper(worker.queue);
    case RunFirst(_) => assert worker.batch[0].AddListener? ==> n.workers[w].batch[1..] == worker.batch[1..];
  }

  lemma StepCosts(s: State, listeners: nat, step: Step)
    requires Inv(s, listeners) && Enabled(s, listeners, step)
    requires Inv(Next(s, listeners, step), listeners)
    ensures Cost(Next(s, listeners, step), listeners) < Cost(s, listeners)
  {
    match step
    case PostListener => MainStepCosts(s, listeners);
    case Spawn => MainStepCosts(s, listeners);
    case PostStarted(w) => WorkerStepCosts(s, listeners, step, w);
    case TakeBatch(w) => WorkerStepCosts(s, listeners, step, w);
    case RunFirst(w) => WorkerStepCosts(s, listeners, step, w);
    case _ =>
  }

  /** Every run ends: no interleaving takes more steps than the cost of the initial state. */
  lemma {:induction false} RunIsBounded(states: seq<State>, steps: seq<Step>, listeners: nat)
    requires Run(states, steps, listeners)
    ensures Inv(states[0], listeners) && Inv(states[|steps|], listeners)
    ensures |steps| + Cost(states[|steps|], listeners) <= Cost(states[0], listeners)
    ensures |steps| <= Cost(states[0], listeners)
  {
    RunKeepsInv(states, steps, listeners, 0);
    RunKeepsInv(states, steps, listeners, |steps|);
    CostIsNat(states[|steps|], listeners);
    if steps != [] {
      var n := |steps| - 1;
      RunIsBounded(states[..n + 1], steps[..n], listeners);
      RunKeepsInv(states, steps, listeners, n);
      RunKeepsInv(states, steps, listeners, n + 1);
      StepCosts(states[n], listeners, steps[n]);
    }
  }
}
