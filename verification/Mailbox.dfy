/** The cross-thread mailbox of the dispatcher: `post` with `runPostCallbacks`, and, with the same
    code shape, `deleteInDispatcherThread` with `runThreadLocalDelete` and `shutdown`.

    Posting is two critical steps: the push under the lock, and, only when the list was empty, the
    scheduling of the callback outside it. Scheduling itself first reads whether the event is pending
    and then activates it. One machine step is one such access, so every interleaving of any number
    of threads is a run of the machine. */
module Mailbox {
  /** Where a thread is inside `post`: between the push and the schedule, or between reading that
      the event is not pending and activating it. */
  datatype Poster = Outside | Scheduling | Activating

  /** Where the loop thread is. `Taking` is the entry of `runPostCallbacks`, before it takes the
      list; `Draining` holds the local list. `last` marks the drain that `shutdown` does. */
  datatype Loop =
    | Created
    | Waiting
    | Taking(last: bool)
    | Draining(batch: seq<nat>, last: bool)
    | Stopped

  /** `posters[0]` is the loop thread, which posts too, from inside callbacks and destructors.
      `armed` is the pending bit of the event. `pushed` records every push in lock order and
      `executed` every callback begun, in order. */
  datatype State = State(
    posters: seq<Poster>,
    loop: Loop,
    queue: seq<nat>,
    armed: bool,
    executed: seq<nat>,
    pushed: seq<nat>)

  datatype Step =
    | Push(thread: nat, job: nat)
    | CheckPending(thread: nat)
    | Activate(thread: nat)
    | Start(flush: bool)
    | Wake
    | Take
    | Execute
    | Finish
    | Exit(drain: bool)

  predicate Initial(s: State) {
    s.posters != [] && (forall i :: 0 <= i < |s.posters| ==> s.posters[i] == Outside) &&
    s.loop == Created && s.queue == [] && !s.armed && s.executed == [] && s.pushed == []
  }

  /** The loop thread does nothing of its own while it is inside `post`. */
  predicate LoopFree(s: State) {
    s.posters != [] && s.posters[0] == Outside
  }

  predicate Enabled(s: State, step: Step) {
    match step
    case Push(t, _) => t < |s.posters| && s.posters[t] == Outside
    case CheckPending(t) => t < |s.posters| && s.posters[t] == Scheduling
    case Activate(t) => t < |s.posters| && s.posters[t] == Activating
    case Start(_) => LoopFree(s) && s.loop == Created
    case Wake => LoopFree(s) && s.loop == Waiting && s.armed
    case Take => LoopFree(s) && s.loop.Taking?
    case Execute => LoopFree(s) && s.loop.Draining? && s.loop.batch != []
    case Finish => LoopFree(s) && s.loop.Draining? && s.loop.batch == []
    case Exit(_) => LoopFree(s) && s.loop == Waiting
  }

  function Next(s: State, step: Step): State
    requires Enabled(s, step)
  {
    match step
    case Push(t, job) =>
      s.(posters := s.posters[t := if s.queue == [] then Scheduling else Outside],
         queue := s.queue + [job], pushed := s.pushed + [job])
    case CheckPending(t) => s.(posters := s.posters[t := if s.armed then Outside else Activating])
    case Activate(t) => s.(posters := s.posters[t := Outside], armed := true)
    case Start(flush) => s.(loop := if flush then Taking(false) else Waiting)
    case Wake => s.(armed := false, loop := Taking(false))
    case Take => s.(queue := [], loop := Draining(s.queue, s.loop.last))
    case Execute =>
      s.(executed := s.executed + [s.loop.batch[0]], loop := Draining(s.loop.batch[1..], s.loop.last))
    case Finish => s.(loop := if s.loop.last then Stopped else Waiting)
    case Exit(drain) => s.(loop := if drain then Taking(true) else Stopped)
  }

  predicate Follows(states: seq<State>, steps: seq<Step>)
    requires |states| == |steps| + 1
  {
    forall i :: 0 <= i < |steps| ==> Enabled(states[i], steps[i]) && states[i + 1] == Next(states[i], steps[i])
  }

  /** `states` is a run whose i-th step is `steps[i]`. */
  predicate Run(states: seq<State>, steps: seq<Step>) {
    |states| == |steps| + 1 && Initial(states[0]) && Follows(states, steps)
  }

  function Batch(s: State): seq<nat> {
    if s.loop.Draining? then s.loop.batch else []
  }

  /** Nothing lost, duplicated or reordered: what ran, what the loop holds and what is queued are
      together the pushes in lock order. */
  predicate Accounted(s: State) {
    s.executed + Batch(s) + s.queue == s.pushed
  }

  /** No lost wakeup: somebody is bound to look at a non-empty queue. */
  predicate Attended(s: State) {
    s.queue == [] || s.armed || s.loop.Taking? || exists t :: 0 <= t < |s.posters| && s.posters[t] != Outside
  }

  predicate Inv(s: State) {
    s.posters != [] && Accounted(s) && Attended(s)
  }

  lemma StepKeepsInv(s: State, step: Step)
    requires Inv(s) && Enabled(s, step)
    ensures Inv(Next(s, step))
  {
    var n := Next(s, step);
    match step
    case Push(t, job) =>
      assert s.executed + Batch(s) + (s.queue + [job]) == s.executed + Batch(s) + s.queue + [job];
      if s.queue == [] {
        assert n.posters[t] == Scheduling;
      } else if !s.armed && !s.loop.Taking? {
        var u :| 0 <= u < |s.posters| && s.posters[u] != Outside;
        assert n.posters[u] == s.posters[u];
      }
    case CheckPending(t) =>
      if !s.armed {
        assert n.posters[t] == Activating;
      }
    case Execute =>
      assert s.loop.batch == [s.loop.batch[0]] + s.loop.batch[1..];
      assert s.executed + s.loop.batch == (s.executed + [s.loop.batch[0]]) + s.loop.batch[1..];
    case _ =>
  }

  /** Safety over every run and every interleaving. */
  lemma {:induction false} RunIsSafe(states: seq<State>, steps: seq<Step>, i: nat)
    requires Run(states, steps) && i < |states|
    ensures Inv(states[i])
    ensures states[i].executed <= states[i].pushed
  {
    if i > 0 {
      RunIsSafe(states, steps, i - 1);
      StepKeepsInv(states[i - 1], steps[i - 1]);
    }
    assert states[i].executed + Batch(states[i]) + states[i].queue
        == states[i].executed + (Batch(states[i]) + states[i].queue);
  }

  /** A callback posted while a batch is being drained is not part of that batch: whatever is
      executed was in the list that the last `Take` moved out. */
  lemma ExecutesOnlyTaken(s: State, step: Step)
    requires Enabled(s, step) && s.loop.Draining?
    ensures Next(s, step).executed + Batch(Next(s, step)) == s.executed + s.loop.batch
  {
    if step.Execute? {
      assert s.loop.batch == [s.loop.batch[0]] + s.loop.batch[1..];
    }
  }

  // ---------------------------------------------------------------- progress

  function PosterCost(p: Poster): nat {
    match p case Outside => 0 case Scheduling => 5 case Activating => 4
  }

  function PostersCost(ps: seq<Poster>): nat {
    if ps == [] then 0 else PosterCost(ps[0]) + PostersCost(ps[1..])
  }

  lemma {:induction false} PostersCostUpdate(ps: seq<Poster>, t: nat, p: Poster)
    requires t < |ps|
    ensures PostersCost(ps[t := p]) == PostersCost(ps) - PosterCost(ps[t]) + PosterCost(p)
  {
    if t == 0 {
      assert ps[t := p][1..] == ps[1..];
    } else {
      assert ps[t := p][1..] == ps[1..][t - 1 := p];
      PostersCostUpdate(ps[1..], t - 1, p);
    }
  }

  function LoopCost(l: Loop): nat {
    match l
    case Created => 6
    case Waiting => 3
    case Taking(last) => if last then 2 else 5
    case Draining(batch, last) => |batch| + if last then 1 else 4
    case Stopped => 0
  }

  /** The steps left until everything settles, if nobody posts again. */
  function Work(s: State): nat {
    PostersCost(s.posters) + LoopCost(s.loop) + |s.queue| + if s.armed then 3 else 0
  }

  /** Every step but a push uses up work, so once posting stops a run can take only `Work` more. */
  lemma StepUsesWork(s: State, step: Step)
    requires Enabled(s, step) && !step.Push?
    ensures Work(Next(s, step)) < Work(s)
  {
    match step
    case CheckPending(t) => PostersCostUpdate(s.posters, t, if s.armed then Outside else Activating);
    case Activate(t) => PostersCostUpdate(s.posters, t, Outside);
    case _ =>
  }

  lemma {:induction false} QuietRunIsBounded(states: seq<State>, steps: seq<Step>)
    requires |states| == |steps| + 1 && Follows(states, steps)
    requires forall i :: 0 <= i < |steps| ==> !steps[i].Push?
    ensures |steps| + Work(states[|steps|]) <= Work(states[0])
  {
    if steps != [] {
      var n := |steps| - 1;
      QuietRunIsBounded(states[..n + 1], steps[..n]);
      StepUsesWork(states[n], steps[n]);
    }
  }

  /** Nothing but new posts, or leaving the loop, can happen next. */
  ghost predicate Settled(s: State) {
    forall step: Step :: Enabled(s, step) ==> step.Push? || step.Exit?
  }

  /** No lost wakeup, seen from the end: when a reachable state has nothing left to do, every
      callback ever posted has run, in lock order, exactly once, or the loop was stopped. */
  lemma SettledMeansAllExecuted(s: State)
    requires Inv(s) && Settled(s)
    ensures s.loop == Waiting || s.loop == Stopped
    ensures s.loop == Waiting ==> s.executed == s.pushed
  {
    forall t | 0 <= t < |s.posters| ensures s.posters[t] == Outside {
      assert !Enabled(s, CheckPending(t)) && !Enabled(s, Activate(t));
    }
    assert !Enabled(s, Start(true)) && !Enabled(s, Wake) && !Enabled(s, Take);
    assert !Enabled(s, Execute) && !Enabled(s, Finish);
  }

  /** In the drain of `shutdown`, or past it, with nothing but `taken` executed or about to be. */
  predicate LastDrain(s: State, taken: seq<nat>) {
    (s.loop == Stopped || (s.loop.Draining? && s.loop.last)) && s.executed + Batch(s) == taken
  }

  lemma LastDrainGoesOn(s: State, step: Step, taken: seq<nat>)
    requires LastDrain(s, taken) && Enabled(s, step)
    ensures LastDrain(Next(s, step), taken)
  {
    if s.loop.Draining? {
      ExecutesOnlyTaken(s, step);
    }
  }

  /** The drain in `shutdown`: everything pushed before it took the list has been destroyed, in
      order and once, by the time it is over, and nothing pushed later is touched any more. */
  lemma {:induction false} ShutdownDrains(states: seq<State>, steps: seq<Step>, i: nat, j: nat)
    requires Run(states, steps) && i < j < |states|
    requires states[i].loop == Taking(true) && steps[i] == Take
    ensures LastDrain(states[j], states[i].pushed)
  {
    if j == i + 1 {
      RunIsSafe(states, steps, i);
    } else {
      ShutdownDrains(states, steps, i, j - 1);
      LastDrainGoesOn(states[j - 1], steps[j - 1], states[i].pushed);
    }
  }
}
