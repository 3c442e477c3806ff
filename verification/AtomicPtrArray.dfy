/** `AtomicPtrArray::get`: lazy creation with a check before and a check under one lock, called by
    any number of threads on any of the slots. Pointers are numbers and 0 is the null pointer. One
    step is one atomic load or store, one lock operation, or the end of one `make_object` call. */
module AtomicPtrArray {
  import opened Bytes

  datatype Thread =
    | Outside
    | Entered(index: nat)
    | Locking(index: nat)
    | Locked(index: nat)
    | Making(index: nat)
    | Storing(index: nat, made: nat)
    | Unlocking(index: nat)
    | Loading(index: nat)

  /** `made[i]` records what `make_object` returned for slot i, and `returned[i]` what `get` did. */
  datatype State = State(
    data: seq<nat>,
    holder: Option<nat>,
    threads: seq<Thread>,
    made: seq<seq<nat>>,
    returned: seq<seq<nat>>)

  datatype Step =
    | Call(t: nat, index: nat)
    | FirstLoad(t: nat)
    | Lock(t: nat)
    | SecondLoad(t: nat)
    | Make(t: nat, pointer: nat)
    | Store(t: nat)
    | Unlock(t: nat)
    | FinalLoad(t: nat)

  predicate Shaped(s: State) {
    |s.made| == |s.returned| == |s.data| &&
    forall t :: 0 <= t < |s.threads| && !s.threads[t].Outside? ==> s.threads[t].index < |s.data|
  }

  predicate Initial(s: State) {
    Shaped(s) && s.holder == None &&
    (forall t :: 0 <= t < |s.threads| ==> s.threads[t] == Outside) &&
    forall i :: 0 <= i < |s.data| ==> s.data[i] == 0 && s.made[i] == [] && s.returned[i] == []
  }

  predicate Enabled(s: State, step: Step)
    requires Shaped(s)
  {
    step.t < |s.threads| &&
    var thread := s.threads[step.t];
    match step
    case Call(_, index) => thread.Outside? && index < |s.data|
    case FirstLoad(_) => thread.Entered?
    case Lock(_) => thread.Locking? && s.holder == None
    case SecondLoad(_) => thread.Locked?
    case Make(_, _) => thread.Making?
    case Store(_) => thread.Storing?
    case Unlock(_) => thread.Unlocking?
    case FinalLoad(_) => thread.Loading?
  }

  function Go(s: State, t: nat, thread: Thread): State
    requires t < |s.threads|
  {
    s.(threads := s.threads[t := thread])
  }

  function Next(s: State, step: Step): State
    requires Shaped(s) && Enabled(s, step)
  {
    var t := step.t;
    var thread := s.threads[t];
    match step
    case Call(_, index) => Go(s, t, Entered(index))
    case FirstLoad(_) => Go(s, t, if s.data[thread.index] == 0 then Locking(thread.index) else Loading(thread.index))
    case Lock(_) => Go(s.(holder := Some(t)), t, Locked(thread.index))
    case SecondLoad(_) => Go(s, t, if s.data[thread.index] == 0 then Making(thread.index) else Unlocking(thread.index))
    case Make(_, pointer) =>
      Go(s.(made := s.made[thread.index := s.made[thread.index] + [pointer]]), t, Storing(thread.index, pointer))
    case Store(_) => Go(s.(data := s.data[thread.index := thread.made]), t, Unlocking(thread.index))
    case Unlock(_) => Go(s.(holder := None), t, Loading(thread.index))
    case FinalLoad(_) =>
      Go(s.(returned := s.returned[thread.index := s.returned[thread.index] + [s.data[thread.index]]]), t, Outside)
  }

  predicate Run(states: seq<State>, steps: seq<Step>) {
    |states| == |steps| + 1 && Initial(states[0]) &&
    forall i :: 0 <= i < |steps| ==>
                  Shaped(states[i]) && Enabled(states[i], steps[i]) && states[i + 1] == Next(states[i], steps[i])
  }

  predicate InCriticalSection(thread: Thread) {
    thread.Locked? || thread.Making? || thread.Storing? || thread.Unlocking?
  }

  /** The pointer that the thread holding the lock is about to store in slot i, else what is there. */
  function Settled(s: State, i: nat): nat
    requires i < |s.data|
  {
    if s.holder.Some? && s.holder.value < |s.threads| && s.threads[s.holder.value].Storing? &&
       s.threads[s.holder.value].index == i
    then s.threads[s.holder.value].made
    else s.data[i]
  }

  /** What a slot has seen: every creation returned null, except possibly the last, whose result is
      the slot's for good; and no call returned anything else but null. */
  predicate SlotInv(settled: nat, data: nat, made: seq<nat>, returned: seq<nat>) {
    (data != 0 ==> settled == data) &&
    (forall k :: 0 <= k < |made| - 1 ==> made[k] == 0) &&
    (if settled == 0 then forall k :: 0 <= k < |made| ==> made[k] == 0
     else made != [] && made[|made| - 1] == settled) &&
    forall k :: 0 <= k < |returned| ==> returned[k] == 0 || returned[k] == data
  }

  predicate Inv(s: State) {
    Shaped(s) &&
    (forall t :: 0 <= t < |s.threads| ==> (InCriticalSection(s.threads[t]) <==> s.holder == Some(t))) &&
    (forall t :: 0 <= t < |s.threads| ==>
       (s.threads[t].Making? || s.threads[t].Storing? ==> s.data[s.threads[t].index] == 0)) &&
    forall i :: 0 <= i < |s.data| ==> SlotInv(Settled(s, i), s.data[i], s.made[i], s.returned[i])
  }

  /** Each slot's history stays in order. */
  lemma StepKeepsSlots(s: State, step: Step)
    requires Inv(s) && Enabled(s, step)
    ensures var n := Next(s, step);
            && Shaped(n)
            && forall i :: 0 <= i < |n.data| ==> SlotInv(Settled(n, i), n.data[i], n.made[i], n.returned[i])
  {
  }

  lemma StepKeepsInv(s: State, step: Step)
    requires Inv(s) && Enabled(s, step)
    ensures Inv(Next(s, step))
    ensures forall i :: 0 <= i < |s.data| && Settled(s, i) != 0 ==>
              Settled(Next(s, step), i) == Settled(s, i) && Next(s, step).made[i] == s.made[i]
    ensures forall i :: 0 <= i < |s.data| && s.data[i] != 0 ==> Next(s, step).data[i] == s.data[i]
  {
    StepKeepsSlots(s, step);
  }

  lemma {:induction false} RunKeepsInv(states: seq<State>, steps: seq<Step>, i: nat)
    requires Run(states, steps) && i < |states|
    ensures Inv(states[i])
  {
    if i > 0 {
      RunKeepsInv(states, steps, i - 1);
      StepKeepsInv(states[i - 1], steps[i - 1]);
    }
  }

  /** `make_object` never runs at the same time on two threads, whatever the slots. */
  lemma MakersExclude(states: seq<State>, steps: seq<Step>, i: nat, t: nat, u: nat)
    requires Run(states, steps) && i < |states| && t < |states[i].threads| && u < |states[i].threads|
    requires states[i].threads[t].Making? && states[i].threads[u].Making?
    ensures t == u
  {
    RunKeepsInv(states, steps, i);
  }

  /** Something has been made for the slot, so the slot is settled and nobody is making it. */
  predicate Made(s: State, slot: nat, made: seq<nat>) {
    Inv(s) && slot < |s.data| && s.made[slot] == made && Settled(s, slot) != 0 &&
    forall t :: 0 <= t < |s.threads| ==> s.threads[t] != Making(slot)
  }

  lemma MadeMeansSettled(s: State, slot: nat, k: nat)
    requires Inv(s) && slot < |s.data| && k < |s.made[slot]| && s.made[slot][k] != 0
    ensures Made(s, slot, s.made[slot])
  {
    assert SlotInv(Settled(s, slot), s.data[slot], s.made[slot], s.returned[slot]);
  }

  lemma StepMakesNoMore(s: State, step: Step, slot: nat, made: seq<nat>)
    requires Made(s, slot, made) && Enabled(s, step)
    ensures Made(Next(s, step), slot, made)
  {
    StepKeepsInv(s, step);
    var n := Next(s, step);
    assert SlotInv(Settled(n, slot), n.data[slot], n.made[slot], n.returned[slot]);
    assert exists k :: 0 <= k < |n.made[slot]| && n.made[slot][k] != 0;
  }

  /** Once `make_object` has returned something for a slot, it is never called for that slot again,
      nor is it running. */
  lemma {:induction false} MadeOnce(states: seq<State>, steps: seq<Step>, i: nat, j: nat, slot: nat, k: nat)
    requires Run(states, steps) && i <= j < |states|
    requires slot < |states[i].data| && slot < |states[i].made| && k < |states[i].made[slot]|
    requires states[i].made[slot][k] != 0
    ensures Made(states[j], slot, states[i].made[slot])
  {
    if i == j {
      RunKeepsInv(states, steps, i);
      MadeMeansSettled(states[i], slot, k);
    } else {
      MadeOnce(states, steps, i, j - 1, slot, k);
      StepMakesNoMore(states[j - 1], steps[j - 1], slot, states[i].made[slot]);
    }
  }

  /** Every two calls of `get` on a slot that do not return null return the same pointer, and it is
      the one thing that `make_object` ever made for the slot. */
  lemma ResultsAgree(states: seq<State>, steps: seq<Step>, i: nat, slot: nat, k: nat, l: nat)
    requires Run(states, steps) && i < |states| && slot < |states[i].returned|
    requires k < |states[i].returned[slot]| && l < |states[i].returned[slot]|
    requires states[i].returned[slot][k] != 0 && states[i].returned[slot][l] != 0
    ensures states[i].returned[slot][k] == states[i].returned[slot][l]
    ensures slot < |states[i].made| && states[i].returned[slot][k] in states[i].made[slot]
    ensures forall m :: 0 <= m < |states[i].made[slot]| && states[i].made[slot][m] != 0 ==>
                          m == |states[i].made[slot]| - 1 && states[i].made[slot][m] == states[i].returned[slot][k]
  {
    RunKeepsInv(states, steps, i);
    assert SlotInv(Settled(states[i], slot), states[i].data[slot], states[i].made[slot], states[i].returned[slot]);
  }
}
