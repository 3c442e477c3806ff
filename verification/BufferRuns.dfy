/** Runs of arbitrary operations on two buffers, told by two flat byte strings. */
module BufferRuns {
  import opened Bytes
  import opened Resources
  import opened SliceModule
  import opened Holdings
  import opened OwnedImplModule
  import Reservations

  /** Calls that concern one buffer only. */
  datatype OwnCall =
    | Add(data: seq<byte>)
    | AddFragments(fragments: seq<seq<byte>>)
    | AddBufferFragment(data: seq<byte>, done: Tracker)
    | Prepend(data: seq<byte>)
    | ReserveAndCommit(data: seq<byte>)
    | BindAccount(account: Option<Account>)
    | AddDrainTracker(t: Tracker)
    | Drain(n: nat)
    | Linearize(n: nat)
    | Extract(n: nat)
    | Skip

  /** Calls that take the other buffer as their argument. */
  datatype CrossCall = AddOther | PrependOther | MoveOther | MoveLength(n: nat)

  datatype Step =
    | First(own: OwnCall)
    | Second(own: OwnCall)
    | FirstFromSecond(cross: CrossCall)
    | SecondFromFirst(cross: CrossCall)

  /** The contents of the two buffers, and all that was extracted so far. */
  datatype Flat = Flat(first: seq<byte>, second: seq<byte>, taken: seq<byte>)

  function FlatOwn(s: seq<byte>, c: OwnCall): seq<byte> {
    match c
    case Add(data) => s + data
    case AddFragments(fragments) => s + Flatten(fragments)
    case AddBufferFragment(data, _) => s + data
    case Prepend(data) => data + s
    case ReserveAndCommit(data) => s + data
    case Drain(n) => s[Min(n, |s|)..]
    case Extract(n) => s[Min(n, |s|)..]
    case _ => s
  }

  function Taken(s: seq<byte>, c: OwnCall): seq<byte> {
    if c.Extract? then s[..Min(c.n, |s|)] else []
  }

  function FlatCross(self: seq<byte>, other: seq<byte>, c: CrossCall): (seq<byte>, seq<byte>) {
    match c
    case AddOther => (self + other, other)
    case PrependOther => (other + self, [])
    case MoveOther => (self + other, [])
    case MoveLength(n) => var k := Min(n, |other|); (self + other[..k], other[k..])
  }

  function FlatStep(f: Flat, s: Step): Flat {
    match s
    case First(c) => Flat(FlatOwn(f.first, c), f.second, f.taken + Taken(f.first, c))
    case Second(c) => Flat(f.first, FlatOwn(f.second, c), f.taken + Taken(f.second, c))
    case FirstFromSecond(c) => var (x, y) := FlatCross(f.first, f.second, c); Flat(x, y, f.taken)
    case SecondFromFirst(c) => var (y, x) := FlatCross(f.second, f.first, c); Flat(x, y, f.taken)
  }

  function FlatRun(f: Flat, steps: seq<Step>): Flat {
    if steps == [] then f else FlatStep(FlatRun(f, steps[..|steps| - 1]), steps[|steps| - 1])
  }

  /**
   * What a call on a buffer with content `s` may turn out to be: forbidden calls are skipped, an
   * account can be bound only while there are no slices, and of the data to be committed only what
   * was reserved is.
   */
  predicate Happens(s: seq<byte>, c: OwnCall, d: OwnCall) {
    match c
    case Linearize(n) => if n <= |s| then d == c else d == Skip
    case AddDrainTracker(_) => if s != [] then d == c else d == Skip
    case Extract(_) => if s != [] then d.Extract? && 0 < d.n <= |s| else d == Skip
    case BindAccount(_) => d == Skip || (d == c && s == [])
    case ReserveAndCommit(data) => d.ReserveAndCommit? && d.data <= data && (d.data == [] ==> data == [])
    case _ => d == c
  }

  function Registered(c: OwnCall): multiset<Tracker> {
    match c
    case AddBufferFragment(_, done) => multiset{done}
    case AddDrainTracker(t) => multiset{t}
    case _ => multiset{}
  }

  /** Call `c` on content `s` turned out to be `d`, left `after` and took `taken` out. */
  ghost predicate Outcome(s: seq<byte>, c: OwnCall, d: OwnCall, after: seq<byte>, taken: seq<byte>) {
    Happens(s, c, d) && after == FlatOwn(s, d) && taken == Taken(s, d)
  }

  method AddFragment(x: OwnedImpl, data: seq<byte>, done: Tracker)
    requires x.Valid()
    modifies x.Repr(), x.log
    ensures x.Valid() && fresh(x.Repr() - old(x.Repr())) && x.log.fired == old(x.log.fired)
    ensures x.Content() == old(x.Content()) + data
    ensures |x.slices.states| == |old(x.slices.states)| + 1 && old(x.slices.states) <= x.slices.states
    ensures var s := x.slices.states[|old(x.slices.states)|]; s.DataSize() == |data| && s.trackers == [done]
    ensures x.Trackers() == old(x.Trackers()) + multiset{done} && forall a :: x.Excess(a) == old(x.Excess(a))
  {
    var memory := new byte[|data|](i requires 0 <= i < |data| => data[i]);
    assert memory[..] == data;
    x.AddBufferFragment(memory, done);
  }

  /** Puts bytes into a buffer. */
  method ApplyAdd(x: OwnedImpl, c: OwnCall, ghost s: seq<byte>)
    requires x.Valid() && s == x.Content() && (c.Add? || c.AddFragments? || c.AddBufferFragment? || c.Prepend?)
    modifies x.Repr(), x.log
    ensures x.Valid() && fresh(x.Repr() - old(x.Repr()))
    ensures Outcome(s, c, c, x.Content(), [])
    ensures x.Trackers() == old(x.Trackers()) + Registered(c) && forall a :: x.Excess(a) == old(x.Excess(a))
  {
    match c
    case Add(data) => x.AddImpl(data);
    case AddFragments(fragments) => var total := x.AddFragments(fragments);
    case AddBufferFragment(data, done) => AddFragment(x, data, done);
    case Prepend(data) => x.Prepend(data);
  }

  /** Reserves, writes and commits. */
  method ApplyReserve(x: OwnedImpl, c: OwnCall, ghost s: seq<byte>) returns (d: OwnCall)
    requires x.Valid() && s == x.Content() && c.ReserveAndCommit?
    modifies x.Repr(), x.log
    ensures x.Valid() && fresh(x.Repr() - old(x.Repr()))
    ensures Outcome(s, c, d, x.Content(), []) && x.Conserves() && Registered(d) == multiset{}
  {
    var n := Reservations.Append(x, c.data);
    d := ReserveAndCommit(c.data[..n]);
  }

  /** Changes what a buffer holds, or whom it charges, and no content. */
  method ApplyHold(x: OwnedImpl, c: OwnCall, ghost s: seq<byte>) returns (d: OwnCall)
    requires x.Valid() && s == x.Content() && (c.AddDrainTracker? || c.BindAccount?)
    modifies x.Repr(), x.log
    ensures x.Valid() && fresh(x.Repr() - old(x.Repr()))
    ensures Outcome(s, c, d, x.Content(), [])
    ensures x.Trackers() == old(x.Trackers()) + Registered(d) && forall a :: x.Excess(a) == old(x.Excess(a))
  {
    d := Skip;
    if c.AddDrainTracker? {
      if x.length > 0 {
        assert x.slices.states != [];
        x.AddDrainTracker(c.t);
        d := c;
      }
    } else if x.slices.size == 0 {
      x.BindAccount(c.account);
      d := c;
    }
  }

  /** Takes bytes out of a buffer. */
  method ApplyTake(x: OwnedImpl, c: OwnCall, ghost s: seq<byte>) returns (d: OwnCall, taken: seq<byte>)
    requires x.Valid() && s == x.Content() && (c.Drain? || c.Extract?)
    modifies x.Repr(), x.log
    ensures x.Valid() && fresh(x.Repr() - old(x.Repr()))
    ensures Outcome(s, c, d, x.Content(), taken) && x.Conserves() && Registered(d) == multiset{}
  {
    d, taken := c, [];
    if c.Drain? {
      x.Drain(c.n);
    } else if x.length > 0 {
      var slice := x.ExtractMutableFrontSlice();
      taken := slice.Content();
      d := Extract(|taken|);
    } else {
      d := Skip;
    }
  }

  method ApplyLinearize(x: OwnedImpl, c: OwnCall, ghost s: seq<byte>) returns (d: OwnCall)
    requires x.Valid() && s == x.Content() && c.Linearize?
    modifies x.Repr(), x.log
    ensures x.Valid() && fresh(x.Repr() - old(x.Repr()))
    ensures Outcome(s, c, d, x.Content(), []) && x.Conserves() && Registered(d) == multiset{}
  {
    d := Skip;
    if c.n <= x.length {
      var front := x.Linearize(c.n);
      d := c;
    }
  }

  /** Any call on one buffer. */
  method ApplyAny(x: OwnedImpl, c: OwnCall, ghost s: seq<byte>) returns (d: OwnCall, taken: seq<byte>)
    requires x.Valid() && s == x.Content()
    modifies x.Repr(), x.log
    ensures x.Valid() && fresh(x.Repr() - old(x.Repr()))
    ensures Outcome(s, c, d, x.Content(), taken)
    ensures x.Trackers() == old(x.Trackers()) + Registered(d) && forall a :: x.Excess(a) == old(x.Excess(a))
  {
    d, taken := c, [];
    if c.Drain? || c.Extract? {
      d, taken := ApplyTake(x, c, s);
    } else if c.Linearize? {
      d := ApplyLinearize(x, c, s);
    } else if c.AddDrainTracker? || c.BindAccount? {
      d := ApplyHold(x, c, s);
    } else if c.ReserveAndCommit? {
      d := ApplyReserve(x, c, s);
    } else if !c.Skip? {
      ApplyAdd(x, c, s);
    }
  }

  /** A call that takes the other buffer. */
  method ApplyCross(x: OwnedImpl, y: OwnedImpl, c: CrossCall)
    requires x.Apart(y)
    modifies x.Repr(), y.Repr(), x.log
    ensures x.Apart(y) && fresh(x.slices.Repr + y.slices.Repr - old(x.slices.Repr + y.slices.Repr))
    ensures (x.Content(), y.Content()) == FlatCross(old(x.Content()), old(y.Content()), c)
    ensures x.ConservesWith(y)
  {
    match c
    case AddOther => x.AddBuffer(y);
    case PrependOther => x.PrependBuffer(y);
    case MoveOther => x.Move(y);
    case MoveLength(n) => x.MoveLength(y, n);
  }

  predicate StepHappens(f: Flat, s: Step, d: Step) {
    match s
    case First(c) => d.First? && Happens(f.first, c, d.own)
    case Second(c) => d.Second? && Happens(f.second, c, d.own)
    case _ => d == s
  }

  function StepRegistered(s: Step): multiset<Tracker> {
    if s.First? || s.Second? then Registered(s.own) else multiset{}
  }

  function AllRegistered(steps: seq<Step>): multiset<Tracker> {
    if steps == [] then multiset{} else AllRegistered(steps[..|steps| - 1]) + StepRegistered(steps[|steps| - 1])
  }

  /** Trackers held by either buffer or already fired. */
  ghost function Joint(x: OwnedImpl, y: OwnedImpl): multiset<Tracker>
    reads x.slices, y.slices, x.log
  {
    x.Trackers() + TrackersOf(y.slices.states)
  }

  /** What an account was charged beyond the capacities of the live slices of both buffers. */
  ghost function JointExcess(x: OwnedImpl, y: OwnedImpl, a: Account): int
    reads x.slices, y.slices, x.log
  {
    x.Excess(a) - BoundOf(y.slices.states, a)
  }

  /** Between two states the pair gained the trackers `more`, and every charge stayed matched. */
  twostate predicate Kept(x: OwnedImpl, y: OwnedImpl, more: multiset<Tracker>)
    reads x.slices, y.slices, x.log
  {
    Joint(x, y) == old(Joint(x, y)) + more && forall a :: JointExcess(x, y, a) == old(JointExcess(x, y, a))
  }

  lemma JointSwap(x: OwnedImpl, y: OwnedImpl)
    requires x.log == y.log
    ensures Joint(x, y) == Joint(y, x) && forall a :: JointExcess(x, y, a) == JointExcess(y, x, a)
  {
    Regroup(multiset(x.log.fired), TrackersOf(x.slices.states), TrackersOf(y.slices.states));
  }

  /** A call on `x` alone, seen by the pair of buffers. */
  method ApplyOwn(x: OwnedImpl, y: OwnedImpl, c: OwnCall) returns (d: OwnCall, taken: seq<byte>)
    requires x.Apart(y)
    modifies x.Repr(), x.log
    ensures x.Apart(y) && fresh(x.slices.Repr - old(x.slices.Repr))
    ensures Happens(old(x.Content()), c, d)
    ensures x.Content() == FlatOwn(old(x.Content()), d) && taken == Taken(old(x.Content()), d) &&
            y.Content() == old(y.Content())
    ensures Kept(x, y, Registered(d))
  {
    d, taken := ApplyAny(x, c, x.Content());
    Regroup(old(x.Trackers()), Registered(d), TrackersOf(y.slices.states));
  }

  /** A call on the second buffer, seen by the pair in its own order. */
  method ApplySecond(x: OwnedImpl, y: OwnedImpl, c: OwnCall) returns (d: OwnCall, taken: seq<byte>)
    requires x.Apart(y)
    modifies y.Repr(), x.log
    ensures x.Apart(y) && fresh(y.slices.Repr - old(y.slices.Repr))
    ensures Happens(old(y.Content()), c, d)
    ensures y.Content() == FlatOwn(old(y.Content()), d) && taken == Taken(old(y.Content()), d) &&
            x.Content() == old(x.Content())
    ensures Kept(x, y, Registered(d))
  {
    JointSwap(x, y);
    d, taken := ApplyOwn(y, x, c);
    JointSwap(x, y);
  }

  /** A cross call on the second buffer, seen by the pair in its own order. */
  method ApplyCrossSecond(x: OwnedImpl, y: OwnedImpl, c: CrossCall)
    requires x.Apart(y)
    modifies x.Repr(), y.Repr(), x.log
    ensures x.Apart(y) && fresh(x.slices.Repr + y.slices.Repr - old(x.slices.Repr + y.slices.Repr))
    ensures (y.Content(), x.Content()) == FlatCross(old(y.Content()), old(x.Content()), c)
    ensures Kept(x, y, multiset{})
  {
    JointSwap(x, y);
    ApplyCross(y, x, c);
    JointSwap(x, y);
  }

  /** A call that one buffer makes on its own. */
  method ApplyOne(a: OwnedImpl, b: OwnedImpl, s: Step, ghost f: Flat) returns (d: Step, taken: seq<byte>)
    requires a.Apart(b) && f.first == a.Content() && f.second == b.Content() && (s.First? || s.Second?)
    modifies a.Repr(), b.Repr(), a.log
    ensures a.Apart(b) && fresh(a.slices.Repr + b.slices.Repr - old(a.slices.Repr + b.slices.Repr))
    ensures StepHappens(f, s, d) && Flat(a.Content(), b.Content(), f.taken + taken) == FlatStep(f, d)
    ensures Kept(a, b, StepRegistered(d))
  {
    var own;
    if s.First? {
      own, taken := ApplyOwn(a, b, s.own);
      d := First(own);
    } else {
      own, taken := ApplySecond(a, b, s.own);
      d := Second(own);
    }
  }

  /** A call that involves both buffers. */
  method ApplyPair(a: OwnedImpl, b: OwnedImpl, s: Step, ghost f: Flat)
    requires a.Apart(b) && f.first == a.Content() && f.second == b.Content() &&
             (s.FirstFromSecond? || s.SecondFromFirst?)
    modifies a.Repr(), b.Repr(), a.log
    ensures a.Apart(b) && fresh(a.slices.Repr + b.slices.Repr - old(a.slices.Repr + b.slices.Repr))
    ensures Flat(a.Content(), b.Content(), f.taken) == FlatStep(f, s)
    ensures Kept(a, b, multiset{})
  {
    if s.FirstFromSecond? {
      ApplyCross(a, b, s.cross);
    } else {
      ApplyCrossSecond(a, b, s.cross);
    }
  }

  method ApplyStep(a: OwnedImpl, b: OwnedImpl, s: Step, ghost f: Flat) returns (d: Step, taken: seq<byte>)
    requires a.Apart(b) && f.first == a.Content() && f.second == b.Content()
    modifies a.Repr(), b.Repr(), a.log
    ensures a.Apart(b) && fresh(a.slices.Repr + b.slices.Repr - old(a.slices.Repr + b.slices.Repr))
    ensures StepHappens(f, s, d) && Flat(a.Content(), b.Content(), f.taken + taken) == FlatStep(f, d)
    ensures Kept(a, b, StepRegistered(d))
  {
    if s.First? || s.Second? {
      d, taken := ApplyOne(a, b, s, f);
    } else {
      ApplyPair(a, b, s, f);
      d, taken := s, [];
    }
  }

  /** Step by step, what was done is what could happen when it was asked for. */
  ghost predicate AllHappen(start: Flat, steps: seq<Step>, done: seq<Step>) {
    |done| == |steps| && forall i | 0 <= i < |steps| :: StepHappens(FlatRun(start, done[..i]), steps[i], done[i])
  }

  lemma Snoc(start: Flat, steps: seq<Step>, done: seq<Step>, d: Step)
    requires |done| < |steps| && AllHappen(start, steps[..|done|], done)
    requires StepHappens(FlatRun(start, done), steps[|done|], d)
    ensures AllHappen(start, steps[..|done| + 1], done + [d])
    ensures FlatRun(start, done + [d]) == FlatStep(FlatRun(start, done), d)
    ensures AllRegistered(done + [d]) == AllRegistered(done) + StepRegistered(d)
  {
    var next := done + [d];
    assert next[..|done|] == done;
    forall i | 0 <= i < |next|
      ensures StepHappens(FlatRun(start, next[..i]), steps[..|done| + 1][i], next[i])
    {
      if i < |done| {
        assert next[..i] == done[..i] && steps[..|done|][i] == steps[i];
      }
    }
  }

  /**
   * Over every run of calls on two buffers the slices refine the flat byte strings, every tracker
   * handed over is held once or has fired once, and every charge is matched by a live slice.
   */
  method Run(a: OwnedImpl, b: OwnedImpl, steps: seq<Step>) returns (done: seq<Step>, taken: seq<byte>)
    requires a.Apart(b)
    modifies a.Repr(), b.Repr(), a.log
    ensures a.Apart(b) && |done| == |steps|
    ensures var start := old(Flat(a.Content(), b.Content(), []));
            && Flat(a.Content(), b.Content(), taken) == FlatRun(start, done)
            && AllHappen(start, steps, done)
    ensures Kept(a, b, AllRegistered(done))
    ensures fresh(a.slices.Repr + b.slices.Repr - old(a.slices.Repr + b.slices.Repr))
  {
    ghost var start := Flat(a.Content(), b.Content(), []);
    done, taken := [], [];
    for i := 0 to |steps|
      invariant a.Apart(b) && fresh(a.slices.Repr + b.slices.Repr - old(a.slices.Repr + b.slices.Repr))
      invariant |done| == i && Flat(a.Content(), b.Content(), taken) == FlatRun(start, done)
      invariant AllHappen(start, steps[..i], done)
      invariant Kept(a, b, AllRegistered(done))
    {
      var d, more := ApplyStep(a, b, steps[i], FlatRun(start, done));
      Regroup(old(Joint(a, b)), AllRegistered(done), StepRegistered(d));
      Snoc(start, steps, done, d);
      done, taken := done + [d], taken + more;
    }
    assert steps[..|steps|] == steps;
  }

  /** The destructors of two buffers. */
  method DestroyBoth(a: OwnedImpl, b: OwnedImpl)
    requires a.Apart(b)
    modifies a.Repr(), b.Repr(), a.log
    ensures multiset(a.log.fired) == old(Joint(a, b)) && forall c :: a.log.Net(c) == old(JointExcess(a, b, c))
  {
    assert b.slices.Repr !! a.Repr();
    a.Destroy();
    b.Destroy();
  }

  method CreatePair(firstAccount: Option<Account>, secondAccount: Option<Account>)
      returns (log: ResourceLog, a: OwnedImpl, b: OwnedImpl)
    ensures fresh(log) && fresh(a.Repr()) && fresh(b.Repr()) && a.Apart(b) && a.log == log
    ensures Joint(a, b) == multiset{} && forall c :: JointExcess(a, b, c) == 0
  {
    log := new ResourceLog();
    a := new OwnedImpl(firstAccount, log);
    b := new OwnedImpl(secondAccount, log);
  }

  /** A run of calls and then the destructors. */
  method RunToEnd(a: OwnedImpl, b: OwnedImpl, steps: seq<Step>) returns (done: seq<Step>)
    requires a.Apart(b)
    modifies a.Repr(), b.Repr(), a.log
    ensures |done| == |steps|
    ensures multiset(a.log.fired) == old(Joint(a, b)) + AllRegistered(done)
    ensures forall c :: a.log.Net(c) == old(JointExcess(a, b, c))
  {
    var taken;
    done, taken := Run(a, b, steps);
    DestroyBoth(a, b);
  }

  /**
   * From creation to destruction of two buffers: each tracker handed over fires exactly once, and
   * no account owes anything in the end.
   */
  method Lifetime(steps: seq<Step>, firstAccount: Option<Account>, secondAccount: Option<Account>)
      returns (log: ResourceLog, done: seq<Step>)
    ensures fresh(log) && |done| == |steps|
    ensures multiset(log.fired) == AllRegistered(done) && forall c :: log.Net(c) == 0
  {
    var a, b;
    log, a, b := CreatePair(firstAccount, secondAccount);
    done := RunToEnd(a, b, steps);
  }

  lemma TwoDrained(ss: seq<SliceState>, s: SliceState, t: SliceState)
    requires ss == [s, t] && s.Valid() && t.Valid() && s.DataSize() == 1 && t.DataSize() == 1
    ensures AllValid(ss) && DrainedTrackers(ss, 2) == s.trackers + t.trackers
  {
    assert ss[1..] == [t] && [t][1..] == [];
    assert DrainedTrackers([t], 1) == t.trackers + DrainedTrackers([], 0);
  }

  /** A buffer of two fragments of one byte each. */
  method TwoFragments() returns (buffer: OwnedImpl)
    ensures fresh(buffer) && fresh(buffer.Repr()) && fresh(buffer.log) && buffer.Valid()
    ensures buffer.Content() == [1, 2] && buffer.log.fired == []
    ensures !buffer.InFront(2) && DrainedTrackers(buffer.slices.states, 2) == [10, 11]
  {
    var log := new ResourceLog();
    buffer := new OwnedImpl(None, log);
    AddFragment(buffer, [1], 10);
    AddFragment(buffer, [2], 11);
    ghost var ss := buffer.slices.states;
    TwoDrained(ss, ss[0], ss[1]);
  }

  /**
   * A callback can fire while the bytes that it was to follow are still in the buffer: linearizing
   * two fragments copies their bytes and releases both.
   */
  method LinearizeFiresEarly() returns (buffer: OwnedImpl)
    ensures fresh(buffer) && buffer.Valid()
    ensures buffer.Content() == [1, 2] && buffer.log.fired == [10, 11]
  {
    buffer := TwoFragments();
    var front := buffer.Linearize(2);
  }
}
