/** Arbitrary runs of calls on a ring of slices, compared with the same calls on a sequence. */
module DequeRuns {
  import opened Bytes
  import opened Resources
  import opened SliceModule
  import opened SliceDequeModule

  /** What a slice put into the ring stands for: its bytes and the tracker that it holds. */
  datatype Item = Item(data: seq<byte>, tracker: Tracker)

  datatype Call = EmplaceBack(item: Item) | EmplaceFront(item: Item) | PopFront | PopBack

  /** The calls on a plain sequence. */
  function Ended(s: seq<Item>, c: Call): seq<Item> {
    match c
    case EmplaceBack(x) => s + [x]
    case EmplaceFront(x) => [x] + s
    case PopFront => if s == [] then [] else s[1..]
    case PopBack => if s == [] then [] else s[..|s| - 1]
  }

  /** The trackers of what a call destroys. */
  function Popped(s: seq<Item>, c: Call): seq<Tracker> {
    if s == [] then []
    else if c == PopFront then [s[0].tracker]
    else if c == PopBack then [s[|s| - 1].tracker]
    else []
  }

  function EndedAll(calls: seq<Call>): seq<Item> {
    if calls == [] then [] else Ended(EndedAll(calls[..|calls| - 1]), calls[|calls| - 1])
  }

  function PoppedAll(calls: seq<Call>): seq<Tracker> {
    if calls == [] then []
    else PoppedAll(calls[..|calls| - 1]) + Popped(EndedAll(calls[..|calls| - 1]), calls[|calls| - 1])
  }

  /** The slice holds the item's bytes and tracker. */
  ghost predicate Is(s: SliceState, x: Item) {
    s.Valid() && s.Content() == x.data && s.trackers == [x.tracker]
  }

  /** The ring holds one slice for each item, in order. */
  ghost predicate Holding(states: seq<SliceState>, s: seq<Item>) {
    |states| == |s| && forall i | 0 <= i < |s| :: Is(states[i], s[i])
  }

  method NewSlice(x: Item) returns (slice: Slice)
    ensures fresh(slice) && fresh(slice.base) && slice.Valid() && Is(slice.State(), x)
  {
    var memory := new byte[|x.data|](i requires 0 <= i < |x.data| => x.data[i]);
    assert memory[..] == x.data;
    slice := new Slice.Fragment(memory, x.tracker);
  }

  method Apply(deque: SliceDeque, log: ResourceLog, c: Call, ghost s: seq<Item>)
    requires deque.Valid() && log !in deque.Repr && Holding(deque.states, s)
    modifies deque.Repr, log
    ensures deque.Valid() && log !in deque.Repr && fresh(deque.Repr - old(deque.Repr))
    ensures Holding(deque.states, Ended(s, c)) && log.fired == old(log.fired) + Popped(s, c)
  {
    if c.EmplaceBack? {
      var slice := NewSlice(c.item);
      deque.EmplaceBack(slice, log);
    } else if c.EmplaceFront? {
      var slice := NewSlice(c.item);
      deque.EmplaceFront(slice, log);
    } else if c.PopFront? {
      deque.PopFront(log);
    } else {
      deque.PopBack(log);
    }
  }

  /** Through any growth and any wrap-around the ring is the sequence, and what it destroys fires in
      the order of the calls. */
  method Run(calls: seq<Call>) returns (deque: SliceDeque, log: ResourceLog)
    ensures deque.Valid() && log !in deque.Repr
    ensures Holding(deque.states, EndedAll(calls)) && log.fired == PoppedAll(calls)
  {
    log := new ResourceLog();
    deque := new SliceDeque();
    ghost var objects := deque.Repr;
    for i := 0 to |calls|
      invariant deque.Valid() && log !in deque.Repr && fresh(log) && fresh(deque.Repr)
      invariant Holding(deque.states, EndedAll(calls[..i])) && log.fired == PoppedAll(calls[..i])
    {
      assert calls[..i + 1][..i] == calls[..i];
      Apply(deque, log, calls[i], EndedAll(calls[..i]));
    }
    assert calls[..|calls|] == calls;
  }
}
