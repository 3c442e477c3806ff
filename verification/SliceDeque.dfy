/** A growable ring of slice slots. */
module SliceDequeModule {
  import opened Bytes
  import opened Resources
  import opened SliceModule
  import opened Holdings

  const INLINE_RING_CAPACITY: nat := 8

  /** The slot of element `index` in a ring of `capacity` slots that starts at `start`. */
  function Slot(start: nat, capacity: nat, index: nat): (r: nat)
    requires start < capacity && index <= capacity
  {
    if start + index >= capacity then start + index - capacity else start + index
  }

  /** The element index of slot `k`: the inverse of `Slot`. */
  function Index(start: nat, capacity: nat, k: nat): (r: nat)
    requires start < capacity && k < capacity
    ensures r < capacity && Slot(start, capacity, r) == k
  {
    if k < start then k + capacity - start else k - start
  }

  /** What a moved-from slice looks like. */
  ghost predicate BlankState(s: SliceState) {
    s.memory == [] && s.data == 0 && s.reservable == 0 && s.trackers == [] && s.account == None
  }

  class SliceDeque {
    var ring: array<Slice>
    var start: nat
    var size: nat

    /** The live window, front first. */
    ghost var states: seq<SliceState>
    /** This object, the ring, the slots and the memory of the slots. */
    ghost var Repr: set<object>

    ghost predicate Shape()
      reads this, Repr
    {
      && this in Repr && ring in Repr
      && INLINE_RING_CAPACITY <= ring.Length
      && start < ring.Length && size <= ring.Length && |states| == size && AllValid(states)
      && (forall k | 0 <= k < ring.Length :: ring[k] in Repr && ring[k].base in Repr)
      && (forall k, l | 0 <= k < l < ring.Length :: ring[k] != ring[l] && ring[k].base != ring[l].base)
    }

    ghost predicate Valid()
      reads this, Repr
      ensures Valid() ==> this in Repr
    {
      && Shape()
      && (forall k | 0 <= k < ring.Length :: Holds(ring[k], Index(start, ring.Length, k)))
    }

    /** What the slot of element index `i` must hold. */
    ghost predicate Holds(s: Slice, i: nat)
      reads this, s, s.base
    {
      if i < |states| then s.Valid() && s.State() == states[i] else s.Blank()
    }

    /** The flat content of the slices. */
    ghost function Content(): seq<byte>
      requires AllValid(states)
      reads this
    {
      ContentOf(states)
    }

    /** The number of bytes before slice `i`. */
    ghost function Before(i: nat): nat
      requires AllValid(states) && i <= |states|
      reads this
    {
      |ContentOf(states[..i])|
    }

    static ghost function SlotsOf(slots: array<Slice>): set<object>
      reads slots, slots[..]
    {
      (set k | 0 <= k < slots.Length :: slots[k]) + set k | 0 <= k < slots.Length :: slots[k].base
    }

    static method NewSlots(n: nat) returns (slots: array<Slice>)
      ensures fresh(slots) && slots.Length == n
      ensures forall k | 0 <= k < n :: fresh(slots[k]) && fresh(slots[k].base) && slots[k].Blank()
      ensures forall k, l | 0 <= k < l < n :: slots[k] != slots[l] && slots[k].base != slots[l].base
    {
      var filler := new Slice.Empty();
      slots := new Slice[n](_ => filler);
      for i := 0 to n
        invariant forall k | 0 <= k < i :: fresh(slots[k]) && fresh(slots[k].base) && slots[k].Blank()
        invariant forall k, l | 0 <= k < l < i :: slots[k] != slots[l] && slots[k].base != slots[l].base
      {
        slots[i] := new Slice.Empty();
      }
    }

    constructor ()
      ensures Valid() && fresh(Repr) && states == []
    {
      var slots := NewSlots(INLINE_RING_CAPACITY);
      ring, start, size, states := slots, 0, 0, [];
      Repr := {this, slots} + SlotsOf(slots);
    }

    /** Slot `k` was changed and the window moved; every other slot keeps its content and its place. */
    twostate lemma WindowChanged(k: nat)
      requires old(Valid()) && k < ring.Length
      requires ring == old(ring) && start < ring.Length && |states| == size <= ring.Length && AllValid(states) &&
               old(Repr) <= Repr
      requires forall l | 0 <= l < ring.Length :: ring[l] == old(ring[l])
      requires forall l | 0 <= l < ring.Length && l != k ::
                 && ring[l].base == old(ring[l].base) && ring[l].capacity == old(ring[l].capacity)
                 && ring[l].State() == old(ring[l].State()) && ring[l].base != ring[k].base
      requires forall l | 0 <= l < ring.Length && l != k ::
                 var i, j := Index(old(start), ring.Length, l), Index(start, ring.Length, l);
                 && (i < |old(states)| <==> j < |states|)
                 && (i < |old(states)| ==> states[j] == old(states)[i])
      requires ring[k].base in Repr && Holds(ring[k], Index(start, ring.Length, k))
      ensures Valid()
    {
    }

    /** Element `i` was changed in place and nothing else. */
    twostate lemma ElementChanged(i: nat)
      requires old(Valid()) && i < size == old(size) == |states| && Repr == old(Repr)
      requires ring == old(ring) && start == old(start)
      requires forall l | 0 <= l < ring.Length :: ring[l] == old(ring[l])
      requires var slot := ring[Slot(start, ring.Length, i)];
               && slot.Valid() && slot.base == old(slot.base) && slot.State() == states[i]
               && (forall o: object | o in Repr && o != this && o != slot && o != slot.base :: unchanged(o))
      requires forall j | 0 <= j < size && j != i :: states[j] == old(states)[j]
      ensures Valid()
    {
      ghost var k := Slot(start, ring.Length, i);
      assert Index(start, ring.Length, k) == i;
      WindowChanged(k);
    }

    /** Element `i` was moved out, which gave its slot new memory. */
    twostate lemma ElementMoved(i: nat)
      requires old(Valid()) && i < size == old(size) == |states| && old(Repr) <= Repr
      requires ring == old(ring) && start == old(start)
      requires forall l | 0 <= l < ring.Length :: ring[l] == old(ring[l])
      requires var slot := ring[Slot(start, ring.Length, i)];
               && slot.Blank() && fresh(slot.base) && slot.base in Repr && slot.State() == states[i]
               && (forall o: object | o in old(Repr) && o != this && o != slot :: unchanged(o))
      requires forall j | 0 <= j < size && j != i :: states[j] == old(states)[j]
      ensures Valid()
    {
      ghost var k := Slot(start, ring.Length, i);
      assert Index(start, ring.Length, k) == i;
      WindowChanged(k);
    }

    /** The first slot was cleared and left the window. */
    twostate lemma FrontPopped(slot: Slice)
      requires old(Valid()) && old(size) > 0 && size == old(size) - 1 && old(Repr) <= Repr
      requires ring == old(ring) && slot == old(ring[start]) && states == old(states)[1..]
      requires start == if old(start) + 1 == ring.Length then 0 else old(start) + 1
      requires forall l | 0 <= l < ring.Length :: ring[l] == old(ring[l])
      requires slot.Blank() && fresh(slot.base) && slot.base in Repr
      requires forall o: object | o in old(Repr) && o != this && o != slot :: unchanged(o)
      ensures Valid()
    {
      WindowChanged(old(start));
    }

    /** The slot before the first was filled and joined the window. */
    twostate lemma FrontPlaced(slot: Slice)
      requires old(Valid()) && old(size) < ring.Length && size == old(size) + 1 && old(Repr) <= Repr
      requires start == if old(start) == 0 then ring.Length - 1 else old(start) - 1
      requires ring == old(ring) && start < ring.Length && slot == ring[start]
      requires states == [slot.State()] + old(states)
      requires forall l | 0 <= l < ring.Length :: ring[l] == old(ring[l])
      requires slot.Valid() && slot.base !in old(Repr) && slot.base in Repr
      requires forall o: object | o in old(Repr) && o != this && o != slot :: unchanged(o)
      ensures Valid()
    {
      assert Index(old(start), ring.Length, start) == ring.Length - 1;
      assert forall l | 0 <= l < ring.Length && l != start ::
          Index(start, ring.Length, l) == Index(old(start), ring.Length, l) + 1;
      WindowChanged(start);
    }

    lemma StatesDistinct()
      requires Valid()
      ensures forall i | 0 <= i < size ::
                states[i].base in Repr && ring[Slot(start, ring.Length, i)].State() == states[i]
      ensures forall i, j | 0 <= i < j < size :: states[i].base != states[j].base
    {
      forall i | 0 <= i < size
        ensures states[i].base in Repr && ring[Slot(start, ring.Length, i)].State() == states[i]
      {
        assert Index(start, ring.Length, Slot(start, ring.Length, i)) == i;
      }
      forall i, j | 0 <= i < j < size
        ensures states[i].base != states[j].base
      {
        assert Slot(start, ring.Length, i) != Slot(start, ring.Length, j);
      }
    }

    function At(i: nat): (s: Slice)
      requires Valid() && i < size
      reads this, Repr
      ensures s in Repr && s.base in Repr && s.Valid() && s.State() == states[i]
    {
      assert Index(start, ring.Length, Slot(start, ring.Length, i)) == i;
      ring[Slot(start, ring.Length, i)]
    }

    function Front(): (s: Slice)
      requires Valid() && size > 0
      reads this, Repr
      ensures s == At(0)
    {
      ring[start]
    }

    function Back(): (s: Slice)
      requires Valid() && size > 0
      reads this, Repr
      ensures s == At(size - 1)
    {
      ring[Slot(start, ring.Length, size - 1)]
    }

    /** Fills an empty slot; nothing is released. */
    static method Fill(slot: Slice, slice: Slice, log: ResourceLog)
      requires slot != slice && slot.Blank() && slice.Valid()
      modifies slot, slice, log
      ensures slot.State() == old(slice.State()) && slot.Valid()
      ensures slice.Blank() && fresh(slice.base)
      ensures log.fired == old(log.fired) && log.balance == old(log.balance)
    {
      slot.MoveFrom(slice, log);
    }

    /** Assigns a default slice to a slot: its trackers fire and its charge is returned. */
    static method Clear(slot: Slice, log: ResourceLog)
      requires slot.Valid()
      modifies slot, log
      ensures slot.Blank() && fresh(slot.base)
      ensures log.fired == old(log.fired) + old(slot.trackers)
      ensures forall a :: log.Net(a) == old(log.Net(a)) - old(slot.State()).BoundTo(a)
    {
      var blank := new Slice.Empty();
      slot.MoveFrom(blank, log);
    }

    /** The slots of a new ring: those of the full ring in window order, then blank ones. */
    lemma Regrown(newRing: array<Slice>, blanks: seq<Slice>)
      requires Valid() && size == ring.Length <= newRing.Length == |blanks|
      requires forall i | 0 <= i < |blanks| :: blanks[i].Blank() && blanks[i] !in Repr && blanks[i].base !in Repr
      requires forall i, j | 0 <= i < j < |blanks| :: blanks[i] != blanks[j] && blanks[i].base != blanks[j].base
      requires forall i | 0 <= i < size :: newRing[i] == ring[Slot(start, ring.Length, i)]
      requires forall i | size <= i < newRing.Length :: newRing[i] == blanks[i]
      ensures forall k | 0 <= k < newRing.Length :: Holds(newRing[k], k)
      ensures forall k, l | 0 <= k < l < newRing.Length ::
                newRing[k] != newRing[l] && newRing[k].base != newRing[l].base
    {
      forall k | 0 <= k < newRing.Length
        ensures Holds(newRing[k], k)
      {
        assert k < size ==> Index(start, ring.Length, Slot(start, ring.Length, k)) == k;
      }
    }

    /** Unrolls a full window into the first slots of a new ring of blank slots. */
    method MoveRing(newRing: array<Slice>)
      requires Valid() && size == ring.Length <= newRing.Length && newRing !in Repr
      requires forall i | 0 <= i < newRing.Length ::
                 newRing[i].Blank() && newRing[i] !in Repr && newRing[i].base !in Repr
      requires forall i, j | 0 <= i < j < newRing.Length ::
                 newRing[i] != newRing[j] && newRing[i].base != newRing[j].base
      modifies newRing
      ensures forall i | 0 <= i < size :: newRing[i] in Repr && newRing[i].base in Repr
      ensures forall i | size <= i < newRing.Length :: newRing[i] == old(newRing[i])
      ensures forall k | 0 <= k < newRing.Length :: Holds(newRing[k], k)
      ensures forall k, l | 0 <= k < l < newRing.Length ::
                newRing[k] != newRing[l] && newRing[k].base != newRing[l].base
    {
      ghost var blanks := newRing[..];
      var src := start;
      for dst := 0 to size
        invariant src == Slot(start, ring.Length, if dst == ring.Length then 0 else dst)
        invariant forall i | 0 <= i < dst :: newRing[i] == ring[Slot(start, ring.Length, i)]
        invariant forall i | dst <= i < newRing.Length :: newRing[i] == blanks[i]
      {
        newRing[dst] := ring[src];
        src := src + 1;
        if src == ring.Length {
          src := 0;
        }
      }
      Regrown(newRing, blanks);
    }

    /** Replaces the ring by one that has the window in its first slots. */
    method TakeRing(newRing: array<Slice>, ghost objects: set<object>)
      requires Valid() && size <= newRing.Length && INLINE_RING_CAPACITY <= newRing.Length
      requires Repr <= objects && newRing in objects
      requires forall k | 0 <= k < newRing.Length :: Holds(newRing[k], k) && newRing[k] in objects
      requires forall k | 0 <= k < newRing.Length :: newRing[k].base in objects
      requires forall k, l | 0 <= k < l < newRing.Length ::
                 newRing[k] != newRing[l] && newRing[k].base != newRing[l].base
      modifies this
      ensures Valid() && Repr == objects && ring == newRing && size == old(size) && states == old(states)
    {
      ring := newRing;
      start := 0;
      Repr := objects;
    }

    /**
     * Doubles a full ring. The old ring is dropped, so moving a slice out of it hands over the
     * slice object.
     */
    method GrowRing()
      requires Valid()
      modifies this
      ensures Valid() && fresh(Repr - old(Repr)) && old(Repr) <= Repr && states == old(states)
      ensures size < ring.Length && size == old(size)
    {
      if size < ring.Length {
        return;
      }
      var newRing := NewSlots(2 * ring.Length);
      ghost var added := {newRing as object} + SlotsOf(newRing);
      MoveRing(newRing);
      ghost var objects := Repr + added;
      assert forall k | 0 <= k < newRing.Length :: newRing[k] in objects && newRing[k].base in objects;
      TakeRing(newRing, objects);
    }

    /** Moves `slice` behind the last element. */
    method EmplaceBack(slice: Slice, log: ResourceLog)
      requires Valid() && log !in Repr && slice.Valid() && slice !in Repr && slice.base !in Repr
      modifies Repr, slice, log
      ensures Valid() && old(Repr) + {old(slice.base)} <= Repr && fresh(Repr - old(Repr) - {old(slice.base)})
      ensures states == old(states) + [old(slice.State())]
      ensures slice.Blank() && fresh(slice.base) && slice !in Repr && slice.base !in Repr
      ensures log.fired == old(log.fired) && log.balance == old(log.balance)
    {
      GrowRing();
      var index := Slot(start, ring.Length, size);
      assert Index(start, ring.Length, index) == size;
      label L:
      Fill(ring[index], slice, log);
      size := size + 1;
      states := states + [ring[index].State()];
      Repr := Repr + {ring[index].base};
      WindowChanged@L(index);
    }

    /** `EmplaceFront` once there is room. */
    method PlaceFront(slice: Slice, log: ResourceLog)
      requires Valid() && log !in Repr && slice.Valid() && slice !in Repr && slice.base !in Repr && size < ring.Length
      modifies Repr, slice, log
      ensures Valid() && Repr == old(Repr) + {old(slice.base)}
      ensures states == [old(slice.State())] + old(states)
      ensures slice.Blank() && fresh(slice.base)
      ensures log.fired == old(log.fired) && log.balance == old(log.balance)
    {
      start := if start == 0 then ring.Length - 1 else start - 1;
      assert Index(old(start), ring.Length, start) == ring.Length - 1;
      ghost var slot := ring[start];
      Fill(ring[start], slice, log);
      size := size + 1;
      states := [slot.State()] + states;
      Repr := Repr + {slot.base};
      FrontPlaced(slot);
    }

    /** Moves `slice` before the first element. */
    method EmplaceFront(slice: Slice, log: ResourceLog)
      requires Valid() && log !in Repr && slice.Valid() && slice !in Repr && slice.base !in Repr
      modifies Repr, slice, log
      ensures Valid() && old(Repr) + {old(slice.base)} <= Repr && fresh(Repr - old(Repr) - {old(slice.base)})
      ensures states == [old(slice.State())] + old(states)
      ensures slice.Blank() && fresh(slice.base) && slice !in Repr && slice.base !in Repr
      ensures log.fired == old(log.fired) && log.balance == old(log.balance)
    {
      GrowRing();
      PlaceFront(slice, log);
    }

    /** Destroys the first slice, which fires its trackers and returns its charge. */
    method PopFront(log: ResourceLog)
      requires Valid() && log !in Repr
      modifies Repr, log
      ensures Valid() && old(Repr) <= Repr && fresh(Repr - old(Repr))
      ensures states == if old(size) == 0 then old(states) else old(states)[1..]
      ensures log.fired == old(log.fired) + if old(size) == 0 then [] else old(states)[0].trackers
      ensures forall a :: log.Net(a) == old(log.Net(a)) - if old(size) == 0 then 0 else old(states)[0].BoundTo(a)
    {
      if size == 0 {
        return;
      }
      ghost var front := Front();
      Clear(Front(), log);
      Repr := Repr + {front.base};
      size := size - 1;
      start := start + 1;
      if start == ring.Length {
        start := 0;
      }
      states := states[1..];
      FrontPopped(front);
    }

    /** Destroys the last slice. */
    method PopBack(log: ResourceLog)
      requires Valid() && log !in Repr
      modifies Repr, log
      ensures Valid() && old(Repr) <= Repr && fresh(Repr - old(Repr))
      ensures states == if old(size) == 0 then old(states) else old(states)[..old(size) - 1]
      ensures log.fired == old(log.fired) + if old(size) == 0 then [] else old(states)[old(size) - 1].trackers
      ensures forall a :: log.Net(a)
                       == old(log.Net(a)) - if old(size) == 0 then 0 else old(states)[old(size) - 1].BoundTo(a)
    {
      if size == 0 {
        return;
      }
      var index := Slot(start, ring.Length, size - 1);
      Clear(Back(), log);
      Repr := Repr + {ring[index].base};
      size := size - 1;
      states := states[..size];
      WindowChanged(index);
    }

    /** Changes the last slice in place by appending bytes. */
    method AppendToBack(src: seq<byte>) returns (copied: nat)
      requires Valid() && size > 0
      modifies Repr
      ensures Valid() && Repr == old(Repr) && size == old(size) > 0
      ensures copied == Min(|src|, old(states)[size - 1].ReservableSize())
      ensures states == old(states)[..size - 1] + [states[size - 1]]
      ensures var s, t := old(states)[size - 1], states[size - 1];
              && t == s.(reservable := s.reservable + copied, memory := t.memory)
              && t.memory == Overwrite(s.memory, s.reservable, src[..copied])
    {
      var back := Back();
      copied := back.Append(src);
      states := states[size - 1 := back.State()];
      ElementChanged(size - 1);
    }

    /** Prepends bytes to the first slice in place. */
    method PrependToFront(src: seq<byte>) returns (copied: nat)
      requires Valid() && size > 0 && src != []
      modifies Repr
      ensures Valid() && Repr == old(Repr) && size == old(size) > 0
      ensures copied == Min(|src|, old(states)[0].SpaceInFront())
      ensures states == [old(states)[0].Prepended(src)] + old(states)[1..]
    {
      var front := Front();
      states[0].PrependedContent(src);
      copied := front.Prepend(src);
      ghost var t := front.State();
      states := states[0 := t];
      ElementChanged(0);
    }

    /** Drains bytes of the first slice in place. */
    method DrainFront(n: nat)
      requires Valid() && size > 0 && n <= states[0].DataSize()
      modifies Repr
      ensures Valid() && Repr == old(Repr) && size == old(size) > 0
      ensures states == [old(states)[0].Drained(n)] + old(states)[1..]
    {
      var front := Front();
      front.Drain(n);
      ghost var t := front.State();
      states := states[0 := t];
      ElementChanged(0);
    }

    /** Writes into the reservable region of the last slice. */
    method WriteBehindBack(offset: nat, src: seq<byte>)
      requires Valid() && size > 0 && offset + |src| <= states[size - 1].ReservableSize()
      modifies Repr
      ensures Valid() && Repr == old(Repr) && size == old(size) > 0
      ensures var s := old(states)[size - 1];
              states == old(states)[..size - 1] + [s.(memory := Overwrite(s.memory, s.reservable + offset, src))]
    {
      var back := Back();
      back.WriteReserved(offset, src);
      states := states[size - 1 := back.State()];
      ElementChanged(size - 1);
    }

    /** Commits reserved bytes of the last slice in place. */
    method CommitBack(n: nat)
      requires Valid() && size > 0 && n <= states[size - 1].ReservableSize()
      modifies Repr
      ensures Valid() && Repr == old(Repr) && size == old(size) > 0
      ensures var s := old(states)[size - 1];
              states == old(states)[..size - 1] + [s.(reservable := s.reservable + n)]
    {
      var back := Back();
      back.Commit(n);
      states := states[size - 1 := back.State()];
      ElementChanged(size - 1);
    }

    method AddTrackersToBack(ts: seq<Tracker>)
      requires Valid() && size > 0
      modifies Repr
      ensures Valid() && Repr == old(Repr) && size == old(size) > 0
      ensures var s := old(states)[size - 1];
              states == old(states)[..size - 1] + [s.(trackers := s.trackers + ts)]
    {
      var back := Back();
      back.AddDrainTrackers(ts);
      states := states[size - 1 := back.State()];
      ElementChanged(size - 1);
    }

    /** Gives up memory that no slot refers to any more. */
    ghost method Disown(b: array<byte>)
      requires Valid() && forall k | 0 <= k < ring.Length :: ring[k].base != b
      modifies this`Repr
      ensures Valid() && Repr == old(Repr) - {b}
    {
      Repr := Repr - {b};
    }

    /** `emplace_back(std::move(other.front()))`; the front slot of `other` is left blank. */
    method TakeFrontOf(other: SliceDeque, log: ResourceLog)
      requires Valid() && other.Valid() && Repr !! other.Repr && log !in Repr + other.Repr && other.size > 0
      modifies Repr, other.Repr, log
      ensures Valid() && other.Valid() && Repr !! other.Repr && fresh(Repr + other.Repr - old(Repr + other.Repr))
      ensures states == old(states) + [old(other.states)[0]]
      ensures other.size == old(other.size) && other.states == [other.states[0]] + old(other.states)[1..]
      ensures BlankState(other.states[0])
      ensures log.fired == old(log.fired) && log.balance == old(log.balance)
    {
      ghost var k, b := other.start, other.Front().base;
      other.StatesDistinct();
      EmplaceBack(other.Front(), log);
      other.states := other.states[0 := other.ring[k].State()];
      other.Repr := other.Repr + {other.ring[k].base};
      other.ElementMoved(0);
      other.Disown(b);
    }

    /** `emplace_front(std::move(other.back()))`; the last slot of `other` is left blank. */
    method TakeBackOf(other: SliceDeque, log: ResourceLog)
      requires Valid() && other.Valid() && Repr !! other.Repr && log !in Repr + other.Repr && other.size > 0
      modifies Repr, other.Repr, log
      ensures Valid() && other.Valid() && Repr !! other.Repr && fresh(Repr + other.Repr - old(Repr + other.Repr))
      ensures other.size == old(other.size) > 0
      ensures states == [old(other.states)[other.size - 1]] + old(states)
      ensures other.states == old(other.states)[..other.size - 1] + [other.states[other.size - 1]]
      ensures BlankState(other.states[other.size - 1])
      ensures log.fired == old(log.fired) && log.balance == old(log.balance)
    {
      ghost var k, b := Slot(other.start, other.ring.Length, other.size - 1), other.Back().base;
      other.StatesDistinct();
      EmplaceFront(other.Back(), log);
      other.states := other.states[other.size - 1 := other.ring[k].State()];
      other.Repr := other.Repr + {other.ring[k].base};
      other.ElementMoved(other.size - 1);
      other.Disown(b);
    }

    /** `other.front().transferDrainTrackersTo(back())` */
    method TakeTrackersOfFront(other: SliceDeque)
      requires Valid() && other.Valid() && Repr !! other.Repr && size > 0 && other.size > 0
      modifies Repr, other.Repr
      ensures Valid() && other.Valid() && Repr == old(Repr) && other.Repr == old(other.Repr)
      ensures size == old(size) && other.size == old(other.size)
      ensures var s, f := old(states)[size - 1], old(other.states)[0];
              && states == old(states)[..size - 1] + [s.(trackers := s.trackers + f.trackers)]
              && other.states == [f.(trackers := [])] + old(other.states)[1..]
    {
      var front, back := other.Front(), Back();
      assert front !in Repr && front.base !in Repr && back !in other.Repr && back.base !in other.Repr;
      front.TransferDrainTrackersTo(back);
      states := states[size - 1 := back.State()];
      other.states := other.states[0 := front.State()];
      ElementChanged(size - 1);
      other.ElementChanged(0);
    }

    /** `front().maybeChargeAccount(account)` */
    method ChargeFront(account: Option<Account>, log: ResourceLog)
      requires Valid() && size > 0 && log !in Repr
      modifies Repr, log
      ensures Valid() && Repr == old(Repr) && size == old(size) > 0
      ensures var s, t := old(states)[0], states[0];
              && t == s.(account := if s.account.None? && s.owned then account else s.account)
              && states == [t] + old(states)[1..]
              && log.fired == old(log.fired)
              && forall a :: log.Net(a) == old(log.Net(a)) + t.BoundTo(a) - s.BoundTo(a)
    {
      var front := Front();
      front.MaybeChargeAccount(account, log);
      states := states[0 := front.State()];
      ElementChanged(0);
    }

    /** Moves the first slice into a blank one; the front slot is left blank. */
    method MoveFrontInto(slice: Slice, log: ResourceLog)
      requires Valid() && size > 0 && log !in Repr && slice !in Repr && slice.Blank()
      modifies Repr, slice, log
      ensures Valid() && fresh(Repr - old(Repr)) && size == old(size) > 0
      ensures slice.Valid() && slice.State() == old(states)[0] && slice !in Repr && slice.base !in Repr
      ensures slice.base in old(Repr)
      ensures states == [states[0]] + old(states)[1..] && BlankState(states[0])
      ensures log.fired == old(log.fired) && log.balance == old(log.balance)
    {
      StatesDistinct();
      Fill(slice, Front(), log);
      states := states[0 := ring[start].State()];
      Repr := Repr + {ring[start].base};
      ElementMoved(0);
      Disown(slice.base);
    }

    /** `auto slice = std::move(front())`; the front slot is left blank. */
    method MoveFrontOut(log: ResourceLog) returns (slice: Slice)
      requires Valid() && size > 0 && log !in Repr
      modifies Repr, log
      ensures Valid() && fresh(Repr - old(Repr)) && size == old(size) > 0
      ensures fresh(slice) && slice.Valid() && slice !in Repr && slice.base !in Repr && slice.base in old(Repr)
      ensures slice.State() == old(states)[0]
      ensures states == [states[0]] + old(states)[1..] && BlankState(states[0])
      ensures log.fired == old(log.fired) && log.balance == old(log.balance)
    {
      slice := new Slice.Empty();
      MoveFrontInto(slice, log);
    }
  }
}
