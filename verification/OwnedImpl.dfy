/** The byte buffer: a ring of slices that stands for one flat byte string. */
module OwnedImplModule {
  import opened Bytes
  import opened Resources
  import opened SliceModule
  import opened SliceDequeModule
  import opened Holdings
  import opened RawMemory
  import opened ReservedStorages
  import BufferCopy
  import BufferSearch

  const COPY_THRESHOLD: nat := 512

  const TWO_TO_THE_64: nat := 0x1_0000_0000_0000_0000

  /** Subtraction of unsigned 64-bit integers, which wraps around. */
  function Subtract64(a: nat, b: nat): (r: nat)
    requires a < TWO_TO_THE_64 && b < TWO_TO_THE_64
    ensures r < TWO_TO_THE_64 && r == (a - b) % TWO_TO_THE_64
  {
    if a < b then a + TWO_TO_THE_64 - b else a - b
  }

  class OwnedImpl {
    const slices: SliceDeque
    const log: ResourceLog
    var length: nat
    var account: Option<Account>

    ghost function Repr(): set<object>
      reads this, slices
    {
      {this} + slices.Repr
    }

    ghost predicate Valid()
      reads this, slices, slices.Repr
    {
      && this !in slices.Repr && log !in slices.Repr
      && slices.Valid()
      && length == |ContentOf(slices.states)|
    }

    ghost function Content(): seq<byte>
      requires AllValid(slices.states)
      reads slices
    {
      ContentOf(slices.states)
    }

    /** Trackers held by live slices or already fired. */
    ghost function Trackers(): multiset<Tracker>
      reads slices, log
    {
      multiset(log.fired) + TrackersOf(slices.states)
    }

    /** What the account was charged beyond the capacities of the live slices bound to it. */
    ghost function Excess(a: Account): int
      reads slices, log
    {
      log.Net(a) - BoundOf(slices.states, a)
    }

    twostate predicate Conserves()
      reads slices, log
    {
      Trackers() == old(Trackers()) && forall a :: Excess(a) == old(Excess(a))
    }

    constructor (account: Option<Account>, log: ResourceLog)
      ensures Valid() && fresh(Repr()) && Content() == [] && this.log == log && this.account == account
      ensures slices.states == []
    {
      slices := new SliceDeque();
      this.log, length, this.account := log, 0, account;
    }

    /** `slices_.emplace_back(Slice(size, account_))` */
    method PushNewBack(minSize: nat)
      requires Valid()
      modifies Repr(), log
      ensures Valid() && fresh(Repr() - old(Repr())) && Conserves() && account == old(account)
      ensures Content() == old(Content()) && |slices.states| == old(|slices.states|) + 1
      ensures var s := slices.states[|slices.states| - 1];
              slices.states == old(slices.states) + [s] && s.reservable == 0 && minSize <= |s.memory|
    {
      var slice := new Slice.Owned(minSize, account, log);
      HoldingsSnoc(slices.states, slice.State());
      ContentSnoc(slices.states, slice.State());
      slices.EmplaceBack(slice, log);
    }

    /** `slices_.back().append(src)`, with the length kept up to date. */
    method AppendBack(src: seq<byte>) returns (copied: nat)
      requires Valid() && slices.size > 0
      modifies Repr()
      ensures Valid() && Repr() == old(Repr()) && Conserves() && account == old(account)
      ensures |slices.states| == old(|slices.states|)
      ensures copied == Min(|src|, old(slices.states[|slices.states| - 1].ReservableSize()))
      ensures Content() == old(Content()) + src[..copied]
    {
      ghost var front, s := slices.states[..slices.size - 1], slices.states[slices.size - 1];
      assert slices.states == front + [s];
      copied := slices.AppendToBack(src);
      ghost var t := slices.states[slices.size - 1];
      assert t.Content() == s.Content() + src[..copied];
      ReplaceLast(front, s, t);
      Associative(ContentOf(front), s.Content(), src[..copied]);
      length := length + copied;
    }

    /** One step of `AddImpl`: fills the last slice, or a new one that takes all of `src`. */
    method AddPiece(src: seq<byte>, newSliceNeeded: bool) returns (copied: nat)
      requires Valid() && (newSliceNeeded || slices.size > 0)
      modifies Repr(), log
      ensures Valid() && fresh(Repr() - old(Repr())) && Conserves() && account == old(account)
      ensures slices.size == old(slices.size) + if newSliceNeeded then 1 else 0
      ensures copied ==
              if newSliceNeeded then |src| else Min(|src|, old(slices.states[slices.size - 1].ReservableSize()))
      ensures Content() == old(Content()) + src[..copied]
    {
      if newSliceNeeded {
        PushNewBack(|src|);
      }
      copied := AppendBack(src);
    }

    /** Appends a copy of `src`. */
    method AddImpl(src: seq<byte>)
      requires Valid()
      modifies Repr(), log
      ensures Valid() && fresh(Repr() - old(Repr())) && Conserves() && account == old(account)
      ensures Content() == old(Content()) + src && old(slices.size) <= slices.size <= old(slices.size) + 1
      ensures old(slices.size > 0 && |src| <= slices.Back().ReservableSize()) ==> slices.size == old(slices.size)
    {
      var rest := src;
      var newSliceNeeded := slices.size == 0;
      ghost var fits := slices.size > 0 && |src| <= slices.Back().ReservableSize();
      ghost var goal := Content() + src;
      while rest != []
        invariant Valid() && fresh(Repr() - old(Repr())) && Conserves() && account == old(account)
        invariant Content() + rest == goal
        invariant !newSliceNeeded ==> slices.size > 0 && slices.states == old(slices.states) && rest == src
        invariant slices.size == old(slices.size) || (rest == [] && !fits && slices.size == old(slices.size) + 1)
        invariant fits && newSliceNeeded ==> rest == []
        decreases |rest|, if newSliceNeeded then 0 else 1
      {
        ghost var before := Content();
        var copied := AddPiece(rest, newSliceNeeded);
        TakeRest(before, rest, copied);
        rest := rest[copied..];
        newSliceNeeded := true;
      }
    }

    method AddDrainTracker(t: Tracker)
      requires Valid() && slices.size > 0
      modifies Repr()
      ensures Valid() && Repr() == old(Repr()) && account == old(account)
      ensures Content() == old(Content())
      ensures Trackers() == old(Trackers()) + multiset{t} && forall a :: Excess(a) == old(Excess(a))
    {
      ghost var front, s := slices.states[..slices.size - 1], slices.states[slices.size - 1];
      assert slices.states == front + [s];
      slices.AddTrackersToBack([t]);
      ghost var u := slices.states[slices.size - 1];
      HoldingsSnoc(front, s);
      HoldingsSnoc(front, u);
      ContentSnoc(front, s);
      ContentSnoc(front, u);
      assert u.Content() == s.Content() && multiset(u.trackers) == multiset(s.trackers) + multiset{t};
    }

    method BindAccount(account: Option<Account>)
      requires Valid() && slices.size == 0
      modifies this`account
      ensures Valid() && Repr() == old(Repr()) && this.account == account && Content() == []
    {
      this.account := account;
    }

    /** `slices_.emplace_back(std::move(slice))`, with the length kept up to date. */
    method PushBack(slice: Slice)
      requires Valid() && slice.Valid() && slice !in Repr() && slice.base !in Repr()
      modifies Repr(), slice, log
      ensures Valid() && fresh(Repr() - old(Repr()) - {old(slice.base)}) && account == old(account)
      ensures slices.states == old(slices.states) + [old(slice.State())] && log.fired == old(log.fired)
      ensures Content() == old(Content()) + old(slice.Content())
      ensures Trackers() == old(Trackers()) + multiset(old(slice.trackers))
      ensures forall a :: Excess(a) == old(Excess(a)) - old(slice.State()).BoundTo(a)
    {
      HoldingsSnoc(slices.states, slice.State());
      ContentSnoc(slices.states, slice.State());
      length := length + slice.DataSize();
      slices.EmplaceBack(slice, log);
    }

    /** `slices_.emplace_front(std::move(slice))`, with the length kept up to date. */
    method PushFront(slice: Slice)
      requires Valid() && slice.Valid() && slice !in Repr() && slice.base !in Repr()
      modifies Repr(), slice, log
      ensures Valid() && fresh(Repr() - old(Repr()) - {old(slice.base)}) && account == old(account)
      ensures slices.states == [old(slice.State())] + old(slices.states) && log.fired == old(log.fired)
      ensures Content() == old(slice.Content()) + old(Content())
      ensures Trackers() == old(Trackers()) + multiset(old(slice.trackers))
      ensures forall a :: Excess(a) == old(Excess(a)) - old(slice.State()).BoundTo(a)
    {
      HoldingsCons(slice.State(), slices.states);
      ContentCons(slice.State(), slices.states);
      length := length + slice.DataSize();
      slices.EmplaceFront(slice, log);
    }

    /** Adds memory owned by a fragment, without copying; `done` fires when it is released. */
    method AddBufferFragment(memory: array<byte>, done: Tracker)
      requires Valid() && memory !in Repr()
      modifies Repr(), log
      ensures Valid() && fresh(Repr() - old(Repr()) - {memory}) && account == old(account)
      ensures Content() == old(Content()) + memory[..] && log.fired == old(log.fired)
      ensures slices.states ==
                old(slices.states) + [SliceState(memory, memory[..], false, 0, memory.Length, [done], None)]
      ensures Trackers() == old(Trackers()) + multiset{done} && forall a :: Excess(a) == old(Excess(a))
    {
      var slice := new Slice.Fragment(memory, done);
      assert slice.Content() == memory[..];
      PushBack(slice);
    }

    /** `slices_.front().prepend(src)`, with the length kept up to date. */
    method PrependToFront(src: seq<byte>) returns (copied: nat)
      requires Valid() && slices.size > 0 && src != []
      modifies Repr()
      ensures Valid() && Repr() == old(Repr()) && Conserves() && account == old(account)
      ensures |slices.states| == old(|slices.states|) && copied <= |src|
      ensures var s := old(slices.states[0]); s.DataSize() == 0 ==> copied == Min(|src|, |s.memory|)
      ensures Content() == src[|src| - copied..] + old(Content())
    {
      ghost var s, rest := slices.states[0], slices.states[1..];
      assert slices.states == [s] + rest;
      s.PrependedContent(src);
      copied := slices.PrependToFront(src);
      ghost var t := slices.states[0];
      ReplaceFirst(s, t, rest);
      length := length + copied;
    }

    /** `slices_.emplace_front(Slice(size, account_))` */
    method PushNewFront(minSize: nat)
      requires Valid()
      modifies Repr(), log
      ensures Valid() && fresh(Repr() - old(Repr())) && Conserves() && account == old(account)
      ensures Content() == old(Content()) && |slices.states| == old(|slices.states|) + 1
      ensures var s := slices.states[0]; s.DataSize() == 0 && minSize <= |s.memory|
    {
      var slice := new Slice.Owned(minSize, account, log);
      HoldingsCons(slice.State(), slices.states);
      ContentCons(slice.State(), slices.states);
      slices.EmplaceFront(slice, log);
    }

    /** Puts a copy of `data` in front of the content, filling each slice from its end. */
    method Prepend(data: seq<byte>)
      requires Valid()
      modifies Repr(), log
      ensures Valid() && fresh(Repr() - old(Repr())) && Conserves() && account == old(account)
      ensures Content() == data + old(Content())
    {
      var rest := data;
      var newSliceNeeded := slices.size == 0;
      while rest != []
        invariant Valid() && fresh(Repr() - old(Repr())) && Conserves() && account == old(account)
        invariant rest + Content() == data + old(Content())
        invariant newSliceNeeded || slices.size > 0
        decreases |rest|, if newSliceNeeded then 0 else 1
      {
        if newSliceNeeded {
          PushNewFront(|rest|);
        }
        var copied := PrependToFront(rest);
        rest := rest[..|rest| - copied];
        newSliceNeeded := true;
      }
    }

    /** `slices_.pop_front()`, with the length kept up to date. */
    method PopFront()
      requires Valid() && slices.size > 0
      modifies Repr(), log
      ensures Valid() && fresh(Repr() - old(Repr())) && Conserves() && account == old(account)
      ensures slices.states == old(slices.states)[1..] && slices.size == old(slices.size) - 1
      ensures log.fired == old(log.fired) + old(slices.states)[0].trackers
      ensures var n := old(slices.states)[0].DataSize();
              n <= |old(Content())| && Content() == old(Content())[n..] && length == old(length) - n
    {
      ghost var s, rest := slices.states[0], slices.states[1..];
      assert slices.states == [s] + rest;
      HoldingsCons(s, rest);
      ContentCons(s, rest);
      length := length - slices.Front().DataSize();
      slices.PopFront(log);
    }

    /** `slices_.front().drain(n)`, with the length kept up to date. */
    method DrainFront(n: nat)
      requires Valid() && slices.size > 0 && n <= slices.states[0].DataSize()
      modifies Repr()
      ensures Valid() && Repr() == old(Repr()) && Conserves() && account == old(account)
      ensures slices.states == [old(slices.states)[0].Drained(n)] + old(slices.states)[1..]
      ensures n <= |old(Content())| && Content() == old(Content())[n..]
    {
      ghost var s, rest := slices.states[0], slices.states[1..];
      assert slices.states == [s] + rest;
      slices.DrainFront(n);
      ghost var t := slices.states[0];
      s.DrainedContent(n);
      ReplaceFirst(s, t, rest);
      assert |t.Content()| == t.DataSize();
      length := length - n;
    }

    /** Draining `size` more bytes leaves `left` and brings what has fired to `fired`. */
    ghost predicate ToDrain(size: nat, left: seq<SliceState>, fired: seq<Tracker>)
      requires AllValid(slices.states)
      reads this, slices, log
    {
      Drained(slices.states, size) == left && log.fired + DrainedTrackers(slices.states, size) == fired
    }

    static lemma DrainStep(ss: seq<SliceState>, now: seq<Tracker>, size: nat, left: seq<SliceState>,
                           fired: seq<Tracker>)
      requires AllValid(ss) && ss != [] && ss[0].DataSize() <= size
      requires Drained(ss, size) == left && now + DrainedTrackers(ss, size) == fired
      ensures var rest := size - ss[0].DataSize();
              Drained(ss[1..], rest) == left && now + ss[0].trackers + DrainedTrackers(ss[1..], rest) == fired
    {
      Associative(now, ss[0].trackers, DrainedTrackers(ss[1..], size - ss[0].DataSize()));
    }

    /** Pops the first slice, which is within what is to be drained. */
    method PopDrained(size: nat, ghost left: seq<SliceState>, ghost fired: seq<Tracker>) returns (rest: nat)
      requires Valid() && slices.size > 0 && slices.states[0].DataSize() <= size && ToDrain(size, left, fired)
      modifies Repr(), log
      ensures Valid() && fresh(Repr() - old(Repr())) && Conserves() && account == old(account)
      ensures rest == size - old(slices.states[0].DataSize()) && slices.size == old(slices.size) - 1
      ensures size - rest <= |old(Content())| && Content() == old(Content())[size - rest..]
      ensures ToDrain(rest, left, fired)
    {
      rest := size - slices.Front().DataSize();
      DrainStep(slices.states, log.fired, size, left, fired);
      PopFront();
    }

    /** Removes zero byte slices from the front. */
    method TrimFront()
      requires Valid()
      modifies Repr(), log
      ensures Valid() && fresh(Repr() - old(Repr())) && Conserves() && account == old(account)
      ensures Content() == old(Content())
      ensures slices.size > 0 ==> slices.states[0].DataSize() > 0
      ensures slices.states == Drained(old(slices.states), 0)
      ensures log.fired == old(log.fired) + DrainedTrackers(old(slices.states), 0)
    {
      ghost var left, fired := Drained(slices.states, 0), log.fired + DrainedTrackers(slices.states, 0);
      while slices.size > 0 && slices.Front().DataSize() == 0
        invariant Valid() && fresh(Repr() - old(Repr())) && Conserves() && account == old(account)
        invariant Content() == old(Content()) && ToDrain(0, left, fired)
        decreases slices.size
      {
        var rest := PopDrained(0, left, fired);
      }
    }

    /** One step of `Drain`: pops the first slice or drains a part of it; says how much is left to do. */
    method DrainPiece(size: nat, ghost left: seq<SliceState>, ghost fired: seq<Tracker>, ghost all: seq<byte>,
                      ghost done: nat)
        returns (rest: nat, ghost done': nat)
      requires Valid() && slices.size > 0 && ToDrain(size, left, fired) && size > 0
      requires done <= |all| && Content() == all[done..]
      modifies Repr(), log
      ensures Valid() && fresh(Repr() - old(Repr())) && Conserves() && account == old(account)
      ensures done' + rest == done + size && done <= done' <= |all| && Content() == all[done'..]
      ensures rest > 0 ==> slices.size < old(slices.size)
      ensures ToDrain(rest, left, fired)
    {
      var sliceSize := slices.Front().DataSize();
      if sliceSize <= size {
        rest := PopDrained(size, left, fired);
      } else {
        DrainFront(size);
        rest := 0;
      }
      done' := done + size - rest;
      DropMore(all, done, size - rest);
    }

    /** The loop of `Drain`, before empty slices are dropped. */
    method DrainAll(size: nat, ghost left: seq<SliceState>, ghost fired: seq<Tracker>)
      requires Valid() && ToDrain(size, left, fired)
      modifies Repr(), log
      ensures Valid() && fresh(Repr() - old(Repr())) && Conserves() && account == old(account)
      ensures Content() == old(Content())[Min(size, |old(Content())|)..]
      ensures ToDrain(0, left, fired)
    {
      ghost var all, done: nat := Content(), 0;
      var rest: nat := size;
      while rest != 0
        invariant Valid() && fresh(Repr() - old(Repr())) && Conserves() && account == old(account)
        invariant done + rest == size && done <= |all| && Content() == all[done..] && ToDrain(rest, left, fired)
        decreases rest, slices.size
      {
        if slices.size == 0 {
          break;
        }
        rest, done := DrainPiece(rest, left, fired, all, done);
      }
    }

    /** Removes the first `size` bytes, or everything; leaves no empty slice at the front. */
    method Drain(size: nat)
      requires Valid()
      modifies Repr(), log
      ensures Valid() && fresh(Repr() - old(Repr())) && Conserves() && account == old(account)
      ensures Content() == old(Content())[Min(size, |old(Content())|)..]
      ensures slices.size > 0 ==> slices.states[0].DataSize() > 0
      ensures slices.states == Drained(old(slices.states), size)
      ensures log.fired == old(log.fired) + DrainedTrackers(old(slices.states), size)
    {
      ghost var left, fired := Drained(slices.states, size), log.fired + DrainedTrackers(slices.states, size);
      DrainAll(size, left, fired);
      TrimFront();
    }

    /** Fires every tracker, returns every charge and drops all content: the destructor. */
    method Destroy()
      requires Valid()
      modifies Repr(), log
      ensures Valid() && slices.size == 0 && Content() == []
      ensures multiset(log.fired) == old(Trackers()) && forall a :: log.Net(a) == old(Excess(a))
    {
      while slices.size > 0
        invariant Valid() && fresh(Repr() - old(Repr())) && Conserves()
        decreases slices.size
      {
        PopFront();
      }
    }

    /** Moves the first slice out and pops its slot. */
    method TakeFront() returns (slice: Slice)
      requires Valid() && slices.size > 0
      modifies Repr(), log
      ensures Valid() && account == old(account) && fresh(Repr() - old(Repr()))
      ensures fresh(slice) && slice.Valid() && slice !in Repr() && slice.base !in Repr()
      ensures slice.State() == old(slices.states)[0] && slices.states == old(slices.states)[1..]
      ensures old(Content()) == slice.Content() + Content()
      ensures Trackers() + multiset(slice.trackers) == old(Trackers())
      ensures forall a :: Excess(a) == old(Excess(a)) + slice.State().BoundTo(a)
    {
      ghost var s, rest := slices.states[0], slices.states[1..];
      assert slices.states == [s] + rest;
      HoldingsCons(s, rest);
      ContentCons(s, rest);
      slice := slices.MoveFrontOut(log);
      length := length - slice.DataSize();
      assert slices.states[1..] == rest;
      slices.PopFront(log);
    }

    /** Releases what a slice holds besides its bytes, copying them if the memory is external. */
    method Detach(slice: Slice) returns (detached: Slice)
      requires slice.Valid()
      modifies slice, log
      ensures detached.Valid() && detached.Content() == old(slice.Content())
      ensures detached.owned && detached.trackers == [] && detached.account == None
      ensures detached == slice || fresh(detached)
      ensures detached.base == old(slice.base) || fresh(detached.base)
      ensures log.fired == old(log.fired) + old(slice.trackers)
      ensures forall a :: log.Net(a) == old(log.Net(a)) - old(slice.State()).BoundTo(a)
    {
      if !slice.owned {
        var mutableSlice := new Slice.Owned(slice.DataSize(), None, log);
        var copied := mutableSlice.Append(slice.Content());
        assert mutableSlice.Content() == slice.Content();
        slice.CallAndClearDrainTrackersAndCharges(log);
        detached := mutableSlice;
      } else {
        slice.CallAndClearDrainTrackersAndCharges(log);
        detached := slice;
      }
    }

    /** `ExtractMutableFrontSlice` once the empty slices are gone. */
    method ExtractFront() returns (extracted: Slice)
      requires Valid() && slices.size > 0
      modifies Repr(), log
      ensures Valid() && Conserves() && account == old(account) && fresh(Repr() - old(Repr()))
      ensures extracted.Valid() && fresh(extracted) && extracted !in Repr() && extracted.base !in Repr()
      ensures extracted.owned && extracted.trackers == [] && extracted.account == None
      ensures extracted.Content() == old(slices.states[0].Content())
      ensures old(Content()) == extracted.Content() + Content()
    {
      extracted := TakeFront();
      extracted := Detach(extracted);
    }

    /** Hands the first non-empty slice to the caller as a mutable slice that holds nothing else. */
    method ExtractMutableFrontSlice() returns (extracted: Slice)
      requires Valid() && length > 0
      modifies Repr(), log
      ensures Valid() && Conserves() && account == old(account) && fresh(Repr() - old(Repr()))
      ensures extracted.Valid() && fresh(extracted) && extracted !in Repr() && extracted.base !in Repr()
      ensures extracted.owned && extracted.trackers == [] && extracted.account == None && extracted.Content() != []
      ensures old(Content()) == extracted.Content() + Content()
    {
      TrimFront();
      extracted := ExtractFront();
    }

    /** Whether the first slice of `other` is mutable, small and fits behind our last slice. */
    predicate CanCoalesce(other: OwnedImpl)
      requires Valid() && other.Valid() && other.slices.size > 0
      reads this, slices, slices.Repr, other, other.slices, other.slices.Repr
    {
      && other.slices.Front().owned && slices.size > 0
      && other.slices.Front().DataSize() < COPY_THRESHOLD
      && slices.Back().ReservableSize() >= other.slices.Front().DataSize()
    }

    /** Nothing that two buffers hold is lost or released twice. */
    twostate predicate ConservesWith(other: OwnedImpl)
      reads slices, other.slices, log
    {
      && Trackers() + TrackersOf(other.slices.states) == old(Trackers() + TrackersOf(other.slices.states))
      && forall a :: Excess(a) - BoundOf(other.slices.states, a) == old(Excess(a) - BoundOf(other.slices.states, a))
    }

    /** Only `other` changed, and it lost nothing. */
    twostate lemma OnlyOtherChanged(other: OwnedImpl)
      requires log == other.log && slices.states == old(slices.states) && other.Conserves()
      ensures ConservesWith(other)
    {
      var fired, mine, theirs := multiset(log.fired), TrackersOf(slices.states), TrackersOf(other.slices.states);
      Regroup(fired, mine, theirs);
      Regroup(old(multiset(log.fired)), mine, old(TrackersOf(other.slices.states)));
      forall a ensures Excess(a) - BoundOf(other.slices.states, a) == old(Excess(a) - BoundOf(other.slices.states, a)) {
        assert other.Excess(a) == old(other.Excess(a));
      }
    }

    /** Two buffers with nothing in common but the log. */
    ghost predicate Apart(other: OwnedImpl)
      reads this, slices, slices.Repr, other, other.slices, other.slices.Repr
    {
      && Valid() && other.Valid() && log == other.log
      && this != other && slices.Repr !! other.slices.Repr && this !in other.slices.Repr && other !in slices.Repr
    }

    static lemma MovedTrackers(front: seq<SliceState>, s: SliceState, f: SliceState, rest: seq<SliceState>)
      requires AllValid(front + [s])
      ensures var t, g := s.(trackers := s.trackers + f.trackers), f.(trackers := []);
              && AllValid(front + [t]) && ContentOf(front + [t]) == ContentOf(front + [s])
              && TrackersOf(front + [t]) + TrackersOf([g] + rest) == TrackersOf(front + [s]) + TrackersOf([f] + rest)
              && (forall a :: BoundOf(front + [t], a) == BoundOf(front + [s], a))
              && (forall a :: BoundOf([g] + rest, a) == BoundOf([f] + rest, a))
    {
      var t, g := s.(trackers := s.trackers + f.trackers), f.(trackers := []);
      assert (front + [s])[|front|] == s && AllValid(front) by {
        forall i | 0 <= i < |front| ensures front[i].Valid() { assert (front + [s])[i] == front[i]; }
      }
      HoldingsSnoc(front, s);
      HoldingsSnoc(front, t);
      HoldingsCons(f, rest);
      HoldingsCons(g, rest);
      ContentSnoc(front, s);
      ContentSnoc(front, t);
      assert t.Content() == s.Content();
    }

    /** `other.slices_.front().transferDrainTrackersTo(slices_.back())` */
    method MoveTrackers(other: OwnedImpl)
      requires Apart(other) && slices.size > 0 && other.slices.size > 0
      modifies slices.Repr, other.slices.Repr
      ensures Valid() && other.slices.Valid()
      ensures slices.Repr == old(slices.Repr) && other.slices.Repr == old(other.slices.Repr)
      ensures slices.size == old(slices.size)
      ensures other.slices.size == old(other.slices.size) > 0 &&
              other.slices.states[1..] == old(other.slices.states)[1..]
      ensures Content() == old(Content())
      ensures ConservesWith(other)
    {
      ghost var front, s := slices.states[..slices.size - 1], slices.states[slices.size - 1];
      ghost var f, rest := other.slices.states[0], other.slices.states[1..];
      assert slices.states == front + [s] && other.slices.states == [f] + rest;
      MovedTrackers(front, s, f, rest);
      slices.TakeTrackersOfFront(other.slices);
      Regroup(multiset(log.fired), TrackersOf(old(slices.states)), TrackersOf(old(other.slices.states)));
      Regroup(multiset(log.fired), TrackersOf(slices.states), TrackersOf(other.slices.states));
    }

    /** `slices_.emplace_back(std::move(other.slices_.front()))`, with the length kept up to date. */
    method TakeOver(other: OwnedImpl)
      requires Apart(other) && other.slices.size > 0
      modifies Repr(), other.slices.Repr, log
      ensures Valid() && account == old(account)
      ensures slices.Repr !! other.slices.Repr && this !in other.slices.Repr && other !in slices.Repr
      ensures fresh(slices.Repr + other.slices.Repr - old(slices.Repr + other.slices.Repr))
      ensures other.slices.Valid() && other !in other.slices.Repr && log !in other.slices.Repr
      ensures slices.size == old(slices.size) + 1
      ensures other.slices.size == old(other.slices.size) > 0 &&
              other.slices.states[1..] == old(other.slices.states)[1..]
      ensures Content() == old(Content()) + old(other.slices.states[0].Content())
      ensures ConservesWith(other)
    {
      ghost var t, rest := other.slices.states[0], other.slices.states[1..];
      assert other.slices.states == [t] + rest;
      HoldingsSnoc(slices.states, t);
      HoldingsCons(t, rest);
      ContentSnoc(slices.states, t);
      length := length + other.slices.Front().DataSize();
      slices.TakeFrontOf(other.slices, log);
      HoldingsCons(other.slices.states[0], rest);
    }

    /** `slices_.front().maybeChargeAccount(to)` */
    method ChargeFront(to: Option<Account>)
      requires Valid() && slices.size > 0
      modifies slices.Repr, log
      ensures Valid() && slices.Repr == old(slices.Repr) && Conserves() && slices.size == old(slices.size)
      ensures Content() == old(Content())
      ensures var s, t := old(slices.states)[0], slices.states[0];
              slices.states == [t] + old(slices.states)[1..] &&
              t == s.(account := if s.account.None? && s.owned then to else s.account)
    {
      ghost var s, rest := slices.states[0], slices.states[1..];
      assert slices.states == [s] + rest;
      slices.ChargeFront(to, log);
      ghost var t := slices.states[0];
      HoldingsCons(s, rest);
      HoldingsCons(t, rest);
      ContentCons(s, rest);
      ContentCons(t, rest);
      assert t.Content() == s.Content();
    }

    /** Charges the first slice of `other` and moves it over. */
    method AddSlice(other: OwnedImpl)
      requires Apart(other) && other.slices.size > 0
      modifies Repr(), other.slices.Repr, log
      ensures Valid() && account == old(account)
      ensures slices.Repr !! other.slices.Repr && this !in other.slices.Repr && other !in slices.Repr
      ensures fresh(slices.Repr + other.slices.Repr - old(slices.Repr + other.slices.Repr))
      ensures other.slices.Valid() && other !in other.slices.Repr && log !in other.slices.Repr
      ensures slices.size == old(slices.size) + 1
      ensures other.slices.size == old(other.slices.size) > 0 &&
              other.slices.states[1..] == old(other.slices.states)[1..]
      ensures Content() == old(Content()) + old(other.slices.states[0].Content())
      ensures ConservesWith(other)
    {
      other.ChargeFront(account);
      OnlyOtherChanged(other);
      TakeOver(other);
    }

    /**
     * Moves the first slice of `other` behind the content: coalesces it into the last slice if
     * possible, else takes it over. What remains in its slot is left to the caller to pop.
     */
    method CoalesceOrAddSlice(other: OwnedImpl)
      requires Apart(other) && other.slices.size > 0
      modifies Repr(), other.slices.Repr, log
      ensures Valid() && account == old(account)
      ensures slices.Repr !! other.slices.Repr && this !in other.slices.Repr && other !in slices.Repr
      ensures fresh(slices.Repr + other.slices.Repr - old(slices.Repr + other.slices.Repr))
      ensures other.slices.Valid() && other !in other.slices.Repr && log !in other.slices.Repr
      ensures slices.size == old(slices.size) + if old(CanCoalesce(other)) then 0 else 1
      ensures other.slices.size == old(other.slices.size) > 0 &&
              other.slices.states[1..] == old(other.slices.states)[1..]
      ensures Content() == old(Content()) + old(other.slices.states[0].Content())
      ensures ConservesWith(other)
    {
      if CanCoalesce(other) {
        AddImpl(other.slices.Front().Content());
        MoveTrackers(other);
      } else {
        AddSlice(other);
      }
    }

    /** Forgets `moved` bytes that left with the first slice, and pops its slot. */
    method PopMovedFront(moved: nat)
      requires slices.Valid() && this !in slices.Repr && log !in slices.Repr && slices.size > 0
      requires length == moved + |ContentOf(slices.states[1..])|
      modifies Repr(), log
      ensures Valid() && fresh(slices.Repr - old(slices.Repr)) && Conserves() && account == old(account)
      ensures slices.states == old(slices.states)[1..]
    {
      ghost var f, rest := slices.states[0], slices.states[1..];
      assert slices.states == [f] + rest;
      HoldingsCons(f, rest);
      length := length - moved;
      slices.PopFront(log);
    }

    /** `coalesceOrAddSlice(std::move(other.slices_.front()))`, then the pop of the front slot. */
    method MoveFrontSlice(other: OwnedImpl)
      requires Apart(other) && other.slices.size > 0
      modifies Repr(), other.Repr(), log
      ensures Apart(other) && ConservesWith(other)
      ensures fresh(slices.Repr + other.slices.Repr - old(slices.Repr + other.slices.Repr))
      ensures account == old(account) && other.account == old(other.account)
      ensures slices.size == old(slices.size) + if old(CanCoalesce(other)) then 0 else 1
      ensures other.slices.states == old(other.slices.states)[1..]
      ensures Content() == old(Content()) + old(other.slices.states[0].Content())
      ensures other.Content() == old(ContentOf(other.slices.states[1..]))
    {
      ghost var f, rest := other.slices.states[0], other.slices.states[1..];
      assert other.slices.states == [f] + rest;
      ContentCons(f, rest);
      var sliceSize := other.slices.Front().DataSize();
      CoalesceOrAddSlice(other);
      label L:
      other.PopMovedFront(sliceSize);
      OnlyOtherChanged@L(other);
    }

    /** One step of `Move`, told by the two contents together. */
    method MoveStep(other: OwnedImpl)
      requires Apart(other) && other.slices.size > 0
      modifies Repr(), other.Repr(), log
      ensures Apart(other) && ConservesWith(other)
      ensures fresh(slices.Repr + other.slices.Repr - old(slices.Repr + other.slices.Repr))
      ensures account == old(account) && other.account == old(other.account)
      ensures Content() + other.Content() == old(Content()) + old(other.Content())
      ensures other.slices.size == old(other.slices.size) - 1
    {
      ghost var f, rest := other.slices.states[0], other.slices.states[1..];
      assert other.slices.states == [f] + rest;
      ContentCons(f, rest);
      MoveFrontSlice(other);
    }

    /** Moves all of `other` behind the content. */
    method Move(other: OwnedImpl)
      requires Apart(other)
      modifies Repr(), other.Repr(), log
      ensures Apart(other) && ConservesWith(other)
      ensures fresh(slices.Repr + other.slices.Repr - old(slices.Repr + other.slices.Repr))
      ensures account == old(account) && other.account == old(other.account)
      ensures Content() == old(Content()) + old(other.Content())
      ensures other.Content() == [] && other.slices.size == 0
    {
      while other.slices.size > 0
        invariant Apart(other) && ConservesWith(other)
        invariant fresh(slices.Repr + other.slices.Repr - old(slices.Repr + other.slices.Repr))
        invariant account == old(account) && other.account == old(other.account)
        invariant Content() + other.Content() == old(Content()) + old(other.Content())
        decreases other.slices.size
      {
        MoveStep(other);
      }
    }

    static lemma SplitMore(mine: seq<byte>, theirs: seq<byte>, done: nat, n: nat, m: nat, content: seq<byte>,
                           others: seq<byte>)
      requires done + n == m <= |theirs|
      requires content == mine + theirs[..done] + theirs[done..][..n] && others == theirs[done..][n..]
      ensures content == mine + theirs[..m] && others == theirs[m..]
    {
      TakeMore(mine, theirs, done, n);
    }

    static lemma SplitEnds(mine: seq<byte>, theirs: seq<byte>, done: nat, amount: nat, content: seq<byte>,
                           others: seq<byte>)
      requires done <= |theirs| && done <= amount && (done == amount || others == [])
      requires content == mine + theirs[..done] && others == theirs[done..]
      ensures var n := Min(amount, |theirs|); content == mine + theirs[..n] && others == theirs[n..]
    {
    }

    /** The first `n` of `theirs` have come behind `mine`; the rest is still with `other`. */
    ghost predicate Split(other: OwnedImpl, mine: seq<byte>, theirs: seq<byte>, n: nat)
      requires AllValid(slices.states) && AllValid(other.slices.states)
      reads this, slices, other, other.slices
    {
      n <= |theirs| && Content() == mine + theirs[..n] && other.Content() == theirs[n..]
    }

    /** Copies the first bytes of the first slice of `other` and drains them there. */
    method MovePart(other: OwnedImpl, n: nat)
      requires Apart(other) && other.slices.size > 0 && n <= other.slices.states[0].DataSize()
      modifies Repr(), other.Repr(), log
      ensures Apart(other) && ConservesWith(other)
      ensures fresh(slices.Repr + other.slices.Repr - old(slices.Repr + other.slices.Repr))
      ensures account == old(account) && other.account == old(other.account)
      ensures Content() == old(Content()) + old(other.slices.states[0].Content())[..n]
      ensures n <= |old(other.Content())| && other.Content() == old(other.Content())[n..]
    {
      AddImpl(other.slices.Front().Content()[..n]);
      label L:
      other.DrainFront(n);
      OnlyOtherChanged@L(other);
    }

    /** One step of `MoveLength`: drops an empty slice, copies part of a slice, or moves a whole one. */
    method MovePiece(other: OwnedImpl, limit: nat) returns (moved: nat)
      requires Apart(other) && other.slices.size > 0 && limit > 0
      modifies Repr(), other.Repr(), log
      ensures Apart(other) && ConservesWith(other)
      ensures fresh(slices.Repr + other.slices.Repr - old(slices.Repr + other.slices.Repr))
      ensures account == old(account) && other.account == old(other.account)
      ensures moved == Min(old(other.slices.states[0].DataSize()), limit) <= |old(other.Content())|
      ensures Content() == old(Content()) + old(other.Content())[..moved]
      ensures other.Content() == old(other.Content())[moved..]
      ensures moved == 0 ==> other.slices.size < old(other.slices.size)
    {
      ghost var f, rest := other.slices.states[0], other.slices.states[1..];
      assert other.slices.states == [f] + rest;
      ContentCons(f, rest);
      var sliceSize := other.slices.Front().DataSize();
      moved := Min(sliceSize, limit);
      if moved == 0 {
        other.PopFront();
        OnlyOtherChanged(other);
      } else if moved < sliceSize {
        MovePart(other, moved);
      } else {
        MoveFrontSlice(other);
      }
    }

    method MoveMore(other: OwnedImpl, limit: nat, ghost mine: seq<byte>, ghost theirs: seq<byte>, ghost done: nat)
        returns (moved: nat, ghost done': nat)
      requires Apart(other) && other.slices.size > 0 && limit > 0 && Split(other, mine, theirs, done)
      modifies Repr(), other.Repr(), log
      ensures Apart(other) && ConservesWith(other)
      ensures fresh(slices.Repr + other.slices.Repr - old(slices.Repr + other.slices.Repr))
      ensures account == old(account) && other.account == old(other.account)
      ensures moved <= limit && done' == done + moved && Split(other, mine, theirs, done')
      ensures moved == 0 ==> other.slices.size < old(other.slices.size)
    {
      moved := MovePiece(other, limit);
      done' := done + moved;
      SplitMore(mine, theirs, done, moved, done', Content(), other.Content());
    }

    /** Moves the first `amount` bytes of `other`, or all of it, behind the content. */
    method MoveLength(other: OwnedImpl, amount: nat)
      requires Apart(other)
      modifies Repr(), other.Repr(), log
      ensures Apart(other) && ConservesWith(other)
      ensures fresh(slices.Repr + other.slices.Repr - old(slices.Repr + other.slices.Repr))
      ensures account == old(account) && other.account == old(other.account)
      ensures var n := Min(amount, |old(other.Content())|);
              Content() == old(Content()) + old(other.Content())[..n] && other.Content() == old(other.Content())[n..]
    {
      ghost var mine, theirs, done: nat := Content(), other.Content(), 0;
      var rest: nat := amount;
      while rest != 0 && other.slices.size > 0
        invariant Apart(other) && ConservesWith(other)
        invariant fresh(slices.Repr + other.slices.Repr - old(slices.Repr + other.slices.Repr))
        invariant account == old(account) && other.account == old(other.account)
        invariant done + rest == amount && Split(other, mine, theirs, done)
        decreases rest, other.slices.size
      {
        var moved;
        moved, done := MoveMore(other, rest, mine, theirs, done);
        rest := rest - moved;
      }
      SplitEnds(mine, theirs, done, amount, Content(), other.Content());
    }

    /** `slices_.emplace_front(std::move(other.slices_.back()))`, with the length kept up to date. */
    method TakeOverBack(other: OwnedImpl)
      requires Apart(other) && other.slices.size > 0
      modifies Repr(), other.slices.Repr, log
      ensures Valid() && account == old(account)
      ensures slices.Repr !! other.slices.Repr && this !in other.slices.Repr && other !in slices.Repr
      ensures fresh(slices.Repr + other.slices.Repr - old(slices.Repr + other.slices.Repr))
      ensures other.slices.Valid() && other !in other.slices.Repr && log !in other.slices.Repr && slices.size > 0
      ensures other.slices.size == old(other.slices.size) > 0
      ensures other.slices.states[..other.slices.size - 1] == old(other.slices.states[..other.slices.size - 1])
      ensures Content() == old(other.slices.states[other.slices.size - 1].Content()) + old(Content())
      ensures ConservesWith(other)
      ensures unchanged(other)
    {
      ghost var front, b := other.slices.states[..other.slices.size - 1], other.slices.states[other.slices.size - 1];
      assert other.slices.states == front + [b];
      HoldingsCons(b, slices.states);
      HoldingsSnoc(front, b);
      ContentCons(b, slices.states);
      length := length + other.slices.Back().DataSize();
      slices.TakeBackOf(other.slices, log);
      HoldingsSnoc(front, other.slices.states[other.slices.size - 1]);
    }

    /** Moves the last slice of `other` in front of the first, and charges it. */
    method AddSliceFront(other: OwnedImpl)
      requires Apart(other) && other.slices.size > 0
      modifies Repr(), other.slices.Repr, log
      ensures Valid() && account == old(account)
      ensures slices.Repr !! other.slices.Repr && this !in other.slices.Repr && other !in slices.Repr
      ensures fresh(slices.Repr + other.slices.Repr - old(slices.Repr + other.slices.Repr))
      ensures other.slices.Valid() && other !in other.slices.Repr && log !in other.slices.Repr
      ensures other.slices.size == old(other.slices.size) > 0
      ensures other.slices.states[..other.slices.size - 1] == old(other.slices.states[..other.slices.size - 1])
      ensures Content() == old(other.slices.states[other.slices.size - 1].Content()) + old(Content())
      ensures ConservesWith(other)
      ensures unchanged(other)
    {
      TakeOverBack(other);
      ChargeFront(account);
    }

    /** Forgets `moved` bytes that left with the last slice, and pops its slot. */
    method PopMovedBack(moved: nat)
      requires slices.Valid() && this !in slices.Repr && log !in slices.Repr && slices.size > 0
      requires length == moved + |ContentOf(slices.states[..slices.size - 1])|
      modifies Repr(), log
      ensures Valid() && fresh(slices.Repr - old(slices.Repr)) && Conserves() && account == old(account)
      ensures slices.states == old(slices.states)[..old(slices.size) - 1]
    {
      ghost var front, b := slices.states[..slices.size - 1], slices.states[slices.size - 1];
      assert slices.states == front + [b];
      HoldingsSnoc(front, b);
      length := length - moved;
      slices.PopBack(log);
    }

    /** Makes `other` forget the `moved` bytes that left with its last slice, and pop its slot. */
    method DropMovedBack(other: OwnedImpl, moved: nat)
      requires Valid() && log == other.log && this != other && this !in other.slices.Repr && other !in slices.Repr
      requires slices.Repr !! other.slices.Repr && other.slices.Valid() && other.slices.size > 0
      requires other !in other.slices.Repr && log !in other.slices.Repr
      requires other.length == moved + |ContentOf(other.slices.states[..other.slices.size - 1])|
      modifies other.Repr(), log
      ensures Apart(other) && ConservesWith(other) && other.account == old(other.account)
      ensures slices.states == old(slices.states)
      ensures fresh(other.slices.Repr - old(other.slices.Repr)) && slices.Repr == old(slices.Repr)
      ensures other.slices.states == old(other.slices.states)[..old(other.slices.size) - 1]
    {
      other.PopMovedBack(moved);
      OnlyOtherChanged(other);
    }

    /** Moves the last slice of `other` in front of the first, charges it and pops its old slot. */
    method PrependBackSlice(other: OwnedImpl)
      requires Apart(other) && other.slices.size > 0
      modifies Repr(), other.Repr(), log
      ensures Apart(other) && ConservesWith(other)
      ensures fresh(slices.Repr + other.slices.Repr - old(slices.Repr + other.slices.Repr))
      ensures account == old(account) && other.account == old(other.account)
      ensures other.slices.size == old(other.slices.size) - 1
      ensures other.Content() + Content() == old(other.Content()) + old(Content())
    {
      ghost var front, b := other.slices.states[..other.slices.size - 1], other.slices.states[other.slices.size - 1];
      assert other.slices.states == front + [b];
      ContentSnoc(front, b);
      Associative(ContentOf(front), b.Content(), Content());
      var sliceSize := other.slices.Back().DataSize();
      AddSliceFront(other);
      DropMovedBack(other, sliceSize);
    }

    /** Moves all of `other` in front of the content. */
    method PrependBuffer(other: OwnedImpl)
      requires Apart(other)
      modifies Repr(), other.Repr(), log
      ensures Apart(other) && ConservesWith(other)
      ensures fresh(slices.Repr + other.slices.Repr - old(slices.Repr + other.slices.Repr))
      ensures account == old(account) && other.account == old(other.account)
      ensures Content() == old(other.Content()) + old(Content())
      ensures other.Content() == [] && other.slices.size == 0
    {
      while other.slices.size > 0
        invariant Apart(other) && ConservesWith(other)
        invariant fresh(slices.Repr + other.slices.Repr - old(slices.Repr + other.slices.Repr))
        invariant account == old(account) && other.account == old(other.account)
        invariant other.Content() + Content() == old(other.Content()) + old(Content())
        decreases other.slices.size
      {
        PrependBackSlice(other);
      }
    }

    /** Copies up to `size` bytes from position `start` on to `dest[at..]`. */
    method CopyOut(start: nat, size: nat, dest: array<byte>, at: nat)
      requires Valid() && dest !in slices.Repr && at + size <= dest.Length
      modifies dest
      ensures dest[..] == Overwrite(old(dest[..]), at, BufferCopy.Window(Content(), start, size))
    {
      BufferCopy.CopyOut(slices, start, size, dest, at);
    }

    /** Whether the first `size` bytes lie in the first slice, if there is any. */
    ghost predicate InFront(size: nat)
      requires AllValid(slices.states)
      reads this, slices
    {
      slices.states == [] || size <= slices.states[0].DataSize()
    }

    lemma FrontIsPrefix(size: nat)
      requires Valid() && slices.size > 0 && size <= slices.states[0].DataSize()
      ensures size <= |Content()| && Content()[..size] == slices.states[0].Content()[..size]
    {
      assert slices.states == [slices.states[0]] + slices.states[1..];
      ContentCons(slices.states[0], slices.states[1..]);
    }

    ghost predicate ReservedBehind(r: RawSlice)
      requires AllValid(slices.states)
      reads slices
    {
      && slices.states != []
      && var s := slices.states[|slices.states| - 1];
         r.mem == s.base && r.offset == s.reservable && r.len <= s.ReservableSize()
    }

    /** Reserved memory: the free space of the last slice first, if at all, then whole storages. */
    ghost predicate Reserved(raw: seq<RawSlice>, owned: Storages)
      requires AllValid(slices.states)
      reads slices
    {
      Laid(raw, owned, slices.Repr) && (raw != [] && owned[0].None? ==> ReservedBehind(raw[0]))
    }

    /** The pieces from `k` on still belong to the reservation and hold what was written there. */
    ghost predicate Uncommitted(raw: seq<RawSlice>, owned: Storages, k: nat, pieces: seq<seq<byte>>)
      requires Valid()
      reads this, slices, slices.Repr, Mems(raw)
    {
      && |raw| == |owned| == |pieces|
      && (forall i | k <= i < |raw| :: raw[i].InBounds() && raw[i].len > 0 && raw[i].Data() == pieces[i])
      && (forall i | k <= i < |raw| ::
            match owned[i] {
              case None => i == 0 && ReservedBehind(raw[i])
              case Some(m) => raw[i].mem == m && raw[i].offset == 0 && m !in slices.Repr
            })
      && (forall i, j | 0 <= i < j < |raw| :: raw[i].mem != raw[j].mem)
    }

    /** `slices_.back().commit(n)`, with the length kept up to date. */
    method CommitBack(n: nat)
      requires Valid() && slices.size > 0 && n <= slices.states[slices.size - 1].ReservableSize()
      modifies Repr()
      ensures Valid() && slices.Repr == old(slices.Repr) && Conserves() && account == old(account)
      ensures slices.size == old(slices.size) > 0
      ensures var s := old(slices.states)[slices.size - 1];
              Content() == old(Content()) + s.memory[s.reservable..s.reservable + n]
    {
      ghost var front, s := slices.states[..slices.size - 1], slices.states[slices.size - 1];
      assert slices.states == front + [s];
      CommitLastOf(n, front, s);
    }

    /** Commits free space of the last slice `s`; `front` are the slices before it. */
    method CommitLastOf(n: nat, ghost front: seq<SliceState>, ghost s: SliceState)
      requires Valid() && slices.states == front + [s] && s.reservable + n <= |s.memory|
      modifies Repr()
      ensures Valid() && slices.Repr == old(slices.Repr) && Conserves() && account == old(account)
      ensures slices.states == front + [s.(reservable := s.reservable + n)]
      ensures Content() == ContentOf(front + [s]) + s.memory[s.reservable..s.reservable + n]
    {
      assert slices.states[slices.size - 1] == s && slices.states[..slices.size - 1] == front;
      slices.CommitBack(n);
      CommitLast(front, s, n, s.(reservable := s.reservable + n));
      length := length + n;
    }

    /** The storage becomes the last slice, of which the first `len` bytes are in use. */
    method CommitStorage(storage: array<byte>, len: nat)
      requires Valid() && 0 < len <= storage.Length && storage !in slices.Repr
      modifies Repr(), log
      ensures Valid() && Conserves() && account == old(account)
      ensures fresh(slices.Repr - old(slices.Repr) - {storage})
      ensures Content() == old(Content()) + old(storage[..len])
    {
      var slice := new Slice.FromStorage(storage, len, account, log);
      assert slice.Content() == storage[..len];
      PushBack(slice);
      assert slices.Repr - old(slices.Repr) - {storage} == Repr() - old(Repr()) - {storage};
    }

    lemma MemoryOfBack()
      requires Valid() && slices.size > 0
      ensures var s := slices.states[slices.size - 1]; s.memory == s.base[..]
    {
      assert slices.Back().State() == slices.states[slices.size - 1];
    }

    /** Commits free space of the last slice. */
    method CommitBehind(r: RawSlice, len: nat)
      requires Valid() && r.InBounds() && len <= r.len && ReservedBehind(r)
      modifies Repr()
      ensures Valid() && slices.Repr == old(slices.Repr) && Conserves() && account == old(account)
      ensures Content() == old(Content()) + old(r.Data()[..len])
    {
      MemoryOfBack();
      ContentPrefix(r.mem[..], r.offset, r.offset + r.len, len);
      assert r.Data() == r.mem[..][r.offset..r.offset + r.len];
      CommitBack(len);
    }

    /** Commits the first `len` bytes of one reserved piece. */
    method CommitPiece(r: RawSlice, storage: Option<array<byte>>, len: nat)
      requires Valid() && r.InBounds() && 0 < len <= r.len
      requires match storage {
                 case None => ReservedBehind(r)
                 case Some(m) => r.mem == m && r.offset == 0 && m !in slices.Repr
               }
      modifies Repr(), log
      ensures Valid() && fresh(slices.Repr - old(slices.Repr) - {r.mem}) && Conserves() && account == old(account)
      ensures Content() == old(Content()) + old(r.Data()[..len])
    {
      if storage.Some? {
        assert r.Data()[..len] == storage.value[..len];
        CommitStorage(storage.value, len);
      } else {
        CommitBehind(r, len);
      }
    }

    /** One step of `Commit`. */
    method CommitNext(n: nat, rest: nat, raw: seq<RawSlice>, owned: Storages, used: nat, ghost mine: seq<byte>,
                      ghost pieces: seq<seq<byte>>)
        returns (rest': nat)
      requires Valid() && used < |raw| && rest > 0
      requires Uncommitted(raw, owned, used, pieces) && Committed(Content(), mine, pieces, used, n, rest)
      modifies Repr(), log
      ensures Valid() && fresh(slices.Repr - old(slices.Repr) - Mems(raw)) && Conserves() && account == old(account)
      ensures Uncommitted(raw, owned, used + 1, pieces) && Committed(Content(), mine, pieces, used + 1, n, rest')
    {
      var len := Min(raw[used].len, rest);
      ghost var content := Content();
      CommitPiece(raw[used], owned[used], len);
      CommittedMore(content, mine, pieces, used, n, rest, len, Content());
      assert raw[used].mem in Mems(raw);
      rest' := rest - len;
    }

    /** The loop of `Commit`. */
    method CommitAll(n: nat, raw: seq<RawSlice>, owned: Storages, ghost mine: seq<byte>,
                     ghost pieces: seq<seq<byte>>) returns (used: nat)
      requires Valid() && Uncommitted(raw, owned, 0, pieces) && mine == Content() && n <= |Flatten(pieces)|
      modifies Repr(), log, Mems(raw)
      ensures Valid() && fresh(slices.Repr - old(slices.Repr) - Mems(raw)) && Conserves() && account == old(account)
      ensures used <= |raw| && Uncommitted(raw, owned, used, pieces) && Committed(Content(), mine, pieces, used, n, 0)
    {
      var rest: nat := n;
      used := 0;
      while used < |raw| && rest > 0
        invariant used <= |raw| && Valid() && Conserves() && account == old(account)
        invariant fresh(slices.Repr - old(slices.Repr) - Mems(raw))
        invariant Uncommitted(raw, owned, used, pieces) && Committed(Content(), mine, pieces, used, n, rest)
      {
        rest := CommitNext(n, rest, raw, owned, used, mine, pieces);
        used := used + 1;
      }
      assert pieces[..|raw|] == pieces;
    }

    /** Commits the first `n` bytes of a reservation; says how many of its pieces that took. */
    method Commit(n: nat, raw: seq<RawSlice>, owned: Storages) returns (used: nat)
      requires Valid() && Reserved(raw, owned) && n <= TotalLength(raw)
      modifies Repr(), log, Mems(raw)
      ensures Valid() && Conserves() && account == old(account)
      ensures fresh(slices.Repr - old(slices.Repr) - Mems(raw))
      ensures var pieces := old(Pieces(raw));
              && n <= |Flatten(pieces)| && Content() == old(Content()) + Flatten(pieces)[..n]
              && used <= |raw| && EndsIn(pieces, used, n)
      ensures forall i | used <= i < |raw| && owned[i].Some? :: raw[i].mem !in slices.Repr
    {
      PiecesLength(raw);
      used := CommitAll(n, raw, owned, Content(), Pieces(raw));
    }

    /** A new charged slice that holds a copy of the first `size` bytes. */
    method CopyOfFront(size: nat) returns (copy: Slice)
      requires Valid() && 0 < size <= length
      modifies log
      ensures Valid() && fresh(copy) && fresh(copy.base) && copy.Valid() && slices.states == old(slices.states)
      ensures copy.Content() == Content()[..size] && copy.trackers == [] && log.fired == old(log.fired)
      ensures forall a :: log.Net(a) == old(log.Net(a)) + copy.State().BoundTo(a)
    {
      copy := new Slice.Owned(size, account, log);
      OverwriteThen(copy.base[..], 0, BufferCopy.Window(Content(), 0, size), size);
      CopyOut(0, size, copy.base, 0);
      assert copy.base[..][0..size] == Content()[..size];
      copy.State().CommittedContent(size);
      copy.Commit(size);
    }

    /** Puts a slice that holds a copy of the first `size` bytes in their place. */
    method ReplaceFront(size: nat, slice: Slice)
      requires Valid() && slice.Valid() && slice !in Repr() && slice.base !in Repr() && size <= length
      requires slice.Content() == Content()[..size] && slice.trackers == []
      modifies Repr(), slice, log
      ensures Valid() && fresh(Repr() - old(Repr()) - {old(slice.base)}) && account == old(account)
      ensures Content() == old(Content()) && Trackers() == old(Trackers())
      ensures forall a :: Excess(a) == old(Excess(a)) - old(slice.State()).BoundTo(a)
      ensures slices.states == [old(slice.State())] + Drained(old(slices.states), size)
      ensures log.fired == old(log.fired) + DrainedTrackers(old(slices.states), size)
    {
      ghost var copy := slice.State();
      SplitAt(Content(), size);
      Drain(size);
      assert slice.State() == copy;
      PushFront(slice);
    }

    /** Copies the first `size` bytes into a new slice that replaces them. */
    method Gather(size: nat)
      requires Valid() && 0 < size <= length
      modifies Repr(), log
      ensures Valid() && fresh(Repr() - old(Repr())) && Conserves() && account == old(account)
      ensures Content() == old(Content()) && slices.size > 0 && slices.states[0].DataSize() == size
      ensures slices.states[0].trackers == [] && slices.states[1..] == Drained(old(slices.states), size)
      ensures log.fired == old(log.fired) + DrainedTrackers(old(slices.states), size)
    {
      var newSlice := CopyOfFront(size);
      ReplaceFront(size, newSlice);
    }

    /** Makes the first `size` bytes contiguous and points to them. */
    method Linearize(size: nat) returns (front: Option<RawSlice>)
      requires Valid() && size <= length
      modifies Repr(), log
      ensures Valid() && fresh(Repr() - old(Repr())) && Conserves() && account == old(account)
      ensures Content() == old(Content())
      ensures old(InFront(size)) ==> slices.states == old(slices.states) && unchanged(log)
      ensures !old(InFront(size)) ==>
                && slices.states != [] && slices.states[0].trackers == []
                && slices.states[1..] == Drained(old(slices.states), size)
                && log.fired == old(log.fired) + DrainedTrackers(old(slices.states), size)
      ensures front.None? <==> slices.size == 0
      ensures front.Some? ==>
                && front.value.len == size <= slices.states[0].DataSize()
                && front.value.mem == slices.states[0].base && front.value.offset == slices.states[0].data
                && front.value.InBounds() && front.value.Data() == Content()[..size]
    {
      if slices.size == 0 {
        return None;
      }
      if slices.Front().DataSize() < size {
        Gather(size);
      }
      FrontIsPrefix(size);
      var slice := slices.Front();
      front := Some(RawSlice(slice.base, slice.data, size));
      assert slice.State() == slices.states[0];
      ContentPrefix(slice.base[..], slice.data, slice.reservable, size);
      assert front.value.Data() == slice.base[..][slice.data..slice.data + size];
    }

    /** Appends a copy of the bytes of one slice; empty slices are skipped. */
    method AddNonEmpty(src: seq<byte>)
      requires Valid()
      modifies Repr(), log
      ensures Valid() && fresh(Repr() - old(Repr())) && Conserves() && account == old(account)
      ensures Content() == old(Content()) + src
    {
      if |src| != 0 {
        AddImpl(src);
      }
    }

    /** Appends a copy of slice `i` of another buffer. */
    method AddSliceCopy(data: OwnedImpl, i: nat, ghost mine: seq<byte>)
      requires Apart(data) && i < data.slices.size
      requires AllValid(data.slices.states[..i]) && Content() == mine + ContentOf(data.slices.states[..i])
      modifies Repr(), log
      ensures Apart(data) && fresh(Repr() - old(Repr())) && Conserves() && account == old(account)
      ensures data.slices.states == old(data.slices.states)
      ensures AllValid(data.slices.states[..i + 1]) && Content() == mine + ContentOf(data.slices.states[..i + 1])
    {
      ContentAt(data.slices.states, i);
      AddNonEmpty(data.slices.At(i).Content());
    }

    /** Appends a copy of another buffer, slice by slice. */
    method AddBuffer(data: OwnedImpl)
      requires Apart(data)
      modifies Repr(), log
      ensures Apart(data) && fresh(Repr() - old(Repr())) && Conserves() && account == old(account)
      ensures Content() == old(Content()) + data.Content()
      ensures data.slices.states == old(data.slices.states)
    {
      ghost var mine, theirs := Content(), data.slices.states;
      for i := 0 to data.slices.size
        invariant Apart(data) && fresh(Repr() - old(Repr())) && Conserves() && account == old(account)
        invariant data.slices.states == theirs && AllValid(theirs[..i]) && Content() == mine + ContentOf(theirs[..i])
      {
        AddSliceCopy(data, i, mine);
      }
      assert theirs[..|theirs|] == theirs;
    }

    /** Writes into the reservable region of the last slice; content and holdings stay. */
    method WriteBehindBack(offset: nat, src: seq<byte>)
      requires Valid() && slices.size > 0 && offset + |src| <= slices.states[slices.size - 1].ReservableSize()
      modifies Repr()
      ensures Valid() && slices.Repr == old(slices.Repr) && Conserves() && account == old(account)
      ensures Content() == old(Content()) && slices.size == old(slices.size) > 0
      ensures var s := old(slices.states)[slices.size - 1];
              slices.states == old(slices.states)[..slices.size - 1] +
                [s.(memory := Overwrite(s.memory, s.reservable + offset, src))]
    {
      ghost var front, s := slices.states[..slices.size - 1], slices.states[slices.size - 1];
      assert slices.states == front + [s];
      slices.WriteBehindBack(offset, src);
      ghost var t := slices.states[slices.size - 1];
      assert t.Content() == s.Content();
      ReplaceLast(front, s, t);
    }

    /** Writes `src` behind what was already written into the reservable region. */
    method WriteMore(ghost s: SliceState, ghost written: seq<byte>, at: nat, src: seq<byte>)
      requires Valid() && slices.size > 0 && s.Valid() && at == |written| && s.reservable + at + |src| <= |s.memory|
      requires slices.states[slices.size - 1] == s.(memory := Overwrite(s.memory, s.reservable, written))
      modifies Repr()
      ensures Valid() && slices.Repr == old(slices.Repr) && Conserves() && account == old(account)
      ensures Content() == old(Content()) && slices.size == old(slices.size) > 0
      ensures slices.states[slices.size - 1] == s.(memory := Overwrite(s.memory, s.reservable, written + src))
    {
      OverwriteMore(s.memory, s.reservable, written, src);
      WriteBehindBack(at, src);
    }

    /** Copies all fragments, one behind the other, into the reservable region. */
    method WriteFragments(fragments: seq<seq<byte>>) returns (at: nat)
      requires Valid() && slices.size > 0 && |Flatten(fragments)| <= slices.states[slices.size - 1].ReservableSize()
      modifies Repr()
      ensures Valid() && slices.Repr == old(slices.Repr) && Conserves() && account == old(account)
      ensures Content() == old(Content()) && slices.size == old(slices.size) > 0 && at == |Flatten(fragments)|
      ensures var s, t := old(slices.states)[slices.size - 1], slices.states[slices.size - 1];
              t == s.(memory := Overwrite(s.memory, s.reservable, Flatten(fragments)))
    {
      ghost var s := slices.states[slices.size - 1];
      at := 0;
      assert Overwrite(s.memory, s.reservable, []) == s.memory;
      for i := 0 to |fragments|
        invariant Valid() && slices.Repr == old(slices.Repr) && Conserves() && account == old(account)
        invariant Content() == old(Content()) && slices.size == old(slices.size) > 0
        invariant at == |Flatten(fragments[..i])| && s.reservable + at <= |s.memory|
        invariant slices.states[slices.size - 1]
               == s.(memory := Overwrite(s.memory, s.reservable, Flatten(fragments[..i])))
      {
        FlattenUpTo(fragments, i);
        WriteMore(s, Flatten(fragments[..i]), at, fragments[i]);
        at := at + |fragments[i]|;
      }
      assert fragments[..|fragments|] == fragments;
    }

    /** Writes all fragments behind the data of the last slice and commits them at once. */
    method AddInPlace(fragments: seq<seq<byte>>)
      requires Valid() && slices.size > 0 && |Flatten(fragments)| <= slices.states[slices.size - 1].ReservableSize()
      modifies Repr()
      ensures Valid() && Repr() == old(Repr()) && Conserves() && account == old(account)
      ensures Content() == old(Content()) + Flatten(fragments)
    {
      var total := WriteFragments(fragments);
      CommitBack(total);
    }

    /** Appends the fragments one by one. */
    method AddAll(fragments: seq<seq<byte>>)
      requires Valid()
      modifies Repr(), log
      ensures Valid() && fresh(Repr() - old(Repr())) && Conserves() && account == old(account)
      ensures Content() == old(Content()) + Flatten(fragments)
    {
      ghost var mine := Content();
      for i := 0 to |fragments|
        invariant Valid() && fresh(Repr() - old(Repr())) && Conserves() && account == old(account)
        invariant Content() == mine + Flatten(fragments[..i])
      {
        FlattenUpTo(fragments, i);
        Associative(mine, Flatten(fragments[..i]), fragments[i]);
        AddImpl(fragments[i]);
      }
      assert fragments[..|fragments|] == fragments;
    }

    static method TotalSize(fragments: seq<seq<byte>>) returns (total: nat)
      ensures total == |Flatten(fragments)|
    {
      total := 0;
      for i := 0 to |fragments|
        invariant total == |Flatten(fragments[..i])|
      {
        FlattenUpTo(fragments, i);
        total := total + |fragments[i]|;
      }
      assert fragments[..|fragments|] == fragments;
    }

    /** Appends the fragments: straight into the last slice when they all fit there. */
    method AddFragments(fragments: seq<seq<byte>>) returns (total: nat)
      requires Valid()
      modifies Repr(), log
      ensures Valid() && fresh(Repr() - old(Repr())) && Conserves() && account == old(account)
      ensures Content() == old(Content()) + Flatten(fragments) && total == |Flatten(fragments)|
    {
      total := TotalSize(fragments);
      if slices.size == 0 {
        PushNewBack(total);
      }
      if total <= slices.Back().ReservableSize() {
        AddInPlace(fragments);
      } else {
        AddAll(fragments);
      }
    }

    method PopEmptyBack()
      requires Valid() && slices.size > 0 && slices.states[slices.size - 1].DataSize() == 0
      modifies Repr(), log
      ensures Valid() && fresh(Repr() - old(Repr())) && Conserves() && account == old(account)
      ensures Content() == old(Content()) && slices.size == old(slices.size) - 1
    {
      ghost var front, b := slices.states[..slices.size - 1], slices.states[slices.size - 1];
      assert slices.states == front + [b];
      HoldingsSnoc(front, b);
      ContentSnoc(front, b);
      slices.PopBack(log);
    }

    /** Removes zero byte slices from the back. */
    method TrimBack()
      requires Valid()
      modifies Repr(), log
      ensures Valid() && fresh(Repr() - old(Repr())) && Conserves() && account == old(account)
      ensures Content() == old(Content())
      ensures slices.size > 0 ==> slices.states[slices.size - 1].DataSize() > 0
    {
      while slices.size > 0 && slices.Back().DataSize() == 0
        invariant Valid() && fresh(Repr() - old(Repr())) && Conserves() && account == old(account)
        invariant Content() == old(Content())
        decreases slices.size
      {
        PopEmptyBack();
      }
    }

    lemma BehindIsInRepr(r: RawSlice)
      requires Valid() && ReservedBehind(r)
      ensures r.mem in slices.Repr
    {
      assert slices.Back().base in slices.Repr && slices.Back().State() == slices.states[slices.size - 1];
    }

    ghost predicate FreeListApart(freeList: StorageFreeList)
      reads this, slices, freeList
    {
      freeList.Valid() && freeList !in slices.Repr && forall s | s in freeList.list :: s !in slices.Repr
    }

    /** Whether the free space of the last slice is worth reserving. */
    predicate ReserveFromBack(maxLength: nat)
      requires Valid()
      reads this, slices, slices.Repr
    {
      slices.size > 0 &&
      (slices.Back().ReservableSize() >= maxLength || slices.Back().ReservableSize() >= DEFAULT_SLICE_SIZE / 8)
    }

    /** What a reservation of up to `maxLength` bytes looks like at any point. */
    ghost predicate Reservation(raw: seq<RawSlice>, owned: Storages, reserved: nat, maxLength: nat,
                                freeList: StorageFreeList)
      requires Valid()
      reads this, slices, slices.Repr, freeList
    {
      && Reserved(raw, owned) && |raw| <= MAX_SLICES && reserved == TotalLength(raw)
      && (reserved <= maxLength || reserved < 2 * DEFAULT_SLICE_SIZE)
      && (ReserveFromBack(maxLength) <==> raw != [] && owned[0].None?)
      && OutsideCache(raw, owned, freeList.list)
    }

    /** Reserves free space of the last slice, if it is worth it. */
    method ReserveBack(maxLength: nat, ghost freeList: StorageFreeList)
        returns (raw: seq<RawSlice>, owned: Storages, reserved: nat)
      requires Valid() && FreeListApart(freeList) && maxLength > 0
      ensures Reservation(raw, owned, reserved, maxLength, freeList) && reserved <= maxLength
      ensures forall i | 0 <= i < |raw| :: owned[i].None?
    {
      raw, owned, reserved := [], [], 0;
      if ReserveFromBack(maxLength) {
        var back := slices.Back();
        reserved := Min(back.ReservableSize(), maxLength);
        raw, owned := [RawSlice(back.base, back.reservable, reserved)], [None];
        assert TotalLength(raw) == TotalLength(raw[..0]) + reserved;
        assert slices.states[slices.size - 1].base in slices.Repr;
      }
    }

    lemma AddedStorage(raw: seq<RawSlice>, owned: Storages, reserved: nat, maxLength: nat,
                       freeList: StorageFreeList, storage: array<byte>,
                       raw': seq<RawSlice>, owned': Storages)
      requires Valid() && Reserved(raw, owned) && |raw| < MAX_SLICES && reserved == TotalLength(raw)
      requires ReserveFromBack(maxLength) <==> raw != [] && owned[0].None?
      requires OutsideCache(raw, owned, freeList.list) && forall i | 0 <= i < |raw| :: raw[i].mem != storage
      requires storage.Length == DEFAULT_SLICE_SIZE && storage !in slices.Repr && storage !in freeList.list
      requires reserved + DEFAULT_SLICE_SIZE <= maxLength || reserved < DEFAULT_SLICE_SIZE
      requires raw' == raw + [RawSlice(storage, 0, DEFAULT_SLICE_SIZE)] && owned' == owned + [Some(storage)]
      ensures Reservation(raw', owned', reserved + DEFAULT_SLICE_SIZE, maxLength, freeList)
    {
      LaidMore(raw, owned, slices.Repr, storage, raw', owned');
      OutsideCacheMore(raw, owned, freeList.list, storage, raw', owned');
      assert raw'[..|raw|] == raw;
    }

    /** Takes one whole storage, cached or new, for a reservation. */
    method TakeStorage(raw: seq<RawSlice>, owned: Storages, reserved: nat, maxLength: nat, freeList: StorageFreeList)
        returns (storage: array<byte>)
      requires Valid() && FreeListApart(freeList) && Reservation(raw, owned, reserved, maxLength, freeList)
      requires |raw| < MAX_SLICES && (reserved + DEFAULT_SLICE_SIZE <= maxLength || reserved < DEFAULT_SLICE_SIZE)
      modifies freeList
      ensures Valid() && FreeListApart(freeList)
      ensures Reservation(raw + [RawSlice(storage, 0, DEFAULT_SLICE_SIZE)], owned + [Some(storage)],
                          reserved + DEFAULT_SLICE_SIZE, maxLength, freeList)
      ensures storage in old(freeList.list) || fresh(storage)
      ensures forall s | s in freeList.list :: s in old(freeList.list)
    {
      storage := freeList.NewStorage();
      AddedStorage(raw, owned, reserved, maxLength, freeList, storage,
                   raw + [RawSlice(storage, 0, DEFAULT_SLICE_SIZE)], owned + [Some(storage)]);
    }

    /** Adds the storage to the reservation. */
    method AddStorage(raw: seq<RawSlice>, owned: Storages, reserved: nat, maxLength: nat, freeList: StorageFreeList,
                      ghost sources: set<object>)
        returns (raw': seq<RawSlice>, owned': Storages, ghost sources': set<object>)
      requires Valid() && FreeListApart(freeList) && Reservation(raw, owned, reserved, maxLength, freeList)
      requires |raw| < MAX_SLICES && (reserved + DEFAULT_SLICE_SIZE <= maxLength || reserved < DEFAULT_SLICE_SIZE)
      requires Borrowed(raw, owned, freeList.list, sources)
      modifies freeList
      ensures Valid() && FreeListApart(freeList) && |raw'| == |raw| + 1
      ensures Reservation(raw', owned', reserved + DEFAULT_SLICE_SIZE, maxLength, freeList)
      ensures Borrowed(raw', owned', freeList.list, sources') && fresh(sources' - sources)
    {
      ghost var list := freeList.list;
      var storage := TakeStorage(raw, owned, reserved, maxLength, freeList);
      raw', owned' := raw + [RawSlice(storage, 0, DEFAULT_SLICE_SIZE)], owned + [Some(storage)];
      sources' := sources + {storage};
      BorrowedMore(raw, owned, list, sources, storage, raw', owned', freeList.list);
    }

    /** Adds whole storages to a reservation. */
    method AddStorages(raw0: seq<RawSlice>, owned0: Storages, reserved0: nat, maxLength: nat, freeList: StorageFreeList)
        returns (raw: seq<RawSlice>, owned: Storages, reserved: nat)
      requires Valid() && FreeListApart(freeList)
      requires Reservation(raw0, owned0, reserved0, maxLength, freeList) && reserved0 <= maxLength && maxLength > 0
      requires forall i | 0 <= i < |raw0| :: owned0[i].None?
      modifies freeList
      ensures Valid() && FreeListApart(freeList)
      ensures Reservation(raw, owned, reserved, maxLength, freeList)
      ensures raw != [] && Stops(raw, reserved, maxLength) && FromCache(raw, owned, old(freeList.list))
    {
      raw, owned, reserved := raw0, owned0, reserved0;
      var remaining: nat := maxLength - reserved;
      ghost var cached: set<object> := set s | s in freeList.list;
      ghost var sources := cached;
      while remaining != 0 && |raw| < MAX_SLICES
        invariant Valid() && FreeListApart(freeList) && Reservation(raw, owned, reserved, maxLength, freeList)
        invariant Remains(remaining, reserved, maxLength) && (raw == [] ==> remaining == maxLength)
        invariant Borrowed(raw, owned, freeList.list, sources) && fresh(sources - cached)
        decreases MAX_SLICES - |raw|
      {
        if DEFAULT_SLICE_SIZE > remaining && reserved >= DEFAULT_SLICE_SIZE {
          break;
        }
        raw, owned, sources := AddStorage(raw, owned, reserved, maxLength, freeList, sources);
        remaining := remaining - Min(DEFAULT_SLICE_SIZE, remaining);
        reserved := reserved + DEFAULT_SLICE_SIZE;
      }
    }

    /** Reserves up to `maxLength` bytes, possibly more if that is less than one more slice. For a
        maximum of zero nothing is reserved, and the length is left unset. */
    method ReserveWithMaxLength(maxLength: nat, freeList: StorageFreeList)
        returns (raw: seq<RawSlice>, owned: Storages, reserved: nat)
      requires Valid() && FreeListApart(freeList)
      modifies Repr(), log, freeList
      ensures Valid() && fresh(Repr() - old(Repr())) && Conserves() && account == old(account)
      ensures Content() == old(Content()) && FreeListApart(freeList)
      ensures if maxLength == 0 then raw == [] && owned == [] && slices.states == old(slices.states)
              else raw != [] && Reservation(raw, owned, reserved, maxLength, freeList) &&
                   Stops(raw, reserved, maxLength)
      ensures FromCache(raw, owned, old(freeList.list))
    {
      if maxLength == 0 {
        raw, owned, reserved := [], [], *;
        return;
      }
      TrimBack();
      raw, owned, reserved := ReserveBack(maxLength, freeList);
      raw, owned, reserved := AddStorages(raw, owned, reserved, maxLength, freeList);
    }

    lemma ReservedOne(r: RawSlice, storage: Option<array<byte>>)
      requires AllValid(slices.states) && r.InBounds() && r.len > 0
      requires match storage {
                 case None => ReservedBehind(r)
                 case Some(m) => r.mem == m && r.offset == 0 && m !in slices.Repr
               }
      ensures Reserved([r], [storage])
    {
    }

    method ReserveOne(length: nat, separateSlice: bool) returns (raw: RawSlice, owned: Option<array<byte>>)
      requires Valid() && length > 0
      modifies Repr(), log
      ensures Valid() && fresh(Repr() - old(Repr())) && Conserves() && account == old(account)
      ensures Content() == old(Content())
      ensures Reserved([raw], [owned]) && raw.len == length
      ensures owned.None? <==> !separateSlice && slices.size > 0 && slices.Back().ReservableSize() >= length
      ensures owned.Some? ==> fresh(owned.value) && owned.value.Length == SliceSize(length)
    {
      TrimBack();
      if !separateSlice && slices.size > 0 && slices.Back().ReservableSize() >= length {
        var back := slices.Back();
        raw, owned := RawSlice(back.base, back.reservable, length), None;
      } else {
        var storage := new byte[SliceSize(length)];
        raw, owned := RawSlice(storage, 0, length), Some(storage);
      }
      ReservedOne(raw, owned);
    }

    /** Reserves exactly `length` bytes in one piece; none for a length of zero. */
    method ReserveSingleSlice(length: nat, separateSlice: bool) returns (raw: seq<RawSlice>, owned: Storages)
      requires Valid()
      modifies Repr(), log
      ensures Valid() && fresh(Repr() - old(Repr())) && Conserves() && account == old(account)
      ensures Content() == old(Content()) && Reserved(raw, owned)
      ensures length == 0 ==> raw == [] && slices.states == old(slices.states)
      ensures length > 0 ==>
                && |raw| == 1 && raw[0].len == length
                && (owned[0].None? <==> !separateSlice && slices.size > 0 && slices.Back().ReservableSize() >= length)
                && (owned[0].Some? ==> fresh(owned[0].value) && owned[0].value.Length == SliceSize(length))
    {
      if length == 0 {
        return [], [];
      }
      var r, storage := ReserveOne(length, separateSlice);
      raw, owned := [r], [storage];
    }

    /**
     * The position of the first occurrence of the needle from `start` on, or -1. A non-zero
     * `length` limits how many bytes from `start` on are looked at.
     */
    method Search(needle: seq<byte>, start: nat, length: nat) returns (r: int)
      requires Valid() && this.length < TWO_TO_THE_64 && start < TWO_TO_THE_64
      ensures needle == [] ==> r == if start <= |Content()| then start else -1
      ensures needle != [] ==>
              var end := BufferSearch.SearchEnd(Content(), start, length);
              BufferSearch.FirstOccurrence(Content(), needle, start, end, r)
    {
      if needle == [] {
        return if start <= this.length then start else -1;
      }
      var left: nat := length;
      if length == 0 {
        left := Subtract64(this.length, start);
      }
      r := BufferSearch.SearchAll(slices, needle, start, left);
    }

    /** Whether the content begins with `data`, compared slice by slice. */
    method StartsWith(data: seq<byte>) returns (r: bool)
      requires Valid()
      ensures r <==> data <= Content()
    {
      if length < |data| {
        return false;
      }
      if |data| == 0 {
        return true;
      }
      var done: nat := 0;
      assert slices.states[..slices.size] == slices.states;
      for i := 0 to slices.size
        invariant done == slices.Before(i) < |data| && data[..done] == ContentOf(slices.states[..i])
      {
        ContentAt(slices.states, i);
        var bytes := slices.At(i).Content();
        BufferSearch.PrefixStep(data, Content(), done, bytes, done + |bytes|);
        if |bytes| >= |data| - done {
          r := data[done..] == bytes[..|data| - done];
          return r;
        }
        if data[done..done + |bytes|] != bytes {
          return false;
        }
        done := done + |bytes|;
      }
      assert false;
    }

    /** Fills the destinations, one behind the other, with up to `size` bytes of content. */
    method CopyOutToSlices(size: nat, dests: seq<RawSlice>) returns (bytesRead: nat)
      requires Valid() && BufferCopy.Destinations(slices, dests)
      modifies Mems(dests)
      ensures bytesRead == Min(Min(size, |Content()|), TotalLength(dests))
      ensures |old(Flatten(Pieces(dests)))| == TotalLength(dests)
      ensures Flatten(Pieces(dests)) == Overwrite(old(Flatten(Pieces(dests))), 0, Content()[..bytesRead])
    {
      ghost var before := Flatten(Pieces(dests));
      PiecesLength(dests);
      OverwriteNothing(before, 0);
      bytesRead := BufferCopy.CopyAll(slices, Min(size, length), dests, before);
    }

    /** Writes into reserved free space of the last slice. */
    method WriteFree(r: RawSlice, at: nat, src: seq<byte>)
      requires Valid() && r.InBounds() && ReservedBehind(r) && at + |src| <= r.len
      modifies Repr()
      ensures Valid() && slices.Repr == old(slices.Repr) && Conserves() && account == old(account)
      ensures Content() == old(Content()) && ReservedBehind(r) && r.Data() == Overwrite(old(r.Data()), at, src)
    {
      ghost var s, data := slices.states[slices.size - 1], r.Data();
      MemoryOfBack();
      DataOf(r, s.memory);
      WriteBehindBack(at, src);
      MemoryOfBack();
      RawIsWritten(r, s.memory, at, src, data);
    }

    /** Writes into the first piece of a reservation, which is free space of the last slice. */
    method WriteFirst(raw: seq<RawSlice>, owned: Storages, at: nat, src: seq<byte>)
      requires Valid() && Reserved(raw, owned) && raw != [] && owned[0].None? && at + |src| <= raw[0].len
      modifies Repr()
      ensures Valid() && slices.Repr == old(slices.Repr) && Conserves() && account == old(account)
      ensures Content() == old(Content()) && ReservedBehind(raw[0])
      ensures Pieces(raw) == old(Pieces(raw))[0 := Overwrite(old(Pieces(raw))[0], at, src)]
    {
      ghost var pieces := Pieces(raw);
      WriteFree(raw[0], at, src);
      assert forall j | 0 < j < |raw| :: raw[j].Data() == pieces[j];
      assert Pieces(raw) == pieces[0 := Overwrite(pieces[0], at, src)];
    }
  }
}
