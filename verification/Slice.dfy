/** A contiguous block of bytes: a drained, a data and a reservable region. */
module SliceModule {
  import opened Bytes
  import opened Resources

  const PAGE_SIZE: nat := 4096
  const DEFAULT_SLICE_SIZE: nat := 16384

  /** The storage size chosen for `dataSize` bytes: whole pages. */
  function SliceSize(dataSize: nat): (r: nat)
    ensures dataSize <= r < dataSize + PAGE_SIZE && r % PAGE_SIZE == 0
  {
    (dataSize + PAGE_SIZE - 1) / PAGE_SIZE * PAGE_SIZE
  }

  /** A stretch of raw memory. */
  datatype RawSlice = RawSlice(mem: array<byte>, offset: nat, len: nat)
  {
    predicate InBounds() {
      offset + len <= mem.Length
    }

    function Data(): seq<byte>
      requires InBounds()
      reads mem
    {
      mem[offset..offset + len]
    }

    /** No byte belongs to both. */
    predicate Apart(other: RawSlice) {
      mem != other.mem || offset + len <= other.offset || other.offset + other.len <= offset
    }
  }

  /** A slice as one value: its fields, with `memory` the bytes that `base` points to. */
  datatype SliceState = SliceState(
    base: array<byte>, memory: seq<byte>, owned: bool, data: nat, reservable: nat,
    trackers: seq<Tracker>, account: Option<Account>)
  {
    ghost predicate Valid() {
      && data <= reservable <= |memory|
      && (data == reservable ==> data == 0)
    }

    function DataSize(): nat
      requires data <= reservable
    {
      reservable - data
    }

    function ReservableSize(): nat
      requires reservable <= |memory|
    {
      |memory| - reservable
    }

    function Content(): seq<byte>
      requires data <= reservable <= |memory|
    {
      memory[data..reservable]
    }

    /** After the first `n` bytes are drained; an emptied slice is all free space. */
    function Drained(n: nat): SliceState
      requires data + n <= reservable
    {
      if data + n == reservable then this.(data := 0, reservable := 0) else this.(data := data + n)
    }

    /** How many bytes fit in front of the data, or into the whole memory when there is no data. */
    function SpaceInFront(): nat {
      if data == reservable then |memory| else data
    }

    /** After the end of `src` is copied in front of the data; into the far end when there is no data. */
    function Prepended(src: seq<byte>): SliceState
      requires data <= reservable <= |memory|
    {
      var n := Min(|src|, SpaceInFront());
      this.(data := SpaceInFront() - n,
            reservable := if data == reservable then |memory| else reservable,
            memory := Overwrite(memory, SpaceInFront() - n, src[|src| - n..]))
    }

    /** With nothing to copy an empty slice is left with its offsets at the end of its memory, which
        is not valid; the caller in the buffer always has something to copy. */
    lemma PrependedContent(src: seq<byte>)
      requires Valid()
      ensures var n, t := Min(|src|, SpaceInFront()), Prepended(src);
              && t.data <= t.reservable <= |t.memory| && t.Content() == src[|src| - n..] + Content()
              && (t.Valid() <==> src != [] || data < reservable || memory == [])
    {
      var n := Min(|src|, SpaceInFront());
      OverwriteThen(memory, SpaceInFront() - n, src[|src| - n..], Prepended(src).reservable);
    }

    /** Draining drops the first bytes and nothing else. */
    lemma DrainedContent(n: nat)
      requires data + n <= reservable <= |memory|
      ensures Drained(n).Content() == Content()[n..]
    {
    }

    /** Committing appends the first bytes of the free space. */
    lemma CommittedContent(n: nat)
      requires data <= reservable && reservable + n <= |memory|
      ensures this.(reservable := reservable + n).Content() == Content() + memory[reservable..reservable + n]
    {
    }

    /** What this slice holds against account `a`. */
    function BoundTo(a: Account): nat {
      if account == Some(a) then |memory| else 0
    }
  }

  class Slice {
    var base: array<byte>
    var capacity: nat
    var owned: bool
    var data: nat
    var reservable: nat
    var trackers: seq<Tracker>
    var account: Option<Account>

    function State(): SliceState
      reads this, base
    {
      SliceState(base, base[..], owned, data, reservable, trackers, account)
    }

    ghost predicate Valid()
      reads this, base
    {
      capacity == base.Length && State().Valid()
    }

    function DataSize(): nat
      requires Valid()
      reads this, base
    {
      reservable - data
    }

    function ReservableSize(): nat
      requires Valid()
      reads this, base
    {
      capacity - reservable
    }

    /** A default-constructed or moved-from slice. */
    ghost predicate Blank()
      reads this, base
      ensures Blank() ==> Valid()
    {
      capacity == 0 == base.Length && !owned && data == 0 && reservable == 0 && trackers == [] && account == None
    }

    function Content(): seq<byte>
      requires Valid()
      reads this, base
    {
      State().Content()
    }

    constructor Empty()
      ensures fresh(base) && Blank()
    {
      base := new byte[0];
      capacity, owned, data, reservable, trackers, account := 0, false, 0, 0, [], None;
    }

    constructor Owned(minCapacity: nat, account: Option<Account>, log: ResourceLog)
      modifies log
      ensures fresh(base)
      ensures State() == SliceState(base, base[..], true, 0, 0, [], account) && Valid() &&
              capacity == SliceSize(minCapacity)
      ensures log.fired == old(log.fired)
      ensures forall a :: log.Net(a) == old(log.Net(a)) + State().BoundTo(a)
    {
      capacity := SliceSize(minCapacity);
      base := new byte[SliceSize(minCapacity)];
      owned, data, reservable, trackers, this.account := true, 0, 0, [], account;
      new;
      if account.Some? {
        log.Charge(account.value, capacity);
      }
    }

    /** A slice around storage filled by a reservation. */
    constructor FromStorage(storage: array<byte>, usedSize: nat, account: Option<Account>, log: ResourceLog)
      requires 0 < usedSize <= storage.Length
      modifies log
      ensures State() == SliceState(storage, storage[..], true, 0, usedSize, [], account) && Valid()
      ensures log.fired == old(log.fired)
      ensures forall a :: log.Net(a) == old(log.Net(a)) + State().BoundTo(a)
    {
      capacity, base := storage.Length, storage;
      owned, data, reservable, trackers, this.account := true, 0, usedSize, [], account;
      new;
      if account.Some? {
        log.Charge(account.value, capacity);
      }
    }

    /** A slice over memory owned by a fragment; `done` is the fragment's release callback. */
    constructor Fragment(memory: array<byte>, done: Tracker)
      ensures State() == SliceState(memory, memory[..], false, 0, memory.Length, [done], None) && Valid()
    {
      base, capacity, owned := memory, memory.Length, false;
      data, reservable, trackers, account := 0, memory.Length, [done], None;
    }

    /** Fires every tracker in order and returns the charge. */
    method CallAndClearDrainTrackersAndCharges(log: ResourceLog)
      requires Valid()
      modifies this`trackers, this`account, log
      ensures State() == old(State()).(trackers := [], account := None) && Valid()
      ensures log.fired == old(log.fired) + old(trackers)
      ensures old(account).None? ==> log.balance == old(log.balance)
      ensures forall a :: log.Net(a) == old(log.Net(a)) - old(State()).BoundTo(a)
    {
      for i := 0 to |trackers|
        invariant trackers == old(trackers) && account == old(account)
        invariant log.fired == old(log.fired) + trackers[..i]
        invariant log.balance == old(log.balance)
      {
        log.Fire(trackers[i]);
      }
      assert trackers[..|trackers|] == trackers;
      trackers := [];
      if account.Some? {
        log.Credit(account.value, capacity);
        account := None;
      }
    }

    /** Move assignment: releases what this slice held, takes over `rhs`, and leaves `rhs` empty. */
    method MoveFrom(rhs: Slice, log: ResourceLog)
      requires rhs != this && Valid() && rhs.Valid()
      modifies this, rhs, log
      ensures State() == old(rhs.State()) && Valid()
      ensures rhs.Blank() && fresh(rhs.base)
      ensures log.fired == old(log.fired) + old(trackers)
      ensures old(account).None? ==> log.balance == old(log.balance)
      ensures forall a :: log.Net(a) == old(log.Net(a)) - old(State()).BoundTo(a)
    {
      CallAndClearDrainTrackersAndCharges(log);
      base, capacity, owned, data, reservable := rhs.base, rhs.capacity, rhs.owned, rhs.data, rhs.reservable;
      trackers, account := rhs.trackers, rhs.account;
      rhs.base := new byte[0];
      rhs.capacity, rhs.owned, rhs.data, rhs.reservable, rhs.trackers, rhs.account := 0, false, 0, 0, [], None;
    }

    method Drain(size: nat)
      requires Valid() && size <= reservable - data
      modifies this`data, this`reservable
      ensures Valid() && State() == old(State()).Drained(size)
    {
      data := data + size;
      if data == reservable {
        data, reservable := 0, 0;
      }
    }

    /** Copies as much of `src` as fits behind the data. */
    method Append(src: seq<byte>) returns (copied: nat)
      requires Valid()
      modifies this`reservable, base
      ensures copied == Min(|src|, old(State()).ReservableSize())
      ensures State() == old(State()).(reservable := old(reservable) + copied, memory := base[..]) && Valid()
      ensures base[..] == Overwrite(old(base[..]), old(reservable), src[..copied])
    {
      copied := Min(|src|, capacity - reservable);
      if copied == 0 {
        return;
      }
      var dest := reservable;
      reservable := reservable + copied;
      CopyBytes(base, dest, src[..copied]);
    }

    /** Copies the end of `src` in front of the data; into the far end when there is no data. */
    method Prepend(src: seq<byte>) returns (copied: nat)
      requires Valid()
      modifies this`data, this`reservable, base
      ensures copied == Min(|src|, old(State()).SpaceInFront())
      ensures State() == old(State()).Prepended(src) && capacity == base.Length
    {
      ghost var s := State();
      if reservable - data == 0 {
        copied := Min(|src|, capacity - reservable);
        reservable := capacity;
        data := capacity - copied;
      } else {
        if data == 0 {
          OverwriteNothing(s.memory, 0);
          return 0;
        }
        copied := Min(|src|, data);
        data := data - copied;
      }
      ghost var last := src[|src| - copied..];
      CopyBytes(base, data, src[|src| - copied..]);
      assert base[..] == Overwrite(s.memory, data, last);
    }

    /** Writes into the reservable region, `offset` bytes behind the data. */
    method WriteReserved(offset: nat, src: seq<byte>)
      requires Valid() && reservable + offset + |src| <= capacity
      modifies base
      ensures State() == old(State()).(memory := base[..]) && Valid()
      ensures base[..] == Overwrite(old(base[..]), reservable + offset, src)
    {
      CopyBytes(base, reservable + offset, src);
    }

    /** Turns the first `len` reservable bytes into data. */
    method Commit(len: nat)
      requires Valid() && reservable + len <= capacity
      modifies this`reservable
      ensures State() == old(State()).(reservable := old(reservable) + len) && Valid()
    {
      reservable := reservable + len;
    }

    method TransferDrainTrackersTo(destination: Slice)
      requires destination != this && destination.base != base
      modifies this`trackers, destination`trackers
      ensures State() == old(State()).(trackers := [])
      ensures destination.State() == old(destination.State()).(trackers := old(destination.trackers) + old(trackers))
    {
      destination.trackers := destination.trackers + trackers;
      trackers := [];
    }

    method AddDrainTrackers(ts: seq<Tracker>)
      modifies this`trackers
      ensures State() == old(State()).(trackers := old(trackers) + ts)
    {
      trackers := trackers + ts;
    }

    /** Charges `to` unless the slice is already charged, is external, or there is no account. */
    method MaybeChargeAccount(to: Option<Account>, log: ResourceLog)
      requires Valid()
      modifies this`account, log
      ensures State() == old(State()).(account := if old(account).None? && owned then to else old(account))
      ensures log.fired == old(log.fired)
      ensures forall a :: log.Net(a) == old(log.Net(a)) + State().BoundTo(a) - old(State()).BoundTo(a)
    {
      if account.Some? || !owned || to.None? {
        return;
      }
      log.Charge(to.value, capacity);
      account := to;
    }
  }
}
