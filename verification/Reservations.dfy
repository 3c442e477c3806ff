/** The two-step way to append: reserve memory, let the caller fill it, commit what was filled. */
module Reservations {
  import opened Bytes
  import opened SliceModule
  import opened RawMemory
  import opened ReservedStorages
  import opened OwnedImplModule

  class Reservation {
    const buffer: OwnedImpl
    const freeList: StorageFreeList
    var raw: seq<RawSlice>
    var owned: Storages
    var length: nat

    /** No storage is both reserved and in the cache. */
    static ghost predicate ApartFrom(list: seq<array<byte>>, raw: seq<RawSlice>, owned: Storages) {
      && |raw| == |owned|
      && (forall i | 0 <= i < |raw| && owned[i].Some? ::
            raw[i].mem == owned[i].value && raw[i].mem.Length == DEFAULT_SLICE_SIZE)
      && (forall i | 0 <= i < |raw| :: raw[i].mem !in list)
      && (forall i, j | 0 <= i < j < |raw| :: raw[i].mem != raw[j].mem)
    }

    /** The reserved memory as one string. */
    ghost function Reserved(): seq<byte>
      requires forall i | 0 <= i < |raw| :: raw[i].InBounds()
      reads this, Mems(raw)
    {
      Flatten(Pieces(raw))
    }

    ghost predicate Valid()
      reads this, buffer, buffer.slices, buffer.slices.Repr, freeList
    {
      && buffer.Valid() && this !in buffer.slices.Repr && buffer.FreeListApart(freeList)
      && buffer.Reserved(raw, owned) && (raw != [] ==> length == TotalLength(raw))
      && ApartFrom(freeList.list, raw, owned)
    }

    /** `reserveWithMaxLength`; content and holdings of the buffer stay. A maximum of zero reserves
        nothing, and leaves the length unset. */
    constructor (buffer: OwnedImpl, maxLength: nat, freeList: StorageFreeList)
      requires buffer.Valid() && buffer.FreeListApart(freeList)
      modifies buffer.Repr(), buffer.log, freeList
      ensures Valid() && this.buffer == buffer && this.freeList == freeList
      ensures buffer.Content() == old(buffer.Content()) && buffer.Conserves() && buffer.account == old(buffer.account)
      ensures fresh(buffer.slices.Repr - old(buffer.slices.Repr))
      ensures FromCache(raw, owned, old(freeList.list)) && |raw| <= MAX_SLICES
      ensures maxLength == 0 ==> raw == []
      ensures maxLength > 0 ==>
                && raw != [] && Stops(raw, length, maxLength)
                && (length <= maxLength || length < 2 * DEFAULT_SLICE_SIZE)
    {
      var r, o, n := buffer.ReserveWithMaxLength(maxLength, freeList);
      this.buffer, this.freeList := buffer, freeList;
      raw, owned, length := r, o, n;
    }

    /** `Write` into a storage. */
    method WriteStorage(i: nat, at: nat, src: seq<byte>)
      requires Valid() && i < |raw| && at + |src| <= raw[i].len && owned[i].Some?
      modifies raw[i].mem
      ensures Valid() && buffer.Content() == old(buffer.Content()) && buffer.Conserves() &&
              buffer.account == old(buffer.account)
      ensures unchanged(this) && buffer.slices.Repr == old(buffer.slices.Repr)
      ensures Pieces(raw) == old(Pieces(raw))[i := Overwrite(old(Pieces(raw))[i], at, src)]
    {
      ghost var pieces := Pieces(raw);
      WriteRaw(raw[i], at, src);
      forall j | 0 <= j < |raw|
        ensures Pieces(raw)[j] == pieces[i := Overwrite(pieces[i], at, src)][j]
      {
        assert j != i ==> raw[j].mem != raw[i].mem;
      }
    }

    /** `Write` into the free space of the last slice. */
    method WriteFree(at: nat, src: seq<byte>)
      requires Valid() && raw != [] && at + |src| <= raw[0].len && owned[0].None?
      modifies buffer.Repr()
      ensures Valid() && buffer.Content() == old(buffer.Content()) && buffer.Conserves() &&
              buffer.account == old(buffer.account)
      ensures unchanged(this) && buffer.slices.Repr == old(buffer.slices.Repr)
      ensures Pieces(raw) == old(Pieces(raw))[0 := Overwrite(old(Pieces(raw))[0], at, src)]
    {
      buffer.WriteFirst(raw, owned, at, src);
    }

    /** The piece lies in a storage, or, the first one, in the free space of the last slice. */
    method WritePiece(i: nat, at: nat, src: seq<byte>)
      requires Valid() && i < |raw| && at + |src| <= raw[i].len
      modifies buffer.Repr(), raw[i].mem
      ensures Valid() && buffer.Content() == old(buffer.Content()) && buffer.Conserves() &&
              buffer.account == old(buffer.account)
      ensures unchanged(this) && buffer.slices.Repr == old(buffer.slices.Repr)
      ensures Pieces(raw) == old(Pieces(raw))[i := Overwrite(old(Pieces(raw))[i], at, src)]
    {
      if owned[i].Some? {
        WriteStorage(i, at, src);
      } else {
        WriteFree(at, src);
      }
    }

    /** A write into piece `i`, which lies `start` bytes behind the first, when the pieces hold `memory`. */
    method WriteAt(i: nat, at: nat, src: seq<byte>, ghost start: nat, ghost memory: seq<byte>)
      requires Valid() && i < |raw| && at + |src| <= raw[i].len
      requires start == TotalLength(raw[..i]) && memory == Reserved()
      modifies buffer.Repr(), raw[i].mem
      ensures Valid() && buffer.Content() == old(buffer.Content()) && buffer.Conserves() &&
              buffer.account == old(buffer.account)
      ensures unchanged(this) && buffer.slices.Repr == old(buffer.slices.Repr)
      ensures start + at + |src| <= |memory| && Reserved() == Overwrite(memory, start + at, src)
    {
      ghost var pieces := Pieces(raw);
      PieceAt(raw, i);
      WritePiece(i, at, src);
      PieceWritten(pieces, Pieces(raw), i, at, src, start, memory, Reserved());
    }

    /** The caller fills a part of one reserved piece. */
    method Write(i: nat, at: nat, src: seq<byte>) returns (ghost start: nat)
      requires Valid() && i < |raw| && at + |src| <= raw[i].len
      modifies buffer.Repr(), raw[i].mem
      ensures Valid() && buffer.Content() == old(buffer.Content()) && buffer.Conserves() &&
              buffer.account == old(buffer.account)
      ensures unchanged(this) && buffer.slices.Repr == old(buffer.slices.Repr)
      ensures start == TotalLength(raw[..i]) && start + at + |src| <= |old(Reserved())|
      ensures Reserved() == Overwrite(old(Reserved()), start + at, src)
    {
      start := TotalLength(raw[..i]);
      WriteAt(i, at, src, start, Reserved());
    }

    /** Releases the storages of the pieces from `used` on to the cache. */
    method GiveBack(used: nat)
      requires buffer.FreeListApart(freeList) && used <= |raw| && ApartFrom(freeList.list, raw, owned)
      requires forall i | used <= i < |raw| && owned[i].Some? :: raw[i].mem !in buffer.slices.Repr
      modifies freeList
      ensures buffer.FreeListApart(freeList) && old(freeList.list) <= freeList.list
    {
      ghost var list := freeList.list;
      var unused := owned[used..];
      freeList.Release(unused);
      forall s | s in freeList.list
        ensures s !in buffer.slices.Repr
      {
        if s !in list {
          assert freeList.list == list + freeList.list[|list|..];
          assert Some(s) in unused;
        }
      }
    }

    /** The end of the reservation. */
    method Close(used: nat)
      requires buffer.FreeListApart(freeList) && used <= |raw| && ApartFrom(freeList.list, raw, owned)
      requires forall i | used <= i < |raw| && owned[i].Some? :: raw[i].mem !in buffer.slices.Repr
      modifies this, freeList
      ensures raw == [] && owned == [] && length == 0
      ensures buffer.FreeListApart(freeList) && old(freeList.list) <= freeList.list
    {
      GiveBack(used);
      raw, owned, length := [], [], 0;
    }

    /** Appends the first `n` reserved bytes to the buffer; unused storages go back to the cache. */
    method Commit(n: nat)
      requires Valid() && n <= TotalLength(raw)
      modifies this, buffer.Repr(), buffer.log, freeList, Mems(raw)
      ensures buffer.Valid() && buffer.Conserves() && buffer.account == old(buffer.account)
      ensures |old(Reserved())| == old(TotalLength(raw))
      ensures buffer.Content() == old(buffer.Content()) + old(Reserved())[..n]
      ensures fresh(buffer.slices.Repr - old(buffer.slices.Repr) - old(Mems(raw)))
      ensures raw == [] && length == 0 && buffer.FreeListApart(freeList)
      ensures old(freeList.list) <= freeList.list
    {
      PiecesLength(raw);
      var used := CommitToBuffer(n);
      Close(used);
    }

    /** The buffer takes the first `n` bytes; the storages of the other pieces stay apart from it. */
    method CommitToBuffer(n: nat) returns (used: nat)
      requires Valid() && n <= TotalLength(raw)
      modifies buffer.Repr(), buffer.log, Mems(raw)
      ensures buffer.Valid() && buffer.Conserves() && buffer.account == old(buffer.account)
      ensures fresh(buffer.slices.Repr - old(buffer.slices.Repr) - Mems(raw))
      ensures n <= |Flatten(old(Pieces(raw)))| &&
              buffer.Content() == old(buffer.Content()) + Flatten(old(Pieces(raw)))[..n]
      ensures unchanged(this) && this !in buffer.Repr() && unchanged(freeList)
      ensures buffer.FreeListApart(freeList) && used <= |raw|
      ensures forall i | used <= i < |raw| && owned[i].Some? :: raw[i].mem !in buffer.slices.Repr
    {
      ghost var r, o, changing := raw, owned, buffer.Repr() + Mems(raw);
      assert this !in changing && freeList !in changing && forall s | s in freeList.list :: s !in Mems(raw);
      used := buffer.Commit(n, raw, owned);
      assert raw == r && owned == o && unchanged(freeList);
    }
  }

  /** What is written into the reserved memory up to `done` is `data`. */
  ghost predicate Holds(memory: seq<byte>, data: seq<byte>, done: nat) {
    done <= |memory| && done <= |data| && memory[..done] == data[..done]
  }

  lemma HoldsMore(memory: seq<byte>, memory': seq<byte>, data: seq<byte>, done: nat, n: nat, src: seq<byte>, m: nat)
    requires Holds(memory, data, done) && m == done + n <= |data| && m <= |memory| && src == data[done..m]
    requires memory' == Overwrite(memory, done, src)
    ensures |memory'| == |memory| && Holds(memory', data, m)
  {
    assert memory'[..m] == memory[..done] + src;
    assert data[..m] == data[..done] + src;
  }

  /** Writes `src`, the next part of `data`, into piece `i`. */
  method FillPart(r: Reservation, i: nat, src: seq<byte>, ghost data: seq<byte>, ghost done: nat, ghost more: nat)
    requires r.Valid() && i < |r.raw| && |src| <= r.raw[i].len
    requires done == TotalLength(r.raw[..i]) && Holds(r.Reserved(), data, done)
    requires more == done + |src| <= |data| && src == data[done..more]
    modifies r.buffer.Repr(), r.raw[i].mem
    ensures r.Valid() && unchanged(r) && r.buffer.slices.Repr == old(r.buffer.slices.Repr)
    ensures r.buffer.Content() == old(r.buffer.Content()) && r.buffer.Conserves()
    ensures r.buffer.account == old(r.buffer.account)
    ensures Holds(r.Reserved(), data, more)
  {
    ghost var memory := r.Reserved();
    ghost var start := r.Write(i, 0, src);
    HoldsMore(memory, r.Reserved(), data, done, |src|, src, more);
  }

  /** Writes the next part of `data`, if any is left, into piece `i`. */
  method FillPiece(r: Reservation, i: nat, data: seq<byte>, done: nat) returns (more: nat)
    requires r.Valid() && i < |r.raw| && done == Min(|data|, TotalLength(r.raw[..i])) && Holds(r.Reserved(), data, done)
    modifies r.buffer.Repr(), r.raw[i].mem
    ensures r.Valid() && unchanged(r) && r.buffer.slices.Repr == old(r.buffer.slices.Repr)
    ensures r.buffer.Content() == old(r.buffer.Content()) && r.buffer.Conserves()
    ensures r.buffer.account == old(r.buffer.account)
    ensures more == Min(|data|, TotalLength(r.raw[..i + 1])) && Holds(r.Reserved(), data, more)
  {
    TotalLengthNext(r.raw, i);
    var n := Min(r.raw[i].len, |data| - done);
    more := done + n;
    if n > 0 {
      FillPart(r, i, data[done..more], data, done, more);
    }
  }

  /** Writes as much of `data` as there is room for into the pieces of a reservation, in order. */
  method Fill(r: Reservation, data: seq<byte>) returns (done: nat)
    requires r.Valid()
    modifies r.buffer.Repr(), Mems(r.raw)
    ensures r.Valid() && unchanged(r) && r.buffer.slices.Repr == old(r.buffer.slices.Repr)
    ensures r.buffer.Content() == old(r.buffer.Content()) && r.buffer.Conserves()
    ensures r.buffer.account == old(r.buffer.account)
    ensures done == Min(|data|, TotalLength(r.raw)) && Holds(r.Reserved(), data, done)
  {
    done := 0;
    var i := 0;
    while i < |r.raw|
      invariant 0 <= i <= |r.raw| && r.Valid() && unchanged(r) && r.buffer.slices.Repr == old(r.buffer.slices.Repr)
      invariant r.buffer.Content() == old(r.buffer.Content()) && r.buffer.Conserves()
      invariant r.buffer.account == old(r.buffer.account)
      invariant done == Min(|data|, TotalLength(r.raw[..i])) && Holds(r.Reserved(), data, done)
    {
      done := FillPiece(r, i, data, done);
      i := i + 1;
    }
    assert r.raw[..i] == r.raw;
  }

  method FillAndCommit(r: Reservation, data: seq<byte>) returns (n: nat)
    requires r.Valid()
    modifies r, r.buffer.Repr(), r.buffer.log, r.freeList, Mems(r.raw)
    ensures r.buffer.Valid() && r.buffer.Conserves() && r.buffer.account == old(r.buffer.account)
    ensures fresh(r.buffer.slices.Repr - old(r.buffer.slices.Repr) - old(Mems(r.raw)))
    ensures n <= |data| && r.buffer.Content() == old(r.buffer.Content()) + data[..n]
    ensures n == 0 && old(r.raw) != [] ==> data == []
  {
    n := Fill(r, data);
    assert r.raw != [] ==> TotalLength(r.raw) > 0;
    r.Commit(n);
  }

  /** A reservation with a cache of its own: its memory is the buffer's or new. */
  method Reserve(buffer: OwnedImpl, maxLength: nat) returns (r: Reservation)
    requires buffer.Valid()
    modifies buffer.Repr(), buffer.log
    ensures fresh(r) && fresh(r.freeList) && r.buffer == buffer && r.Valid() && buffer.account == old(buffer.account)
    ensures buffer.Content() == old(buffer.Content()) && buffer.Conserves()
    ensures fresh(buffer.slices.Repr - old(buffer.slices.Repr)) && fresh(Mems(r.raw) - buffer.slices.Repr)
    ensures maxLength > 0 ==> r.raw != []
  {
    var freeList := new StorageFreeList();
    r := new Reservation(buffer, maxLength, freeList);
    if r.raw != [] && r.owned[0].None? {
      buffer.BehindIsInRepr(r.raw[0]);
    }
  }

  /** Reserves memory for `data`, writes it, or as much of it as was reserved, and commits that. */
  method Append(buffer: OwnedImpl, data: seq<byte>) returns (n: nat)
    requires buffer.Valid()
    modifies buffer.Repr(), buffer.log
    ensures buffer.Valid() && fresh(buffer.slices.Repr - old(buffer.slices.Repr)) && buffer.Conserves()
    ensures buffer.account == old(buffer.account)
    ensures n <= |data| && (n == 0 ==> data == [])
    ensures buffer.Content() == old(buffer.Content()) + data[..n]
  {
    var reservation := Reserve(buffer, |data|);
    n := FillAndCommit(reservation, data);
  }
}
