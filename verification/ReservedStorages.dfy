/** The storages of a reservation, and the cache that they are drawn from and given back to. */
module ReservedStorages {
  import opened Bytes
  import opened SliceModule

  const MAX_SLICES: nat := 8

  /** The storages of a reservation; `None` marks memory that belongs to the buffer already. */
  type Storages = seq<Option<array<byte>>>

  /** The cache of storages that reservations draw on and give back to. */
  class StorageFreeList {
    var list: seq<array<byte>>

    ghost predicate Valid()
      reads this
    {
      && |list| <= MAX_SLICES
      && (forall i | 0 <= i < |list| :: list[i].Length == DEFAULT_SLICE_SIZE)
      && (forall i, j | 0 <= i < j < |list| :: list[i] != list[j])
    }

    constructor ()
      ensures Valid() && list == []
    {
      list := [];
    }

    method NewStorage() returns (storage: array<byte>)
      requires Valid()
      modifies this
      ensures Valid() && storage.Length == DEFAULT_SLICE_SIZE && storage !in list
      ensures if old(list) == [] then fresh(storage) && list == [] else old(list) == list + [storage]
      ensures (storage in old(list) || fresh(storage)) && forall s | s in list :: s in old(list)
    {
      if |list| != 0 {
        storage := list[|list| - 1];
        list := list[..|list| - 1];
      } else {
        storage := new byte[DEFAULT_SLICE_SIZE];
      }
    }

    /** The end of a reservation: unused storages return to the cache, last first, while it has room. */
    method Release(owned: Storages)
      requires Valid()
      requires forall i | 0 <= i < |owned| && owned[i].Some? ::
                 owned[i].value.Length == DEFAULT_SLICE_SIZE && owned[i].value !in list
      requires forall i, j | 0 <= i < j < |owned| && owned[i].Some? :: owned[i] != owned[j]
      modifies this
      ensures Valid() && old(list) <= list
      ensures forall s | s in list[|old(list)|..] :: Some(s) in owned
      ensures |list| == MAX_SLICES || forall s | Some(s) in owned :: s in list
    {
      var i := |owned|;
      while i > 0
        invariant 0 <= i <= |owned| && Valid() && old(list) <= list
        invariant forall k | 0 <= k < i && owned[k].Some? :: owned[k].value !in list
        invariant forall s | s in list[|old(list)|..] :: Some(s) in owned
        invariant |list| == MAX_SLICES || forall k | i <= k < |owned| && owned[k].Some? :: owned[k].value in list
      {
        i := i - 1;
        if owned[i].Some? && |list| < MAX_SLICES {
          list := list + [owned[i].value];
        }
      }
    }
  }

  /** The part of `Reserved` that no write can change; `objects` are those of the buffer. */
  ghost predicate Laid(raw: seq<RawSlice>, owned: Storages, objects: set<object>) {
    && |raw| == |owned|
    && (forall i | 0 <= i < |raw| :: raw[i].InBounds() && raw[i].len > 0)
    && (forall i | 0 < i < |raw| :: owned[i].Some?)
    && (forall i | 0 <= i < |raw| && owned[i].Some? ::
          raw[i].mem == owned[i].value && raw[i].offset == 0 && raw[i].mem !in objects)
    && (forall i, j | 0 <= i < j < |raw| :: raw[i].mem != raw[j].mem)
  }

  /** The first `n` bytes take exactly the first `used` pieces. */
  ghost predicate EndsIn(pieces: seq<seq<byte>>, used: nat, n: nat)
    requires used <= |pieces|
  {
    n <= |Flatten(pieces[..used])| && (used > 0 ==> |Flatten(pieces[..used - 1])| < n)
  }

  /** All but `rest` of the first `n` bytes were appended to `mine`, which took the first `used` pieces. */
  ghost predicate Committed(content: seq<byte>, mine: seq<byte>, pieces: seq<seq<byte>>, used: nat, n: nat,
                            rest: nat)
    requires used <= |pieces|
  {
    && rest <= n <= |Flatten(pieces)| && content == mine + Flatten(pieces)[..n - rest]
    && if rest > 0 then n - rest == |Flatten(pieces[..used])| else EndsIn(pieces, used, n)
  }

  lemma CommittedMore(content: seq<byte>, mine: seq<byte>, pieces: seq<seq<byte>>, used: nat, n: nat,
                      rest: nat, len: nat, content': seq<byte>)
    requires used < |pieces| && rest > 0 && len == Min(|pieces[used]|, rest) && len > 0
    requires Committed(content, mine, pieces, used, n, rest) && content' == content + pieces[used][..len]
    ensures Committed(content', mine, pieces, used + 1, n, rest - len)
  {
    FlattenPiece(mine, pieces, used, len);
    assert pieces[..used + 1][..used] == pieces[..used];
  }

  /** When whole storages stop being added: enough, or as many pieces as there can be, or at least
      one storage's worth with less than another still wanted. */
  predicate Stops(raw: seq<RawSlice>, reserved: nat, maxLength: nat) {
    reserved >= maxLength || |raw| == MAX_SLICES ||
    (reserved >= DEFAULT_SLICE_SIZE && maxLength - reserved < DEFAULT_SLICE_SIZE)
  }

  /** The reserved storages are new or were cached. */
  twostate predicate FromCache(new raw: seq<RawSlice>, new owned: Storages, cached: seq<array<byte>>) {
    |raw| == |owned| && forall i | 0 <= i < |raw| && owned[i].Some? :: fresh(raw[i].mem) || raw[i].mem in cached
  }

  /** The reserved storages are used whole, and nothing reserved is cached. */
  ghost predicate OutsideCache(raw: seq<RawSlice>, owned: Storages, list: seq<array<byte>>)
    requires |raw| == |owned|
  {
    && (forall i | 0 <= i < |raw| && owned[i].Some? :: raw[i].len == raw[i].mem.Length == DEFAULT_SLICE_SIZE)
    && (forall i | 0 <= i < |raw| :: raw[i].mem !in list)
  }

  lemma LaidMore(raw: seq<RawSlice>, owned: Storages, objects: set<object>, storage: array<byte>,
                 raw': seq<RawSlice>, owned': Storages)
    requires Laid(raw, owned, objects) && storage !in objects && storage.Length == DEFAULT_SLICE_SIZE
    requires forall i | 0 <= i < |raw| :: raw[i].mem != storage
    requires raw' == raw + [RawSlice(storage, 0, DEFAULT_SLICE_SIZE)] && owned' == owned + [Some(storage)]
    ensures Laid(raw', owned', objects)
  {
  }

  lemma OutsideCacheMore(raw: seq<RawSlice>, owned: Storages, list: seq<array<byte>>, storage: array<byte>,
                         raw': seq<RawSlice>, owned': Storages)
    requires |raw| == |owned| && OutsideCache(raw, owned, list) && storage !in list &&
             storage.Length == DEFAULT_SLICE_SIZE
    requires raw' == raw + [RawSlice(storage, 0, DEFAULT_SLICE_SIZE)] && owned' == owned + [Some(storage)]
    ensures OutsideCache(raw', owned', list)
  {
  }

  /** Reserved and cached storages are all among `sources`. */
  ghost predicate Borrowed(raw: seq<RawSlice>, owned: Storages, list: seq<array<byte>>, sources: set<object>) {
    && |raw| == |owned|
    && (forall i | 0 <= i < |raw| && owned[i].Some? :: raw[i].mem in sources)
    && (forall s | s in list :: s in sources)
  }

  lemma BorrowedMore(raw: seq<RawSlice>, owned: Storages, list: seq<array<byte>>, sources: set<object>,
                     storage: array<byte>, raw': seq<RawSlice>, owned': Storages, list': seq<array<byte>>)
    requires Borrowed(raw, owned, list, sources) && forall s | s in list' :: s in list
    requires raw' == raw + [RawSlice(storage, 0, DEFAULT_SLICE_SIZE)] && owned' == owned + [Some(storage)]
    ensures Borrowed(raw', owned', list', sources + {storage})
  {
  }

  predicate Remains(remaining: nat, reserved: nat, maxLength: nat) {
    remaining == if reserved < maxLength then maxLength - reserved else 0
  }
}
