/** Stretches of raw memory, written to piece by piece. */
module RawMemory {
  import opened Bytes
  import opened SliceModule

  ghost function TotalLength(raw: seq<RawSlice>): nat {
    if raw == [] then 0 else TotalLength(raw[..|raw| - 1]) + raw[|raw| - 1].len
  }

  ghost function Mems(raw: seq<RawSlice>): set<object> {
    set i | 0 <= i < |raw| :: raw[i].mem
  }

  lemma TotalLengthNext(raw: seq<RawSlice>, i: nat)
    requires i < |raw|
    ensures TotalLength(raw[..i + 1]) == TotalLength(raw[..i]) + raw[i].len
  {
    assert raw[..i + 1][..i] == raw[..i];
  }

  /** The reserved memory, piece by piece. */
  ghost function Pieces(raw: seq<RawSlice>): (pieces: seq<seq<byte>>)
    requires forall i | 0 <= i < |raw| :: raw[i].InBounds()
    reads Mems(raw)
    ensures |pieces| == |raw| && forall i | 0 <= i < |raw| :: pieces[i] == raw[i].Data()
  {
    if raw == [] then [] else Pieces(raw[..|raw| - 1]) + [raw[|raw| - 1].Data()]
  }

  lemma {:induction false} PiecesLength(raw: seq<RawSlice>)
    requires forall i | 0 <= i < |raw| :: raw[i].InBounds()
    ensures |Flatten(Pieces(raw))| == TotalLength(raw)
  {
    if raw != [] {
      PiecesLength(raw[..|raw| - 1]);
      FlattenSnoc(Pieces(raw[..|raw| - 1]), raw[|raw| - 1].Data());
    }
  }

  /** Where piece `i` lies in the reserved memory. */
  lemma PieceAt(raw: seq<RawSlice>, i: nat)
    requires i < |raw| && forall k | 0 <= k < |raw| :: raw[k].InBounds()
    ensures |Flatten(Pieces(raw)[..i])| == TotalLength(raw[..i])
    ensures TotalLength(raw[..i]) + raw[i].len <= TotalLength(raw) == |Flatten(Pieces(raw))|
  {
    PiecesLength(raw);
    PiecesLength(raw[..i]);
    assert Pieces(raw[..i]) == Pieces(raw)[..i];
    FlattenUpTo(Pieces(raw), i);
  }

  lemma ContentPrefix(memory: seq<byte>, from: nat, to: nat, n: nat)
    requires from + n <= to <= |memory|
    ensures memory[from..to][..n] == memory[from..from + n]
  {
  }

  lemma DataOf(r: RawSlice, memory: seq<byte>)
    requires r.InBounds() && r.mem[..] == memory
    ensures r.Data() == memory[r.offset..r.offset + r.len]
  {
  }

  lemma RawWritten(before: seq<byte>, after: seq<byte>, offset: nat, len: nat, at: nat, src: seq<byte>,
                   data: seq<byte>, data': seq<byte>)
    requires offset + len <= |before| && at + |src| <= len && after == Overwrite(before, offset + at, src)
    requires data == before[offset..offset + len] && data' == after[offset..offset + len]
    ensures data' == Overwrite(data, at, src)
  {
    OverwriteWithin(before, offset, len, at, src);
  }

  lemma RawIsWritten(r: RawSlice, before: seq<byte>, at: nat, src: seq<byte>, data: seq<byte>)
    requires r.InBounds() && at + |src| <= r.len && |before| == r.mem.Length
    requires data == before[r.offset..r.offset + r.len] && r.mem[..] == Overwrite(before, r.offset + at, src)
    ensures r.Data() == Overwrite(data, at, src)
  {
    var after := r.mem[..];
    DataOf(r, after);
    RawWritten(before, after, r.offset, r.len, at, src, data, r.Data());
  }

  lemma ApartIsKept(o: RawSlice, r: RawSlice, before: seq<byte>, after: seq<byte>, at: nat, src: seq<byte>)
    requires o.Apart(r) && o.mem == r.mem && o.InBounds() && o.mem[..] == after && at + |src| <= r.len
    requires r.offset + r.len <= |before| && after == Overwrite(before, r.offset + at, src)
    ensures o.Data() == before[o.offset..o.offset + o.len]
  {
    OverwriteOutside(before, r.offset + at, src, o.offset, o.offset + o.len);
    DataOf(o, after);
  }

  /** `memcpy(r.mem_ + at, src)`, which does not reach memory apart from `r`. */
  method WriteRaw(r: RawSlice, at: nat, src: seq<byte>)
    requires r.InBounds() && at + |src| <= r.len
    modifies r.mem
    ensures r.Data() == Overwrite(old(r.Data()), at, src)
    ensures forall o: RawSlice | o.Apart(r) && o.mem == r.mem && o.InBounds() :: o.Data() == old(o.Data())
  {
    ghost var before, data := r.mem[..], r.Data();
    DataOf(r, before);
    CopyBytes(r.mem, r.offset + at, src);
    ghost var after := r.mem[..];
    RawIsWritten(r, before, at, src, data);
    forall o: RawSlice | o.Apart(r) && o.mem == r.mem && o.InBounds()
      ensures o.Data() == before[o.offset..o.offset + o.len]
    {
      ApartIsKept(o, r, before, after, at, src);
    }
  }

  /** A write into one piece leaves the others alone. */
  method WritePiece(dests: seq<RawSlice>, i: nat, at: nat, src: seq<byte>)
    requires forall j | 0 <= j < |dests| :: dests[j].InBounds()
    requires i < |dests| && at + |src| <= dests[i].len
    requires forall j | 0 <= j < |dests| && j != i :: dests[j].Apart(dests[i])
    modifies dests[i].mem
    ensures Pieces(dests) == old(Pieces(dests))[i := Overwrite(old(Pieces(dests))[i], at, src)]
  {
    ghost var pieces := Pieces(dests);
    WriteRaw(dests[i], at, src);
    assert forall j | 0 <= j < |dests| && j != i :: dests[j].Data() == pieces[j];
    assert Pieces(dests) == pieces[i := Overwrite(pieces[i], at, src)];
  }
}
