/** Copying out of a ring of slices: a window of its content to one place, or its beginning to many. */
module BufferCopy {
  import opened Bytes
  import opened SliceModule
  import opened SliceDequeModule
  import opened Holdings
  import opened RawMemory

  /** The position of a copy in its destinations and in the slices. */
  datatype Cursor = Cursor(destIndex: nat, destOffset: nat, srcIndex: nat, srcOffset: nat, bytesRead: nat)

  /** The bytes that a copy of `size` bytes from position `start` on finds. */
  ghost function Window(content: seq<byte>, start: nat, size: nat): (w: seq<byte>)
    ensures |w| == Min(size, if start < |content| then |content| - start else 0)
  {
    if start < |content| then content[start..start + Min(size, |content| - start)] else []
  }

  lemma WindowMore(content: seq<byte>, start: nat, size: nat, done: nat, n: nat, w: seq<byte>)
    requires start + done + n <= |content| && size <= |content| - start && w == content[start..start + size]
    requires done + n <= size
    ensures w[..done + n] == w[..done] + content[start + done..start + done + n]
  {
    var next := content[start + done..start + done + n];
    forall k | 0 <= k < n
      ensures w[done..done + n][k] == next[k]
    {
      assert w[done + k] == content[start + done + k];
    }
    assert w[..done + n] == w[..done] + w[done..done + n];
  }

  /** A copied piece of slice `i` is the next piece of the window. */
  lemma WindowPiece(slices: SliceDeque, start: nat, size: nat, done: nat, i: nat, from: nat, n: nat)
    requires slices.Valid() && i < slices.size && from + n <= slices.states[i].DataSize()
    requires slices.Before(i) + from == start + done && done + n <= size
    ensures var w := Window(slices.Content(), start, size);
            done + n <= |w| && w[..done + n] == w[..done] + slices.states[i].Content()[from..from + n]
  {
    ContentPiece(slices.states, i, from, n);
    var w := Window(slices.Content(), start, size);
    if start < |slices.Content()| {
      WindowMore(slices.Content(), start, |w|, done, n, w);
    }
  }

  /** `dest`, which held `before`, now has the first `done` bytes of the window `w` at position `at`. */
  ghost predicate CopiedTo(dest: array<byte>, before: seq<byte>, at: nat, w: seq<byte>, done: nat)
    requires at + |w| <= |before|
    reads dest
  {
    done <= |w| && dest[..] == Overwrite(before, at, w[..done])
  }

  /** One `memcpy` of `CopyOut`: extends the copied part of the window by a piece of slice `i`. */
  method CopyPiece(slices: SliceDeque, start: nat, size: nat, dest: array<byte>, at: nat, i: nat, from: nat, done: nat,
                   ghost before: seq<byte>, ghost w: seq<byte>)
      returns (copied: nat)
    requires slices.Valid() && dest !in slices.Repr && at + size <= dest.Length == |before|
    requires i < slices.size && from < slices.states[i].DataSize() && done < size
    requires slices.Before(i) + from == start + done
    requires w == Window(slices.Content(), start, size) && CopiedTo(dest, before, at, w, done)
    modifies dest
    ensures copied == Min(size - done, slices.states[i].DataSize() - from)
    ensures CopiedTo(dest, before, at, w, done + copied)
  {
    var slice := slices.At(i);
    copied := Min(size - done, slice.DataSize() - from);
    var piece := slice.Content()[from..from + copied];
    WindowPiece(slices, start, size, done, i, from, copied);
    OverwriteMore(before, at, w[..done], piece);
    CopyBytes(dest, at + done, piece);
  }

  /** One step of `CopyOut`: skips slice `i`, or copies from it. */
  method CopyNext(slices: SliceDeque, start: nat, size: nat, dest: array<byte>, at: nat, i: nat, skip: nat, done: nat,
                  ghost before: seq<byte>, ghost w: seq<byte>)
      returns (skip': nat, done': nat)
    requires slices.Valid() && dest !in slices.Repr && at + size <= dest.Length == |before|
    requires i < slices.size && done < size && slices.Before(i) + skip == start + done && (skip > 0 ==> done == 0)
    requires w == Window(slices.Content(), start, size) && CopiedTo(dest, before, at, w, done)
    modifies dest
    ensures (done' < size ==> slices.Before(i + 1) + skip' == start + done') && (skip' > 0 ==> done' == 0)
    ensures CopiedTo(dest, before, at, w, done')
  {
    ContentAt(slices.states, i);
    skip', done' := 0, done;
    var dataSize := slices.At(i).DataSize();
    if dataSize <= skip {
      skip' := skip - dataSize;
    } else {
      var copied := CopyPiece(slices, start, size, dest, at, i, skip, done, before, w);
      done' := done + copied;
    }
  }

  /** Copies up to `size` bytes from position `start` on to `dest[at..]`. */
  method CopyOut(slices: SliceDeque, start: nat, size: nat, dest: array<byte>, at: nat)
    requires slices.Valid() && dest !in slices.Repr && at + size <= dest.Length
    modifies dest
    ensures dest[..] == Overwrite(old(dest[..]), at, Window(slices.Content(), start, size))
  {
    ghost var before, want := dest[..], Window(slices.Content(), start, size);
    var bytesToSkip: nat, done: nat := start, 0;
    for i := 0 to slices.size
      invariant CopiedTo(dest, before, at, want, done)
      invariant done < size ==> slices.Before(i) + bytesToSkip == start + done
      invariant bytesToSkip > 0 ==> done == 0
    {
      if done == size {
        break;
      }
      bytesToSkip, done := CopyNext(slices, start, size, dest, at, i, bytesToSkip, done, before, want);
    }
    assert slices.states[..slices.size] == slices.states;
    assert want[..done] == want;
  }

  /** Destinations that neither overlap nor belong to this buffer. */
  ghost predicate Destinations(slices: SliceDeque, dests: seq<RawSlice>)
    reads slices
  {
    && (forall i | 0 <= i < |dests| :: dests[i].InBounds() && dests[i].mem !in slices.Repr)
    && (forall i, j | 0 <= i < |dests| && 0 <= j < |dests| && i != j :: dests[i].Apart(dests[j]))
  }

  /** The destinations, which held `before`, now begin with the first `n` bytes of content. */
  ghost predicate Filled(slices: SliceDeque, dests: seq<RawSlice>, before: seq<byte>, n: nat)
    requires AllValid(slices.states) && forall i | 0 <= i < |dests| :: dests[i].InBounds()
    reads slices, Mems(dests)
  {
    n <= |before| && n <= |slices.Content()| && Flatten(Pieces(dests)) == Overwrite(before, 0, slices.Content()[..n])
  }

  /** Byte `n` of the content is where slice `i` at `offset` is; no offset points behind a slice. */
  ghost predicate AtByte(slices: SliceDeque, i: nat, offset: nat, n: nat)
    requires AllValid(slices.states)
    reads slices
  {
    && i <= |slices.states| && n == slices.Before(i) + offset
    && (offset > 0 ==> i < |slices.states| && offset < slices.states[i].DataSize())
  }

  /** Source and destination of the cursor are at byte `bytesRead`. */
  ghost predicate CursorValid(slices: SliceDeque, c: Cursor, total: nat, dests: seq<RawSlice>)
    requires AllValid(slices.states)
    reads slices
  {
    && c.bytesRead <= total && AtByte(slices, c.srcIndex, c.srcOffset, c.bytesRead)
    && c.destIndex <= |dests| && c.bytesRead == TotalLength(dests[..c.destIndex]) + c.destOffset
    && (c.destOffset > 0 ==> c.destIndex < |dests| && c.destOffset < dests[c.destIndex].len)
  }

  /** As much as source slice, destination and limit allow. */
  function Copied(c: Cursor, total: nat, srcSize: nat, destSize: nat): (copied: nat)
    requires c.srcOffset <= srcSize && c.destOffset <= destSize && c.bytesRead <= total
    ensures c.srcOffset + copied <= srcSize && c.destOffset + copied <= destSize && c.bytesRead + copied <= total
    ensures c.srcOffset + copied == srcSize || c.destOffset + copied == destSize || c.bytesRead + copied == total
  {
    Min(srcSize - c.srcOffset, Min(destSize - c.destOffset, total - c.bytesRead))
  }

  /** Moves a cursor on, to the next slice or destination when one is finished. */
  function Advance(c: Cursor, copied: nat, srcSize: nat, destSize: nat): Cursor {
    var srcDone, destDone := c.srcOffset + copied == srcSize, c.destOffset + copied == destSize;
    Cursor(if destDone then c.destIndex + 1 else c.destIndex, if destDone then 0 else c.destOffset + copied,
           if srcDone then c.srcIndex + 1 else c.srcIndex, if srcDone then 0 else c.srcOffset + copied,
           c.bytesRead + copied)
  }

  lemma Advanced(slices: SliceDeque, c: Cursor, copied: nat, total: nat, dests: seq<RawSlice>)
    requires AllValid(slices.states) && c.destIndex < |dests| && c.srcIndex < |slices.states|
    requires CursorValid(slices, c, total, dests) && c.bytesRead + copied <= total
    requires c.srcOffset + copied <= slices.states[c.srcIndex].DataSize()
    requires c.destOffset + copied <= dests[c.destIndex].len
    ensures var next := Advance(c, copied, slices.states[c.srcIndex].DataSize(), dests[c.destIndex].len);
            CursorValid(slices, next, total, dests)
  {
    TotalLengthNext(dests, c.destIndex);
    ContentAt(slices.states, c.srcIndex);
  }

  /** Writes into one destination, which begins `start` bytes behind the first; together they held `memory`. */
  method WriteDestination(dests: seq<RawSlice>, i: nat, at: nat, src: seq<byte>, ghost start: nat,
                          ghost memory: seq<byte>)
    requires forall j | 0 <= j < |dests| :: dests[j].InBounds()
    requires i < |dests| && at + |src| <= dests[i].len
    requires forall j | 0 <= j < |dests| && j != i :: dests[j].Apart(dests[i])
    requires start == TotalLength(dests[..i]) && memory == Flatten(Pieces(dests))
    modifies dests[i].mem
    ensures |memory| == TotalLength(dests) >= start + at + |src|
    ensures Flatten(Pieces(dests)) == Overwrite(memory, start + at, src)
  {
    ghost var pieces := Pieces(dests);
    PieceAt(dests, i);
    WritePiece(dests, i, at, src);
    PieceWritten(pieces, Pieces(dests), i, at, src, start, memory, Flatten(Pieces(dests)));
  }

  /** Extends what was already written by a write into one destination. */
  method WriteNext(slices: SliceDeque, dests: seq<RawSlice>, i: nat, at: nat, src: seq<byte>, ghost before: seq<byte>,
                   ghost done: seq<byte>)
    requires Destinations(slices, dests) && i < |dests| && at + |src| <= dests[i].len
    requires |done| == TotalLength(dests[..i]) + at && |done| <= |before|
    requires Flatten(Pieces(dests)) == Overwrite(before, 0, done)
    modifies dests[i].mem
    ensures |done + src| <= |before| && Flatten(Pieces(dests)) == Overwrite(before, 0, done + src)
  {
    ghost var memory := Overwrite(before, 0, done);
    WriteDestination(dests, i, at, src, TotalLength(dests[..i]), memory);
    OverwriteMore(before, 0, done, src);
  }

  /** Extends filled destinations by the next bytes of content. */
  method WriteFilled(slices: SliceDeque, dests: seq<RawSlice>, i: nat, at: nat, src: seq<byte>,
                     ghost before: seq<byte>, ghost n: nat, ghost m: nat)
    requires slices.Valid() && Destinations(slices, dests) && i < |dests| && at + |src| <= dests[i].len
    requires n == TotalLength(dests[..i]) + at && Filled(slices, dests, before, n)
    requires m == n + |src| <= |slices.Content()| && slices.Content()[..m] == slices.Content()[..n] + src
    modifies dests[i].mem
    ensures slices.Valid() && Filled(slices, dests, before, m)
  {
    WriteNext(slices, dests, i, at, src, before, slices.Content()[..n]);
  }

  /** The bytes copied from a source slice are the next bytes of the content. */
  lemma SourcePiece(slices: SliceDeque, i: nat, offset: nat, n: nat, copied: nat)
    requires slices.Valid() && AtByte(slices, i, offset, n) && n < |slices.Content()|
    requires i < slices.size ==> offset + copied <= slices.states[i].DataSize()
    ensures i < slices.size && n + copied <= |slices.Content()| && offset <= slices.states[i].DataSize()
    ensures slices.Content()[..n + copied]
         == slices.Content()[..n] + slices.states[i].Content()[offset..offset + copied]
  {
    var all := slices.Content();
    assert slices.states[..slices.size] == slices.states;
    ContentPiece(slices.states, i, offset, copied);
    TakeMore([], all, n, copied);
    assert all[n..][..copied] == all[n..n + copied];
  }

  /** Copies from byte `offset` of slice `k` to byte `at` of destination `i`. */
  method CopyBetween(slices: SliceDeque, dests: seq<RawSlice>, i: nat, at: nat, k: nat, offset: nat, copied: nat,
                     ghost before: seq<byte>, ghost n: nat, ghost m: nat)
    requires slices.Valid() && Destinations(slices, dests) && i < |dests| && at + copied <= dests[i].len
    requires k < slices.size && offset + copied <= slices.states[k].DataSize()
    requires AtByte(slices, k, offset, n) && n == TotalLength(dests[..i]) + at && Filled(slices, dests, before, n)
    requires m == n + copied && n < |slices.Content()|
    modifies dests[i].mem
    ensures slices.Valid() && Filled(slices, dests, before, m)
  {
    var src := slices.At(k);
    var piece := src.Content()[offset..offset + copied];
    assert src.State() == slices.states[k];
    SourcePiece(slices, k, offset, n, copied);
    WriteFilled(slices, dests, i, at, piece, before, n, m);
  }

  /** How much the next copy takes, and where the cursor is then. */
  lemma CursorStep(slices: SliceDeque, c: Cursor, total: nat, dests: seq<RawSlice>)
    requires slices.Valid() && CursorValid(slices, c, total, dests) && c.destIndex < |dests|
    requires c.bytesRead < total <= |slices.Content()|
    ensures c.srcIndex < slices.size && c.srcOffset <= slices.states[c.srcIndex].DataSize()
    ensures c.destOffset <= dests[c.destIndex].len
    ensures var srcSize, destSize := slices.states[c.srcIndex].DataSize(), dests[c.destIndex].len;
            var copied := Copied(c, total, srcSize, destSize);
            var next := Advance(c, copied, srcSize, destSize);
            && CursorValid(slices, next, total, dests)
            && (next.destIndex == c.destIndex && next.srcIndex == c.srcIndex ==> next.bytesRead > c.bytesRead)
  {
    SourcePiece(slices, c.srcIndex, c.srcOffset, c.bytesRead, 0);
    var srcSize, destSize := slices.states[c.srcIndex].DataSize(), dests[c.destIndex].len;
    Advanced(slices, c, Copied(c, total, srcSize, destSize), total, dests);
  }

  /** One iteration of `CopyOutToSlices`. */
  method CopyStep(slices: SliceDeque, c: Cursor, total: nat, dests: seq<RawSlice>, ghost before: seq<byte>)
      returns (c': Cursor)
    requires slices.Valid() && Destinations(slices, dests) && total <= |slices.Content()|
    requires |before| == TotalLength(dests)
    requires CursorValid(slices, c, total, dests) && Filled(slices, dests, before, c.bytesRead)
    requires c.destIndex < |dests| && c.bytesRead < total
    modifies dests[c.destIndex].mem
    ensures slices.Valid() && CursorValid(slices, c', total, dests) && Filled(slices, dests, before, c'.bytesRead)
    ensures c'.destIndex >= c.destIndex && c'.srcIndex >= c.srcIndex && c'.bytesRead >= c.bytesRead
    ensures c'.destIndex == c.destIndex && c'.srcIndex == c.srcIndex ==> c'.bytesRead > c.bytesRead
  {
    CursorStep(slices, c, total, dests);
    var srcSize, destSize := slices.At(c.srcIndex).DataSize(), dests[c.destIndex].len;
    var copied := Copied(c, total, srcSize, destSize);
    c' := Advance(c, copied, srcSize, destSize);
    CopyBetween(slices, dests, c.destIndex, c.destOffset, c.srcIndex, c.srcOffset, copied, before,
                c.bytesRead, c'.bytesRead);
  }

  method CopyAll(slices: SliceDeque, total: nat, dests: seq<RawSlice>, ghost before: seq<byte>) returns (bytesRead: nat)
    requires slices.Valid() && Destinations(slices, dests) && total <= |slices.Content()|
    requires |before| == TotalLength(dests)
    requires CursorValid(slices, Cursor(0, 0, 0, 0, 0), total, dests) && Filled(slices, dests, before, 0)
    modifies Mems(dests)
    ensures bytesRead == Min(total, TotalLength(dests)) && Filled(slices, dests, before, bytesRead)
  {
    var c := Cursor(0, 0, 0, 0, 0);
    while c.destIndex < |dests| && c.bytesRead < total
      invariant slices.Valid() && CursorValid(slices, c, total, dests) && Filled(slices, dests, before, c.bytesRead)
      decreases |dests| - c.destIndex + slices.size - c.srcIndex, total - c.bytesRead
    {
      assert dests[c.destIndex].mem in Mems(dests);
      c := CopyStep(slices, c, total, dests, before);
    }
    assert dests[..|dests|] == dests;
    bytesRead := c.bytesRead;
  }
}
