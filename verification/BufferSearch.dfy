/** Searching a ring of slices for a needle that may lie across slices. */
module BufferSearch {
  import opened Bytes
  import opened SliceDequeModule
  import opened Holdings

  /** The first `i` bytes of the needle match from byte `p` on, up to byte `next` of slice `k`. */
  ghost predicate Matching(slices: SliceDeque, needle: seq<byte>, p: nat, i: nat, k: nat, next: nat)
    requires AllValid(slices.states)
    reads slices
  {
    && k < |slices.states| && next <= slices.states[k].DataSize()
    && i <= |needle| && p + i == slices.Before(k) + next <= |slices.Content()|
    && slices.Content()[p..p + i] == needle[..i]
  }

  lemma MatchByte(slices: SliceDeque, needle: seq<byte>, p: nat, i: nat, k: nat, next: nat)
    requires AllValid(slices.states) && Matching(slices, needle, p, i, k, next)
    requires i < |needle| && next < slices.states[k].DataSize()
    ensures p + i < |slices.Content()| && slices.Content()[p + i] == slices.states[k].Content()[next]
    ensures slices.Content()[p + i] == needle[i] ==> Matching(slices, needle, p, i + 1, k, next + 1)
  {
    ContentByte(slices.states, k, next);
    assert slices.Content()[p..p + i + 1] == slices.Content()[p..p + i] + [slices.Content()[p + i]];
    assert needle[..i + 1] == needle[..i] + [needle[i]];
  }

  lemma MatchSlice(slices: SliceDeque, needle: seq<byte>, p: nat, i: nat, k: nat, next: nat)
    requires AllValid(slices.states) && Matching(slices, needle, p, i, k, next) && next == slices.states[k].DataSize()
    ensures if k + 1 < |slices.states| then Matching(slices, needle, p, i, k + 1, 0) else p + i == |slices.Content()|
  {
    ContentAt(slices.states, k);
    assert slices.states[..|slices.states|] == slices.states;
  }

  /** A comparison that cannot go on has found the needle if it got to the needle's end. */
  lemma MatchEnds(content: seq<byte>, needle: seq<byte>, p: nat, i: nat, end: nat)
    requires i <= |needle| && p + i <= |content| && p + i <= end && content[p..p + i] == needle[..i]
    requires i == |needle| || p + i == |content| || p + i == end || content[p + i] != needle[i]
    ensures i == |needle| <==> OccursAt(content, needle, p, end)
  {
    if i < |needle| && p + |needle| <= |content| {
      assert content[p..p + |needle|][i] == content[p + i];
    }
  }

  /** Compares one byte, or goes on to the next slice; stops where the needle cannot stand at `p`. */
  method MatchStep(slices: SliceDeque, needle: seq<byte>, i: nat, matchIndex: nat, matchNext: nat,
                   ghost p: nat, ghost end: nat)
      returns (stop: bool, i': nat, index: nat, next: nat)
    requires slices.Valid() && i < |needle| && p + i < end && Matching(slices, needle, p, i, matchIndex, matchNext)
    ensures i <= i' <= |needle| && index >= matchIndex
    ensures if stop then i' == i && !OccursAt(slices.Content(), needle, p, end)
            else Matching(slices, needle, p, i', index, next)
    ensures i' == i && !stop ==> index > matchIndex
    ensures i' > i ==> i' == i + 1
  {
    stop, i', index, next := false, i, matchIndex, matchNext;
    var bytes := slices.At(matchIndex).Content();
    if matchNext >= |bytes| {
      MatchSlice(slices, needle, p, i, matchIndex, matchNext);
      index, next, stop := matchIndex + 1, 0, matchIndex + 1 == slices.size;
    } else {
      MatchByte(slices, needle, p, i, matchIndex, matchNext);
      if bytes[matchNext] != needle[i] {
        stop := true;
      } else {
        i', next := i + 1, matchNext + 1;
      }
    }
    if stop {
      MatchEnds(slices.Content(), needle, p, i, end);
    }
  }

  /**
   * Compares the needle, whose first byte stands at byte `first` of slice `sliceIndex`, with the
   * content, across slices, using at most `left` more bytes; returns the length of the match.
   */
  method MatchRest(slices: SliceDeque, needle: seq<byte>, sliceIndex: nat, first: nat, left0: nat) returns (i: nat)
    requires slices.Valid() && needle != [] && sliceIndex < slices.size && first < slices.states[sliceIndex].DataSize()
    requires slices.states[sliceIndex].Content()[first] == needle[0]
    ensures var p := slices.Before(sliceIndex) + first;
            (i == |needle|) <==> OccursAt(slices.Content(), needle, p, p + 1 + left0)
  {
    ghost var p, end := slices.Before(sliceIndex) + first, slices.Before(sliceIndex) + first + 1 + left0;
    ContentByte(slices.states, sliceIndex, first);
    MatchByte(slices, needle, p, 0, sliceIndex, first);
    var left: nat, matchIndex: nat, matchNext: nat := left0, sliceIndex, first + 1;
    i := 1;
    while i < |needle| && 0 < left
      invariant 1 <= i <= |needle| && left + i == left0 + 1
      invariant Matching(slices, needle, p, i, matchIndex, matchNext)
      decreases |needle| - i, slices.size - matchIndex
    {
      var stop, i', index, next := MatchStep(slices, needle, i, matchIndex, matchNext, p, end);
      if stop {
        return;
      }
      left, i, matchIndex, matchNext := left - (i' - i), i', index, next;
    }
    MatchEnds(slices.Content(), needle, p, i, end);
  }

  /** No occurrence of the needle starts in `[from, to)`. */
  ghost predicate Absent(content: seq<byte>, needle: seq<byte>, from: nat, to: nat, end: nat) {
    forall p | from <= p < to :: !OccursAt(content, needle, p, end)
  }

  lemma AbsentJoin(content: seq<byte>, needle: seq<byte>, from: nat, mid: nat, to: nat, end: nat)
    requires Absent(content, needle, from, mid, end) && Absent(content, needle, mid, to, end)
    ensures Absent(content, needle, from, to, end)
  {
  }

  /** No match starts where the bytes that may be looked at have run out. */
  lemma AbsentToEnd(content: seq<byte>, needle: seq<byte>, from: nat, mid: nat, limit: nat, to: nat, end: nat)
    requires needle != [] && (mid + limit >= to || mid + limit == end)
    requires Absent(content, needle, from, mid, end) && Absent(content, needle, mid, mid + limit, end)
    ensures Absent(content, needle, from, to, end)
  {
  }

  /** Where the first byte of the needle does not stand, no match starts. */
  lemma FirstByteAbsent(slices: SliceDeque, needle: seq<byte>, i: nat, from: nat, n: nat, end: nat)
    requires slices.Valid() && needle != [] && i < slices.size && from + n <= slices.states[i].DataSize()
    requires needle[0] !in slices.states[i].Content()[from..from + n]
    ensures Absent(slices.Content(), needle, slices.Before(i) + from, slices.Before(i) + from + n, end)
  {
    forall p | slices.Before(i) + from <= p < slices.Before(i) + from + n
      ensures !OccursAt(slices.Content(), needle, p, end)
    {
      ContentByte(slices.states, i, p - slices.Before(i));
      assert slices.states[i].Content()[from..from + n][p - slices.Before(i) - from] != needle[0];
      assert p + |needle| <= |slices.Content()| ==> slices.Content()[p..p + |needle|][0] != needle[0];
    }
  }

  /** The next place where the first byte of the needle stands, and whether the rest follows. */
  method NextCandidate(slices: SliceDeque, needle: seq<byte>, sliceIndex: nat, haystack: nat, limit: nat, left: nat)
      returns (first: Option<nat>, whole: bool)
    requires slices.Valid() && needle != [] && sliceIndex < slices.size
    requires haystack + limit <= slices.states[sliceIndex].DataSize() && limit <= left
    ensures var b, end := slices.Before(sliceIndex) + haystack, slices.Before(sliceIndex) + haystack + left;
            match first {
              case None => Absent(slices.Content(), needle, b, b + limit, end)
              case Some(at) =>
                && haystack <= at < haystack + limit
                && Absent(slices.Content(), needle, b, slices.Before(sliceIndex) + at, end)
                && if whole then OccursAt(slices.Content(), needle, slices.Before(sliceIndex) + at, end)
                   else Absent(slices.Content(), needle, b, slices.Before(sliceIndex) + at + 1, end)
            }
  {
    ghost var end := slices.Before(sliceIndex) + haystack + left;
    var bytes := slices.At(sliceIndex).Content();
    first := FindByte(bytes, haystack, limit, needle[0]);
    whole := false;
    if first.None? {
      FirstByteAbsent(slices, needle, sliceIndex, haystack, limit, end);
    } else {
      FirstByteAbsent(slices, needle, sliceIndex, haystack, first.value - haystack, end);
      var i := MatchRest(slices, needle, sliceIndex, first.value, left - (first.value + 1 - haystack));
      whole := i == |needle|;
    }
  }

  /**
   * Looks for a match that starts at byte `from` or later of slice `sliceIndex`; `left` counts
   * the bytes that may still be looked at. Says where a match starts within the slice.
   */
  method SearchSlice(slices: SliceDeque, needle: seq<byte>, sliceIndex: nat, from: nat, left0: nat)
      returns (found: Option<nat>, left: nat)
    requires slices.Valid() && needle != [] && sliceIndex < slices.size && from < slices.states[sliceIndex].DataSize()
    ensures var s, b := slices.states[sliceIndex].DataSize(), slices.Before(sliceIndex);
            var end := b + from + left0;
            match found {
              case Some(at) => from <= at < s && Absent(slices.Content(), needle, b + from, b + at, end) &&
                OccursAt(slices.Content(), needle, b + at, end)
              case None => Absent(slices.Content(), needle, b + from, b + s, end) &&
                left == (if left0 > s - from then left0 - (s - from) else 0)
            }
  {
    ghost var content, b, end := slices.Content(), slices.Before(sliceIndex), slices.Before(sliceIndex) + from + left0;
    var size := slices.At(sliceIndex).DataSize();
    var haystack: nat := from;
    left := left0;
    while haystack < size
      invariant from <= haystack <= size == slices.states[sliceIndex].DataSize()
      invariant haystack + left == from + left0
      invariant Absent(content, needle, b + from, b + haystack, end)
    {
      var limit := Min(size - haystack, left);
      var first, whole := NextCandidate(slices, needle, sliceIndex, haystack, limit, left);
      if first.None? {
        AbsentToEnd(content, needle, b + from, b + haystack, limit, b + size, end);
        left := left - limit;
        return None, left;
      }
      left := left - (first.value + 1 - haystack);
      AbsentJoin(content, needle, b + from, b + haystack, b + first.value, end);
      if whole {
        return first, left;
      }
      AbsentJoin(content, needle, b + from, b + haystack, b + first.value + 1, end);
      haystack := first.value + 1;
    }
    found := None;
  }

  /** Where a search must stop: the end of the content when no `length` is given. */
  ghost function SearchEnd(content: seq<byte>, start: nat, length: nat): nat {
    if length == 0 then |content| else start + length
  }

  /** `r` is the first position from `start` on where the needle stands before `end`, or -1. */
  ghost predicate FirstOccurrence(content: seq<byte>, needle: seq<byte>, start: nat, end: nat, r: int) {
    if r < 0 then r == -1 && forall p | p >= start :: !OccursAt(content, needle, p, end)
    else start <= r && OccursAt(content, needle, r, end) && Absent(content, needle, start, r, end)
  }

  lemma NoneFound(content: seq<byte>, needle: seq<byte>, start: nat, at: nat, end: nat)
    requires needle != [] && Absent(content, needle, start, at, end) && (at >= end || at >= |content|)
    ensures forall p | p >= start :: !OccursAt(content, needle, p, end)
  {
  }

  /** One step of the loop of `Search`: skips slice `i`, or looks for a match that starts there. The
      search is at byte `at`, `rest0` behind the beginning of the slice. */
  method SearchNext(slices: SliceDeque, needle: seq<byte>, i: nat, rest0: nat, left0: nat,
                    ghost start: nat, ghost at: nat)
      returns (found: Option<nat>, rest: nat, left: nat, ghost at': nat)
    requires slices.Valid() && needle != [] && i < slices.size && at == slices.Before(i) + rest0 >= start && left0 > 0
    requires (rest0 > 0 ==> at == start) && Absent(slices.Content(), needle, start, at, at + left0)
    ensures var end, next := at + left0, slices.Before(i) + slices.states[i].DataSize();
            match found {
              case Some(k) => start <= slices.Before(i) + k &&
                Absent(slices.Content(), needle, start, slices.Before(i) + k, end) &&
                OccursAt(slices.Content(), needle, slices.Before(i) + k, end)
              case None => at' == next + rest >= start && (rest > 0 ==> at' == start) &&
                left == (if at' <= end then end - at' else 0) && Absent(slices.Content(), needle, start, at', end)
            }
  {
    ghost var content, end, b := slices.Content(), at + left0, slices.Before(i);
    found, rest, left, at' := None, rest0, left0, at;
    var sliceSize := slices.At(i).DataSize();
    if sliceSize <= rest {
      rest := rest - sliceSize;
    } else {
      found, left := SearchSlice(slices, needle, i, rest, left);
      rest, at' := 0, b + sliceSize;
      AbsentJoin(content, needle, start, at, if found.Some? then b + found.value else at', end);
    }
  }

  /** The loop of `Search` over the slices; `left0` bytes from `start` on may be looked at. */
  method SearchAll(slices: SliceDeque, needle: seq<byte>, start: nat, left0: nat) returns (r: int)
    requires slices.Valid() && needle != []
    ensures FirstOccurrence(slices.Content(), needle, start, start + left0, r)
  {
    ghost var content, end, at := slices.Content(), start + left0, start;
    var left: nat, rest: nat, offset: nat, sliceIndex: nat := left0, start, 0, 0;
    while sliceIndex < slices.size && left > 0
      invariant sliceIndex <= slices.size && offset == slices.Before(sliceIndex)
      invariant at == offset + rest >= start && (rest > 0 ==> at == start)
      invariant left == if at <= end then end - at else 0
      invariant Absent(content, needle, start, at, end)
    {
      ContentAt(slices.states, sliceIndex);
      var found;
      found, rest, left, at := SearchNext(slices, needle, sliceIndex, rest, left, start, at);
      if found.Some? {
        return offset + found.value;
      }
      offset := offset + slices.At(sliceIndex).DataSize();
      sliceIndex := sliceIndex + 1;
    }
    assert slices.states[..slices.size] == slices.states;
    NoneFound(content, needle, start, at, end);
    r := -1;
  }

  /** What comparing one more slice says about the whole, of which a prefix is known to agree. */
  lemma PrefixStep(data: seq<byte>, content: seq<byte>, done: nat, bytes: seq<byte>, next: nat)
    requires done < |data| <= |content| && next == done + |bytes| <= |content|
    requires content[..next] == data[..done] + bytes
    ensures next >= |data| ==> (data <= content <==> data[done..] == bytes[..|data| - done])
    ensures next < |data| ==> (data[..next] == content[..next] <==> data[done..next] == bytes)
    ensures next < |data| && data[done..next] != bytes ==> !(data <= content)
  {
    assert content[..next][..done] == data[..done] && content[..next][done..] == bytes;
    if next >= |data| {
      assert content[..|data|] == data[..done] + bytes[..|data| - done];
      assert data == data[..done] + data[done..];
    } else {
      assert data[..next] == data[..done] + data[done..next];
      assert content[..|data|][..next] == content[..next];
    }
  }
}
