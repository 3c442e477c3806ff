/** What a list of slices stands for: its bytes, its trackers and its charges. */
module Holdings {
  import opened Bytes
  import opened Resources
  import opened SliceModule

  ghost predicate AllValid(ss: seq<SliceState>) {
    forall i | 0 <= i < |ss| :: ss[i].Valid()
  }

  /** The contents of the slices, one chunk a slice. */
  ghost function Chunks(ss: seq<SliceState>): (chunks: seq<seq<byte>>)
    requires AllValid(ss)
    ensures |chunks| == |ss| && forall i | 0 <= i < |ss| :: chunks[i] == ss[i].Content()
  {
    seq(|ss|, i requires 0 <= i < |ss| => ss[i].Content())
  }

  ghost function ContentOf(ss: seq<SliceState>): seq<byte>
    requires AllValid(ss)
  {
    Flatten(Chunks(ss))
  }

  lemma ContentConcat(s: seq<SliceState>, t: seq<SliceState>)
    requires AllValid(s) && AllValid(t)
    ensures AllValid(s + t) && ContentOf(s + t) == ContentOf(s) + ContentOf(t)
  {
    assert Chunks(s + t) == Chunks(s) + Chunks(t);
    FlattenConcat(Chunks(s), Chunks(t));
  }

  lemma ContentOne(s: SliceState)
    requires s.Valid()
    ensures AllValid([s]) && ContentOf([s]) == s.Content()
  {
    assert Chunks([s]) == [s.Content()];
    assert Flatten([s.Content()]) == s.Content() + Flatten([]);
  }

  lemma ContentSnoc(ss: seq<SliceState>, s: SliceState)
    requires AllValid(ss) && s.Valid()
    ensures AllValid(ss + [s]) && ContentOf(ss + [s]) == ContentOf(ss) + s.Content()
  {
    ContentConcat(ss, [s]);
    ContentOne(s);
  }

  lemma ContentCons(s: SliceState, ss: seq<SliceState>)
    requires AllValid(ss) && s.Valid()
    ensures AllValid([s] + ss) && ContentOf([s] + ss) == s.Content() + ContentOf(ss)
  {
    ContentConcat([s], ss);
    ContentOne(s);
  }

  lemma ContentSplit(ss: seq<SliceState>, i: nat)
    requires AllValid(ss) && i <= |ss|
    ensures AllValid(ss[..i]) && AllValid(ss[i..]) && ContentOf(ss) == ContentOf(ss[..i]) + ContentOf(ss[i..])
  {
    ContentConcat(ss[..i], ss[i..]);
    assert ss == ss[..i] + ss[i..];
  }

  /** Where the bytes of slice `i` lie in the whole content. */
  lemma ContentAt(ss: seq<SliceState>, i: nat)
    requires AllValid(ss) && i < |ss|
    ensures AllValid(ss[..i]) && AllValid(ss[..i + 1])
    ensures ContentOf(ss[..i + 1]) == ContentOf(ss[..i]) + ss[i].Content()
    ensures ContentOf(ss[..i + 1]) <= ContentOf(ss)
  {
    assert ss[..i + 1] == ss[..i] + [ss[i]];
    ContentSplit(ss, i);
    ContentSplit(ss, i + 1);
    ContentSnoc(ss[..i], ss[i]);
  }

  /** A piece of slice `i` as a piece of the whole content. */
  lemma ContentPiece(ss: seq<SliceState>, i: nat, from: nat, n: nat)
    requires AllValid(ss) && i < |ss| && from + n <= ss[i].DataSize()
    ensures AllValid(ss[..i])
    ensures var at := |ContentOf(ss[..i])| + from;
            at + n <= |ContentOf(ss)| && ss[i].Content()[from..from + n] == ContentOf(ss)[at..at + n]
  {
    ContentAt(ss, i);
    var p, c, all := ContentOf(ss[..i]), ss[i].Content(), ContentOf(ss);
    assert all[..|p + c|] == p + c;
    assert all[|p| + from..|p| + from + n] == (p + c)[|p| + from..|p| + from + n];
  }

  /** Byte `k` of slice `i` as a byte of the whole content. */
  lemma ContentByte(ss: seq<SliceState>, i: nat, k: nat)
    requires AllValid(ss) && i < |ss| && k < ss[i].DataSize()
    ensures AllValid(ss[..i]) && |ContentOf(ss[..i])| + k < |ContentOf(ss)|
    ensures ss[i].Content()[k] == ContentOf(ss)[|ContentOf(ss[..i])| + k]
  {
    ContentPiece(ss, i, k, 1);
    var at := |ContentOf(ss[..i])| + k;
    assert ss[i].Content()[k..k + 1][0] == ContentOf(ss)[at..at + 1][0];
  }

  ghost function TrackersOf(ss: seq<SliceState>): multiset<Tracker> {
    if ss == [] then multiset{} else multiset(ss[0].trackers) + TrackersOf(ss[1..])
  }

  ghost function BoundOf(ss: seq<SliceState>, a: Account): nat {
    if ss == [] then 0 else ss[0].BoundTo(a) + BoundOf(ss[1..], a)
  }

  lemma {:induction false} TrackersConcat(s: seq<SliceState>, t: seq<SliceState>)
    ensures TrackersOf(s + t) == TrackersOf(s) + TrackersOf(t)
  {
    if s == [] {
      assert s + t == t;
    } else {
      assert (s + t)[1..] == s[1..] + t;
      TrackersConcat(s[1..], t);
    }
  }

  lemma {:induction false} BoundConcat(s: seq<SliceState>, t: seq<SliceState>, a: Account)
    ensures BoundOf(s + t, a) == BoundOf(s, a) + BoundOf(t, a)
  {
    if s == [] {
      assert s + t == t;
    } else {
      assert (s + t)[1..] == s[1..] + t;
      BoundConcat(s[1..], t, a);
    }
  }

  lemma HoldingsOne(s: SliceState)
    ensures TrackersOf([s]) == multiset(s.trackers)
    ensures forall a :: BoundOf([s], a) == s.BoundTo(a)
  {
    assert [s][1..] == [];
  }

  lemma HoldingsConcat(s: seq<SliceState>, t: seq<SliceState>)
    ensures TrackersOf(s + t) == TrackersOf(s) + TrackersOf(t)
    ensures forall a :: BoundOf(s + t, a) == BoundOf(s, a) + BoundOf(t, a)
  {
    TrackersConcat(s, t);
    forall a ensures BoundOf(s + t, a) == BoundOf(s, a) + BoundOf(t, a) {
      BoundConcat(s, t, a);
    }
  }

  lemma HoldingsSnoc(ss: seq<SliceState>, s: SliceState)
    ensures TrackersOf(ss + [s]) == TrackersOf(ss) + multiset(s.trackers)
    ensures forall a :: BoundOf(ss + [s], a) == BoundOf(ss, a) + s.BoundTo(a)
  {
    HoldingsConcat(ss, [s]);
    HoldingsOne(s);
  }

  lemma HoldingsCons(s: SliceState, ss: seq<SliceState>)
    ensures TrackersOf([s] + ss) == TrackersOf(ss) + multiset(s.trackers)
    ensures forall a :: BoundOf([s] + ss, a) == BoundOf(ss, a) + s.BoundTo(a)
  {
    HoldingsConcat([s], ss);
    HoldingsOne(s);
  }

  /** Slice `i` changed, but not what it holds. */
  lemma {:induction false} HoldingsSame(ss: seq<SliceState>, i: nat, s: SliceState)
    requires i < |ss| && s.trackers == ss[i].trackers && s.account == ss[i].account && |s.memory| == |ss[i].memory|
    ensures TrackersOf(ss[i := s]) == TrackersOf(ss)
    ensures forall a :: BoundOf(ss[i := s], a) == BoundOf(ss, a)
  {
    if i == 0 {
      assert ss[i := s][1..] == ss[1..];
    } else {
      assert ss[i := s][1..] == ss[1..][i - 1 := s];
      HoldingsSame(ss[1..], i - 1, s);
    }
  }

  ghost predicate SameHoldings(s: SliceState, t: SliceState) {
    s.trackers == t.trackers && s.account == t.account && |s.memory| == |t.memory|
  }

  /** The first slice was changed in place, but not what it holds. */
  lemma ReplaceFirst(s: SliceState, t: SliceState, rest: seq<SliceState>)
    requires s.Valid() && t.Valid() && AllValid(rest) && SameHoldings(s, t)
    ensures AllValid([s] + rest) && AllValid([t] + rest)
    ensures ContentOf([s] + rest) == s.Content() + ContentOf(rest) &&
            ContentOf([t] + rest) == t.Content() + ContentOf(rest)
    ensures TrackersOf([t] + rest) == TrackersOf([s] + rest) &&
            forall a :: BoundOf([t] + rest, a) == BoundOf([s] + rest, a)
  {
    ContentCons(s, rest);
    ContentCons(t, rest);
    assert ([s] + rest)[0 := t] == [t] + rest;
    HoldingsSame([s] + rest, 0, t);
  }

  /** The last slice was changed in place, but not what it holds. */
  lemma ReplaceLast(front: seq<SliceState>, s: SliceState, t: SliceState)
    requires s.Valid() && t.Valid() && AllValid(front) && SameHoldings(s, t)
    ensures AllValid(front + [s]) && AllValid(front + [t])
    ensures ContentOf(front + [s]) == ContentOf(front) + s.Content() &&
            ContentOf(front + [t]) == ContentOf(front) + t.Content()
    ensures TrackersOf(front + [t]) == TrackersOf(front + [s]) &&
            forall a :: BoundOf(front + [t], a) == BoundOf(front + [s], a)
  {
    ContentSnoc(front, s);
    ContentSnoc(front, t);
    assert (front + [s])[|front| := t] == front + [t];
    HoldingsSame(front + [s], |front|, t);
  }

  /** Free space of the last slice was committed. */
  lemma CommitLast(front: seq<SliceState>, s: SliceState, n: nat, t: SliceState)
    requires s.Valid() && AllValid(front) && s.reservable + n <= |s.memory|
    requires t == s.(reservable := s.reservable + n)
    ensures AllValid(front + [s]) && AllValid(front + [t])
    ensures ContentOf(front + [t]) == ContentOf(front + [s]) + s.memory[s.reservable..s.reservable + n]
    ensures |ContentOf(front + [t])| == |ContentOf(front + [s])| + n
    ensures TrackersOf(front + [t]) == TrackersOf(front + [s]) &&
            forall a :: BoundOf(front + [t], a) == BoundOf(front + [s], a)
  {
    s.CommittedContent(n);
    ReplaceLast(front, s, t);
    Associative(ContentOf(front), s.Content(), s.memory[s.reservable..s.reservable + n]);
  }

  /** What is left of the slices when `size` bytes are drained and empty slices in front dropped. */
  ghost function Drained(ss: seq<SliceState>, size: nat): seq<SliceState>
    requires AllValid(ss)
  {
    if ss == [] then []
    else if ss[0].DataSize() <= size then Drained(ss[1..], size - ss[0].DataSize())
    else [ss[0].Drained(size)] + ss[1..]
  }

  /** The trackers of the slices that this destroys, in order. */
  ghost function DrainedTrackers(ss: seq<SliceState>, size: nat): seq<Tracker>
    requires AllValid(ss)
  {
    if ss == [] || ss[0].DataSize() > size then []
    else ss[0].trackers + DrainedTrackers(ss[1..], size - ss[0].DataSize())
  }

  lemma Regroup(a: multiset<Tracker>, b: multiset<Tracker>, c: multiset<Tracker>)
    ensures a + b + c == a + c + b && a + b + c == a + (b + c)
  {
  }
}
