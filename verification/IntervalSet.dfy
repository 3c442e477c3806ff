/** Sets of numeric intervals kept in an ordered set whose comparator calls overlapping and abutting
    intervals equivalent, and the removal of the characters that such a set covers. */
module IntervalSetModule {
  import opened Bytes

  /** The half-open interval from `left` up to `right`. */
  datatype Interval = Interval(left: int, right: int)

  /** The comparator of the ordered set. */
  predicate Before(a: Interval, b: Interval) {
    a.right < b.left
  }

  /** Non-empty intervals, in order, no two of which overlap or abut. */
  predicate Separate(s: seq<Interval>) {
    (forall i :: 0 <= i < |s| ==> s[i].left < s[i].right) &&
    forall i, j :: 0 <= i < j < |s| ==> Before(s[i], s[j])
  }

  predicate Contains(x: Interval, v: int) {
    x.left <= v < x.right
  }

  predicate Covers(s: seq<Interval>, v: int) {
    exists i :: 0 <= i < |s| && Contains(s[i], v)
  }

  /** The position of the first element that is not before x. */
  function LowerBound(s: seq<Interval>, x: Interval): (k: nat)
    ensures k <= |s|
    ensures forall i :: 0 <= i < k ==> Before(s[i], x)
    ensures k < |s| ==> !Before(s[k], x)
  {
    if s == [] || !Before(s[0], x) then 0 else 1 + LowerBound(s[1..], x)
  }

  /** The position of the first element that x is before. */
  function UpperBound(s: seq<Interval>, x: Interval): (k: nat)
    ensures k <= |s|
    ensures forall i :: 0 <= i < k ==> !Before(x, s[i])
    ensures k < |s| ==> Before(x, s[k])
  {
    if s == [] || Before(x, s[0]) then 0 else 1 + UpperBound(s[1..], x)
  }

  /** Replacing the elements from a up to b by x, which lies strictly between its neighbours. */
  lemma SpliceIsSeparate(s: seq<Interval>, a: nat, b: nat, x: Interval)
    requires Separate(s) && a <= b <= |s| && x.left < x.right
    requires a > 0 ==> Before(s[a - 1], x)
    requires b < |s| ==> Before(x, s[b])
    ensures Separate(s[..a] + [x] + s[b..])
  {
    var t := s[..a] + [x] + s[b..];
    forall i, j | 0 <= i < j < |t| ensures Before(t[i], t[j]) {
      if j == a {
        assert i == a - 1 || Before(s[i], s[a - 1]);
      } else if i == a {
        assert t[j] == s[j - a - 1 + b];
        assert j == a + 1 || Before(s[b], s[j - a - 1 + b]);
      } else {
        var k := if i < a then i else i - a - 1 + b;
        var l := if j < a then j else j - a - 1 + b;
        assert t[i] == s[k] && t[j] == s[l];
      }
    }
  }

  /** The range joined with the intervals from a up to b, which it meets. */
  function Hull(s: seq<Interval>, a: nat, b: nat, left: int, right: int): Interval
    requires a <= b <= |s|
  {
    if a == b then Interval(left, right)
    else Interval(if s[a].left < left then s[a].left else left,
                  if s[b - 1].right > right then s[b - 1].right else right)
  }

  predicate Meets(s: seq<Interval>, a: nat, b: nat, left: int, right: int) {
    a <= b <= |s| && left < right &&
    (a < b ==> left <= s[a].right && s[b - 1].left <= right)
  }

  lemma HullCovers(s: seq<Interval>, a: nat, b: nat, left: int, right: int, v: int)
    requires Separate(s) && Meets(s, a, b, left, right)
    requires Covers(s, v) || left <= v < right
    ensures Covers(s[..a] + [Hull(s, a, b, left, right)] + s[b..], v)
  {
    var t := s[..a] + [Hull(s, a, b, left, right)] + s[b..];
    if left <= v < right {
      assert Contains(t[a], v);
    } else {
      var i :| 0 <= i < |s| && Contains(s[i], v);
      if i < a {
        assert Contains(t[i], v);
      } else if i < b {
        assert i == a || Before(s[a], s[i]);
        assert i == b - 1 || Before(s[i], s[b - 1]);
        assert Contains(t[a], v);
      } else {
        assert Contains(t[i - b + a + 1], v);
      }
    }
  }

  lemma HullCoversNoMore(s: seq<Interval>, a: nat, b: nat, left: int, right: int, v: int)
    requires Separate(s) && Meets(s, a, b, left, right)
    requires Covers(s[..a] + [Hull(s, a, b, left, right)] + s[b..], v)
    ensures Covers(s, v) || left <= v < right
  {
    var t := s[..a] + [Hull(s, a, b, left, right)] + s[b..];
    var i :| 0 <= i < |t| && Contains(t[i], v);
    if i < a {
      assert Contains(s[i], v);
    } else if i > a {
      assert Contains(s[i - a - 1 + b], v);
    } else if a < b && !(left <= v < right) {
      assert Contains(s[a], v) || Contains(s[b - 1], v);
    }
  }

  /** The two searches meet the intervals that touch the range, and only those. */
  lemma Bounds(s: seq<Interval>, left: int, right: int)
    requires Separate(s) && left < right
    ensures var a := LowerBound(s, Interval(left, left));
            var b := UpperBound(s, Interval(right, right));
            a <= b && (a < b <==> a < |s| && right >= s[a].left) &&
            (a < b ==> s[b - 1].right >= left && s[b - 1].left <= right)
  {
    var a := LowerBound(s, Interval(left, left));
    var b := UpperBound(s, Interval(right, right));
    if a < |s| && right >= s[a].left {
      forall i | 0 <= i <= a ensures s[i].left <= right {
        assert i == a || Before(s[i], s[a]);
      }
      assert a == b - 1 || Before(s[a], s[b - 1]);
    } else {
      forall i | 0 <= i < a ensures s[i].left <= right {
        assert Before(s[i], Interval(left, left));
      }
    }
  }

  lemma LowerBoundAt(s: seq<Interval>, x: Interval, k: nat)
    requires k <= |s|
    requires forall i :: 0 <= i < k ==> Before(s[i], x)
    requires k < |s| ==> !Before(s[k], x)
    ensures LowerBound(s, x) == k
  {
  }

  /** An ordered set does not insert an element that is equivalent to one it has. */
  function WithElement(s: seq<Interval>, x: Interval): seq<Interval> {
    var k := LowerBound(s, x);
    if k < |s| && !Before(x, s[k]) then s else s[..k] + [x] + s[k..]
  }

  /** What an insertion makes of the set: the intervals that meet the range give way to the hull. */
  ghost function Joined(s: seq<Interval>, left: int, right: int): (t: seq<Interval>)
    requires Separate(s) && left < right
    ensures Separate(t)
    ensures var a := LowerBound(s, Interval(left, left));
            var b := UpperBound(s, Interval(right, right));
            a <= b && t == WithElement(s[..a] + s[b..], Hull(s, a, b, left, right))
  {
    var a := LowerBound(s, Interval(left, left));
    var b := UpperBound(s, Interval(right, right));
    Bounds(s, left, right);
    var x := Hull(s, a, b, left, right);
    assert a < b && b < |s| ==> Before(s[b - 1], s[b]);
    assert 0 < a < b ==> Before(s[a - 1], s[a]);
    LowerBoundAt(s[..a] + s[b..], x, a);
    SpliceIsSeparate(s, a, b, x);
    assert (s[..a] + s[b..])[..a] == s[..a] && (s[..a] + s[b..])[a..] == s[b..];
    s[..a] + [x] + s[b..]
  }

  lemma JoinedCovers(s: seq<Interval>, left: int, right: int, v: int)
    requires Separate(s) && left < right
    ensures Covers(Joined(s, left, right), v) <==> Covers(s, v) || left <= v < right
  {
    var a := LowerBound(s, Interval(left, left));
    var b := UpperBound(s, Interval(right, right));
    Bounds(s, left, right);
    if Covers(s, v) || left <= v < right {
      HullCovers(s, a, b, left, right, v);
    }
    if Covers(Joined(s, left, right), v) {
      HullCoversNoMore(s, a, b, left, right, v);
    }
  }

  lemma JoinedUnion(s: seq<Interval>, left: int, right: int)
    requires Separate(s) && left < right
    ensures forall v :: Covers(Joined(s, left, right), v) <==> Covers(s, v) || left <= v < right
  {
    forall v ensures Covers(Joined(s, left, right), v) <==> Covers(s, v) || left <= v < right {
      JoinedCovers(s, left, right, v);
    }
  }

  lemma CoversSnoc(s: seq<Interval>, n: nat)
    requires n < |s|
    ensures forall v :: Covers(s[..n + 1], v) <==> Covers(s[..n], v) || Contains(s[n], v)
  {
    forall v ensures Covers(s[..n + 1], v) <==> Covers(s[..n], v) || Contains(s[n], v) {
      if Covers(s[..n], v) {
        var i :| 0 <= i < n && Contains(s[..n][i], v);
        assert Contains(s[..n + 1][i], v);
      }
      if Contains(s[n], v) {
        assert Contains(s[..n + 1][n], v);
      }
      if Covers(s[..n + 1], v) {
        var i :| 0 <= i < n + 1 && Contains(s[..n + 1][i], v);
        if i < n {
          assert Contains(s[..n][i], v);
        }
      }
    }
  }

  class IntervalSet {
    var intervals: seq<Interval>

    ghost predicate Valid()
      reads this
    {
      Separate(intervals)
    }

    constructor ()
      ensures Valid() && intervals == []
    {
      intervals := [];
    }

    method InsertElement(x: Interval)
      modifies this
      ensures intervals == WithElement(old(intervals), x)
    {
      var k := LowerBound(intervals, x);
      if k == |intervals| || Before(x, intervals[k]) {
        intervals := intervals[..k] + [x] + intervals[k..];
      }
    }

    method InsertNonEmpty(left: int, right: int)
      requires Valid() && left < right
      modifies this
      ensures intervals == Joined(old(intervals), left, right)
    {
      var l, r := left, right;
      Bounds(intervals, left, right);
      ghost var s := intervals;
      ghost var a := LowerBound(s, Interval(left, left));
      ghost var b := UpperBound(s, Interval(right, right));
      if intervals != [] {
        var leftPos := LowerBound(intervals, Interval(left, left));
        if leftPos != |intervals| && right >= intervals[leftPos].left {
          var rightPos := UpperBound(intervals, Interval(right, right));
          if rightPos != 0 {
            rightPos := rightPos - 1;
            if intervals[rightPos].right >= left {
              l := if intervals[leftPos].left < left then intervals[leftPos].left else left;
              r := if intervals[rightPos].right > right then intervals[rightPos].right else right;
              rightPos := rightPos + 1;
              intervals := intervals[..leftPos] + intervals[rightPos..];
            }
          }
        }
      }
      assert Interval(l, r) == Hull(s, a, b, left, right);
      assert intervals == s[..a] + s[b..];
      ghost var t := Joined(s, left, right);
      InsertElement(Interval(l, r));
    }

    /** The covered values are those covered before and those of the new interval, and the
        representation stays separate; by `Canonical` that determines it. */
    method Insert(left: int, right: int)
      requires Valid() && left <= right
      modifies this
      ensures Valid()
      ensures forall v :: Covers(intervals, v) <==> Covers(old(intervals), v) || left <= v < right
    {
      if left == right {
        return;
      }
      InsertNonEmpty(left, right);
      JoinedUnion(old(intervals), left, right);
    }

    method Test(value: int) returns (r: bool)
      requires Valid()
      ensures r <==> Covers(intervals, value)
    {
      var leftPos := LowerBound(intervals, Interval(value, value + 1));
      r := leftPos != |intervals| && value >= intervals[leftPos].left && value < intervals[leftPos].right;
    }

    method ToVector() returns (r: seq<Interval>)
      requires Valid()
      ensures r == intervals
    {
      r := intervals;
    }

    method Clear()
      modifies this
      ensures Valid() && forall v :: !Covers(intervals, v)
    {
      intervals := [];
    }

    /** After any sequence of inserts the set covers the union of what was inserted. */
    method InsertAll(ranges: seq<Interval>)
      requires Valid() && forall i :: 0 <= i < |ranges| ==> ranges[i].left <= ranges[i].right
      modifies this
      ensures Valid()
      ensures forall v :: Covers(intervals, v) <==> Covers(old(intervals), v) || Covers(ranges, v)
    {
      var n := 0;
      while n < |ranges|
        invariant 0 <= n <= |ranges| && Valid()
        invariant forall v :: Covers(intervals, v) <==> Covers(old(intervals), v) || Covers(ranges[..n], v)
      {
        Insert(ranges[n].left, ranges[n].right);
        CoversSnoc(ranges, n);
        n := n + 1;
      }
      assert ranges[..n] == ranges;
    }
  }

  // ---------------------------------------------------------------- the representation is canonical

  lemma FirstLeft(a: seq<Interval>, b: seq<Interval>)
    requires Separate(a) && Separate(b) && a != [] && b != []
    requires forall v :: Covers(a, v) ==> Covers(b, v)
    ensures b[0].left <= a[0].left
  {
    assert Contains(a[0], a[0].left);
    assert Covers(a, a[0].left);
    var i :| 0 <= i < |b| && Contains(b[i], a[0].left);
    assert i == 0 || Before(b[0], b[i]);
  }

  lemma FirstRight(a: seq<Interval>, b: seq<Interval>)
    requires Separate(a) && Separate(b) && a != [] && b != [] && a[0].left == b[0].left
    requires forall v :: Covers(a, v) ==> Covers(b, v)
    ensures a[0].right <= b[0].right
  {
    assert |b| > 1 ==> Before(b[0], b[1]);
    NotCovered(b, 1, b[0].right);
    assert !Covers(a, b[0].right);
    assert !Contains(a[0], b[0].right);
  }

  lemma TailCovers(a: seq<Interval>, b: seq<Interval>, v: int)
    requires Separate(a) && Separate(b) && a != [] && b != [] && a[0] == b[0]
    requires Covers(a, v) ==> Covers(b, v)
    requires Covers(a[1..], v)
    ensures Covers(b[1..], v)
  {
    var i :| 0 <= i < |a| - 1 && Contains(a[1..][i], v);
    assert Contains(a[i + 1], v) && Before(a[0], a[i + 1]);
    var j :| 0 <= j < |b| && Contains(b[j], v);
    assert Contains(b[1..][j - 1], v);
  }

  lemma Inhabited(a: seq<Interval>)
    requires Separate(a) && a != []
    ensures Covers(a, a[0].left)
  {
    assert Contains(a[0], a[0].left);
  }

  /** Sets with the same union have the same representation, so what `ToVector` returns does not
      depend on which ranges were inserted, how they were cut up, or in which order. */
  lemma {:induction false} Canonical(a: seq<Interval>, b: seq<Interval>)
    requires Separate(a) && Separate(b)
    requires forall v :: Covers(a, v) <==> Covers(b, v)
    ensures a == b
  {
    if a != [] {
      Inhabited(a);
    }
    if b != [] {
      Inhabited(b);
    }
    if a != [] && b != [] {
      FirstLeft(a, b);
      FirstLeft(b, a);
      FirstRight(a, b);
      FirstRight(b, a);
      forall v ensures Covers(a[1..], v) <==> Covers(b[1..], v) {
        if Covers(a[1..], v) {
          TailCovers(a, b, v);
        }
        if Covers(b[1..], v) {
          TailCovers(b, a, v);
        }
      }
      Canonical(a[1..], b[1..]);
    }
  }

  // ---------------------------------------------------------------- removing characters

  /** The characters before position n that the intervals do not cover, in order. */
  ghost function Kept(str: string, s: seq<Interval>, n: nat): string
    requires n <= |str|
  {
    if n == 0 then "" else Kept(str, s, n - 1) + if Covers(s, n - 1) then "" else [str[n - 1]]
  }

  lemma {:induction false} KeptGap(str: string, s: seq<Interval>, a: nat, b: nat)
    requires a <= b <= |str|
    requires forall v :: a <= v < b ==> !Covers(s, v)
    ensures Kept(str, s, b) == Kept(str, s, a) + str[a..b]
  {
    if a < b {
      KeptGap(str, s, a, b - 1);
      assert str[a..b] == str[a..b - 1] + [str[b - 1]];
    }
  }

  lemma {:induction false} KeptCovered(str: string, s: seq<Interval>, a: nat, b: nat)
    requires a <= b <= |str|
    requires forall v :: a <= v < b ==> Covers(s, v)
    ensures Kept(str, s, b) == Kept(str, s, a)
  {
    if a < b {
      KeptCovered(str, s, a, b - 1);
    }
  }

  /** Between two neighbours, or outside the first and the last, nothing is covered. */
  lemma NotCovered(s: seq<Interval>, k: nat, v: int)
    requires Separate(s) && k <= |s|
    requires k > 0 ==> s[k - 1].right <= v
    requires k < |s| ==> v < s[k].left
    ensures !Covers(s, v)
  {
    forall i | 0 <= i < |s| ensures !Contains(s[i], v) {
      if i < k {
        assert i == k - 1 || Before(s[i], s[k - 1]);
      } else {
        assert i == k || Before(s[k], s[i]);
      }
    }
  }

  /** Passing the k-th interval keeps what lies between it and the one before. */
  lemma KeptStep(str: string, s: seq<Interval>, k: nat, pos: nat)
    requires Separate(s) && k < |s| && pos == if k == 0 then 0 else s[k - 1].right
    requires 0 <= s[k].left && s[k].right <= |str|
    ensures pos <= s[k].left
    ensures Kept(str, s, s[k].right) == Kept(str, s, pos) + str[pos..s[k].left]
  {
    assert k > 0 ==> Before(s[k - 1], s[k]);
    forall v | pos <= v < s[k].left ensures !Covers(s, v) {
      NotCovered(s, k, v);
    }
    forall v | s[k].left <= v < s[k].right ensures Covers(s, v) {
      assert Contains(s[k], v);
    }
    KeptGap(str, s, pos, s[k].left);
    KeptCovered(str, s, s[k].left, s[k].right);
  }

  lemma KeptRest(str: string, s: seq<Interval>, pos: nat)
    requires Separate(s) && pos <= |str| && pos == if s == [] then 0 else s[|s| - 1].right
    ensures Kept(str, s, |str|) == Kept(str, s, pos) + str[pos..]
  {
    forall v | pos <= v < |str| ensures !Covers(s, v) {
      NotCovered(s, |s|, v);
    }
    KeptGap(str, s, pos, |str|);
  }

  /** A view's `substr` throws for a position past the end and clips the count. */
  function Substr(str: string, pos: nat, count: nat): Option<string> {
    if pos > |str| then None else Some(str[pos..Min(|str|, pos + count)])
  }

  lemma LastEnds(s: seq<Interval>, k: nat, size: nat)
    requires Separate(s) && 0 < k <= |s|
    ensures s[k - 1].right > size ==> exists i :: 0 <= i < |s| && s[i].right > size
    ensures k == |s| && s[k - 1].right <= size ==> forall i :: 0 <= i < |s| ==> s[i].right <= size
  {
    forall i | 0 <= i < k ensures s[i].right <= s[k - 1].right {
      assert i == k - 1 || Before(s[i], s[k - 1]);
    }
  }

  /** The piece of the string from pos up to left, if there is one, is added to the pieces. */
  method AddPiece(str: string, pos: nat, left: nat, pieces: seq<string>) returns (r: Option<seq<string>>)
    requires pos <= left
    ensures r.None? <==> pos < left && pos > |str|
    ensures r.Some? && left <= |str| ==> Flatten(r.value) == Flatten(pieces) + str[pos..left]
  {
    r := Some(pieces);
    if left != pos {
      var piece := Substr(str, pos, left - pos);
      if piece.None? {
        return None;
      }
      FlattenSnoc(pieces, piece.value);
      r := Some(pieces + [piece.value]);
    }
  }

  /** Deletes exactly the covered characters; it throws, which is `None`, if and only if some
      interval ends past the end of the string. */
  method RemoveCharacters(str: string, remove: IntervalSet) returns (r: Option<string>)
    requires remove.Valid()
    requires forall i :: 0 <= i < |remove.intervals| ==> remove.intervals[i].left >= 0
    ensures r.None? <==> exists i :: 0 <= i < |remove.intervals| && remove.intervals[i].right > |str|
    ensures r.Some? ==> r.value == Kept(str, remove.intervals, |str|)
  {
    var pos: nat := 0;
    var intervals := remove.ToVector();
    var pieces: seq<string> := [];
    var k := 0;
    while k < |intervals|
      invariant 0 <= k <= |intervals|
      invariant pos == if k == 0 then 0 else intervals[k - 1].right
      invariant pos <= |str| ==> Flatten(pieces) == Kept(str, intervals, pos)
    {
      assert k > 0 ==> Before(intervals[k - 1], intervals[k]);
      if intervals[k].right <= |str| {
        KeptStep(str, intervals, k, pos);
      }
      var more := AddPiece(str, pos, intervals[k].left, pieces);
      if more.None? {
        LastEnds(intervals, k, |str|);
        return None;
      }
      pieces := more.value;
      pos := intervals[k].right;
      k := k + 1;
    }
    if k > 0 {
      LastEnds(intervals, k, |str|);
    }
    if pos != |str| {
      var piece := Substr(str, pos, |str|);
      if piece.None? {
        return None;
      }
      FlattenSnoc(pieces, piece.value);
      pieces := pieces + [piece.value];
    }
    KeptRest(str, intervals, pos);
    r := Some(Flatten(pieces));
  }
}
