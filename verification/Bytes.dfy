/** Flat byte strings and their splits into chunks. */
module Bytes {
  newtype byte = b: int | 0 <= b < 256

  datatype Option<+T> = None | Some(value: T)

  function Min(a: nat, b: nat): nat {
    if a < b then a else b
  }

  lemma Associative<T>(a: seq<T>, b: seq<T>, c: seq<T>)
    ensures a + b + c == a + (b + c)
  {
  }

  lemma SplitAt<T>(s: seq<T>, n: nat)
    requires n <= |s|
    ensures s[..n] + s[n..] == s
  {
  }

  lemma TakeRest<T>(p: seq<T>, s: seq<T>, n: nat)
    requires n <= |s|
    ensures p + s[..n] + s[n..] == p + s
  {
    SplitAt(s, n);
  }

  /** Moving the next part of a concatenation from its end to what is done. */
  lemma JoinNext<T>(done: seq<T>, next: seq<T>, rest: seq<T>, more: seq<T>, all: seq<T>)
    requires done + (next + rest) == all && more == done + next
    ensures more + rest == all
  {
  }

  /** The flat content of a list of chunks. */
  function Flatten<T>(chunks: seq<seq<T>>): seq<T> {
    if chunks == [] then [] else chunks[0] + Flatten(chunks[1..])
  }

  lemma {:induction false} FlattenConcat<T>(a: seq<seq<T>>, b: seq<seq<T>>)
    ensures Flatten(a + b) == Flatten(a) + Flatten(b)
  {
    if a == [] {
      assert a + b == b;
    } else {
      assert (a + b)[1..] == a[1..] + b;
      FlattenConcat(a[1..], b);
      Associative(a[0], Flatten(a[1..]), Flatten(b));
    }
  }

  lemma FlattenSnoc<T>(a: seq<seq<T>>, x: seq<T>)
    ensures Flatten(a + [x]) == Flatten(a) + x
  {
    FlattenConcat(a, [x]);
    assert Flatten([x]) == x;
  }

  lemma FlattenUpTo<T>(chunks: seq<seq<T>>, i: nat)
    requires i < |chunks|
    ensures Flatten(chunks[..i + 1]) == Flatten(chunks[..i]) + chunks[i]
    ensures |Flatten(chunks[..i + 1])| <= |Flatten(chunks)|
  {
    assert chunks[..i + 1] == chunks[..i] + [chunks[i]];
    FlattenSnoc(chunks[..i], chunks[i]);
    FlattenConcat(chunks[..i + 1], chunks[i + 1..]);
    assert chunks == chunks[..i + 1] + chunks[i + 1..];
  }

  /** Splits a list of chunks around chunk `i`. */
  lemma FlattenAt<T>(chunks: seq<seq<T>>, i: nat)
    requires i < |chunks|
    ensures Flatten(chunks) == Flatten(chunks[..i]) + chunks[i] + Flatten(chunks[i + 1..])
  {
    assert chunks == chunks[..i + 1] + chunks[i + 1..];
    FlattenConcat(chunks[..i + 1], chunks[i + 1..]);
    FlattenUpTo(chunks, i);
  }

  /** The first `n` elements of chunk `i` follow those of the chunks before it, behind `p`. */
  lemma FlattenPiece<T>(p: seq<T>, chunks: seq<seq<T>>, i: nat, n: nat)
    requires i < |chunks| && n <= |chunks[i]|
    ensures var k := |Flatten(chunks[..i])|;
            && k + |chunks[i]| == |Flatten(chunks[..i + 1])| <= |Flatten(chunks)|
            && p + Flatten(chunks)[..k + n] == p + Flatten(chunks)[..k] + chunks[i][..n]
  {
    FlattenUpTo(chunks, i);
    FlattenAt(chunks, i);
    var all, k := Flatten(chunks), |Flatten(chunks[..i])|;
    assert all[..k + n] == Flatten(chunks[..i]) + chunks[i][..n];
    assert all[..k] == Flatten(chunks[..i]);
  }

  /** Taking `n` more elements of `s` after the first `done`, behind `p`. */
  lemma TakeMore<T>(p: seq<T>, s: seq<T>, done: nat, n: nat)
    requires done + n <= |s|
    ensures p + s[..done + n] == p + s[..done] + s[done..][..n] && s[done + n..] == s[done..][n..]
  {
  }

  lemma DropMore<T>(s: seq<T>, done: nat, n: nat)
    requires done + n <= |s|
    ensures s[done + n..] == s[done..][n..]
  {
  }

  function Reversed<T>(s: seq<T>): (r: seq<T>)
    ensures |r| == |s|
  {
    seq(|s|, (i: nat) requires i < |s| => s[|s| - 1 - i])
  }

  function Overwrite<T>(s: seq<T>, at: nat, src: seq<T>): (r: seq<T>)
    requires at + |src| <= |s|
    ensures |r| == |s|
  {
    s[..at] + src + s[at + |src|..]
  }

  lemma OverwriteNothing<T>(s: seq<T>, at: nat)
    requires at <= |s|
    ensures Overwrite(s, at, []) == s
  {
  }

  /** Two adjacent writes are one. */
  lemma OverwriteMore<T>(s: seq<T>, at: nat, a: seq<T>, b: seq<T>)
    requires at + |a| + |b| <= |s|
    ensures Overwrite(Overwrite(s, at, a), at + |a|, b) == Overwrite(s, at, a + b)
  {
  }

  /** A write seen through a part of the sequence that contains it. */
  lemma OverwriteWithin<T>(s: seq<T>, from: nat, len: nat, at: nat, src: seq<T>)
    requires from + len <= |s| && at + |src| <= len
    ensures Overwrite(s, from + at, src)[from..from + len] == Overwrite(s[from..from + len], at, src)
  {
  }

  /** What a write and the elements behind it look like. */
  lemma OverwriteThen<T>(s: seq<T>, at: nat, src: seq<T>, end: nat)
    requires at + |src| <= end <= |s|
    ensures Overwrite(s, at, src)[at..end] == src + s[at + |src|..end]
  {
  }

  /** A write does not touch what lies before or behind it. */
  lemma OverwriteOutside<T>(s: seq<T>, at: nat, src: seq<T>, from: nat, to: nat)
    requires at + |src| <= |s| && from <= to <= |s| && (to <= at || at + |src| <= from)
    ensures Overwrite(s, at, src)[from..to] == s[from..to]
  {
  }

  /** `memcpy(dest + at, src)` */
  method CopyBytes(dest: array<byte>, at: nat, src: seq<byte>)
    requires at + |src| <= dest.Length
    modifies dest
    ensures dest[..] == Overwrite(old(dest[..]), at, src)
  {
    forall k | 0 <= k < |src| {
      dest[at + k] := src[k];
    }
  }

  lemma OverwriteAround<T>(a: seq<T>, c: seq<T>, b: seq<T>, at: nat, src: seq<T>)
    requires at + |src| <= |c|
    ensures Overwrite(a + c + b, |a| + at, src) == a + Overwrite(c, at, src) + b
  {
  }

  /** A write into chunk `i` as a write into the whole. */
  lemma FlattenOverwrite<T>(chunks: seq<seq<T>>, i: nat, at: nat, src: seq<T>)
    requires i < |chunks| && at + |src| <= |chunks[i]|
    ensures |Flatten(chunks[..i])| + |chunks[i]| <= |Flatten(chunks)|
    ensures Flatten(chunks[i := Overwrite(chunks[i], at, src)])
         == Overwrite(Flatten(chunks), |Flatten(chunks[..i])| + at, src)
  {
    var changed := chunks[i := Overwrite(chunks[i], at, src)];
    FlattenAt(chunks, i);
    FlattenAt(changed, i);
    assert changed[..i] == chunks[..i] && changed[i + 1..] == chunks[i + 1..];
    OverwriteAround(Flatten(chunks[..i]), chunks[i], Flatten(chunks[i + 1..]), at, src);
  }

  /** A write into one piece as a write into the whole. */
  lemma PieceWritten<T>(pieces: seq<seq<T>>, pieces': seq<seq<T>>, i: nat, at: nat, src: seq<T>, start: nat,
                        memory: seq<T>, memory': seq<T>)
    requires i < |pieces| && at + |src| <= |pieces[i]| && pieces' == pieces[i := Overwrite(pieces[i], at, src)]
    requires start == |Flatten(pieces[..i])| && memory == Flatten(pieces) && memory' == Flatten(pieces')
    ensures start + at + |src| <= |memory| && memory' == Overwrite(memory, start + at, src)
  {
    FlattenOverwrite(pieces, i, at, src);
  }

  /** `needle` stands at position `p` of `hay` and ends no later than `end`. */
  ghost predicate OccursAt(hay: seq<byte>, needle: seq<byte>, p: nat, end: nat) {
    p + |needle| <= end && p + |needle| <= |hay| && hay[p..p + |needle|] == needle
  }

  /** `memchr(bytes + from, b, limit)` */
  method FindByte(bytes: seq<byte>, from: nat, limit: nat, b: byte) returns (at: Option<nat>)
    requires from + limit <= |bytes|
    ensures at.None? ==> b !in bytes[from..from + limit]
    ensures at.Some? ==> from <= at.value < from + limit && bytes[at.value] == b && b !in bytes[from..at.value]
  {
    for i := from to from + limit
      invariant b !in bytes[from..i]
    {
      if bytes[i] == b {
        return Some(i);
      }
    }
    at := None;
  }
}
