/** Weighted selection: the cluster whose interval of cumulated weights the random value falls in. */
module WeightedCluster {
  import opened Arithmetic
  import opened Bytes

  const WIDTH: nat := 0x1_0000_0000_0000_0000

  /** The weight of the first n clusters together. */
  function Prefix(weights: seq<nat>, n: nat): nat
    requires n <= |weights|
  {
    if n == 0 then 0 else Prefix(weights, n - 1) + weights[n - 1]
  }

  lemma {:induction false} PrefixMonotone(weights: seq<nat>, m: nat, n: nat)
    requires m <= n <= |weights|
    ensures Prefix(weights, m) <= Prefix(weights, n)
  {
    if m < n {
      PrefixMonotone(weights, m, n - 1);
    }
  }

  predicate Chosen(weights: seq<nat>, value: nat, i: nat) {
    i < |weights| && Prefix(weights, i) <= value < Prefix(weights, i + 1)
  }

  /** At most one cluster is chosen. */
  lemma ChosenIsUnique(weights: seq<nat>, value: nat, i: nat, j: nat)
    requires Chosen(weights, value, i) && Chosen(weights, value, j)
    ensures i == j
  {
    if i < j {
      PrefixMonotone(weights, i + 1, j);
    } else if j < i {
      PrefixMonotone(weights, j + 1, i);
    }
  }

  /** The running sum as 64 bits keep it. */
  function Kept(weights: seq<nat>, n: nat): nat
    requires n <= |weights|
  {
    Prefix(weights, n) % WIDTH
  }

  predicate Picked(weights: seq<nat>, value: nat, i: nat) {
    i < |weights| && Kept(weights, i) <= value < Kept(weights, i + 1)
  }

  lemma KeptNext(weights: seq<nat>, i: nat)
    requires i < |weights|
    ensures Kept(weights, i + 1) == (Kept(weights, i) + weights[i]) % WIDTH
  {
  }

  /** While the weights together fit in 64 bits the picked cluster is the chosen one. */
  lemma PickedIsChosen(weights: seq<nat>, value: nat, i: nat)
    requires Prefix(weights, |weights|) < WIDTH && i < |weights|
    ensures Picked(weights, value, i) <==> Chosen(weights, value, i)
  {
    PrefixMonotone(weights, i, |weights|);
    PrefixMonotone(weights, i + 1, |weights|);
  }

  lemma {:induction false} SomeChosen(weights: seq<nat>, value: nat, n: nat) returns (i: nat)
    requires n <= |weights| && value < Prefix(weights, n)
    ensures Chosen(weights, value, i)
  {
    if value < Prefix(weights, n - 1) {
      i := SomeChosen(weights, value, n - 1);
    } else {
      i := n - 1;
    }
  }

  lemma PickedFits(weights: seq<nat>, value: nat, i: nat)
    requires Picked(weights, value, i)
    ensures Prefix(weights, |weights|) < WIDTH ==> Chosen(weights, value, i) && value < Prefix(weights, |weights|)
  {
    if Prefix(weights, |weights|) < WIDTH {
      PickedIsChosen(weights, value, i);
      PrefixMonotone(weights, i + 1, |weights|);
    }
  }

  lemma NoneFits(weights: seq<nat>, value: nat)
    requires forall i :: 0 <= i < |weights| ==> !Picked(weights, value, i)
    ensures Prefix(weights, |weights|) < WIDTH ==> value >= Prefix(weights, |weights|)
  {
    if value < Prefix(weights, |weights|) < WIDTH {
      var i := SomeChosen(weights, value, |weights|);
      PickedIsChosen(weights, value, i);
      assert false;
    }
  }

  /** The first cluster whose interval, with sums kept in 64 bits, holds the selected value. There is
      none if and only if no running sum, as 64 bits keep it, exceeds the selected value; then the
      loop runs out, which is `None`: the source leaves the function without a result. When the
      weights together fit, the cluster is the chosen one, and there is one if and only if the
      selected value is below their sum. */
  method PickCluster(weights: seq<nat>, total: nat, random: nat) returns (r: Option<nat>)
    requires 0 < total < WIDTH && random < WIDTH
    ensures r.Some? ==> Picked(weights, random % total, r.value)
    ensures forall i :: 0 <= i < (if r.Some? then r.value else |weights|) ==> !Picked(weights, random % total, i)
    ensures r.None? <==> forall n :: 0 <= n <= |weights| ==> Kept(weights, n) <= random % total
    ensures Prefix(weights, |weights|) < WIDTH ==>
              (r.Some? <==> random % total < Prefix(weights, |weights|)) &&
              (r.Some? ==> Chosen(weights, random % total, r.value))
  {
    var selected := random % total;
    var begin, end := 0, 0;
    var i := 0;
    while i < |weights|
      invariant 0 <= i <= |weights| && begin == Kept(weights, i)
      invariant forall k :: 0 <= k < i ==> !Picked(weights, selected, k)
      invariant forall n :: 0 <= n <= i ==> Kept(weights, n) <= selected
    {
      KeptNext(weights, i);
      end := (begin + weights[i]) % WIDTH;
      if selected >= begin && selected < end {
        PickedFits(weights, selected, i);
        return Some(i);
      }
      begin := end;
      i := i + 1;
    }
    r := None;
    NoneFits(weights, selected);
  }

  // ---------------------------------------------------------------- how often each is chosen

  /** How many of the n random values from `start` on choose cluster i. */
  function Hits(weights: seq<nat>, total: nat, i: nat, start: nat, n: nat): nat
    requires total > 0
  {
    if n == 0 then 0
    else Hits(weights, total, i, start, n - 1) + if Chosen(weights, (start + n - 1) % total, i) then 1 else 0
  }

  lemma {:induction false} HitsCons(weights: seq<nat>, total: nat, i: nat, start: nat, n: nat)
    requires total > 0 && n > 0
    ensures Hits(weights, total, i, start, n)
         == (if Chosen(weights, start % total, i) then 1 else 0) + Hits(weights, total, i, start + 1, n - 1)
  {
    if n > 1 {
      HitsCons(weights, total, i, start, n - 1);
    }
  }

  /** Which run of consecutive values it is does not matter. */
  lemma {:induction false} HitsShift(weights: seq<nat>, total: nat, i: nat, start: nat)
    requires total > 0
    ensures Hits(weights, total, i, start, total) == Hits(weights, total, i, 0, total)
  {
    if start > 0 {
      HitsShift(weights, total, i, start - 1);
      HitsCons(weights, total, i, start - 1, total);
      ModAdd(start - 1, total);
    }
  }

  lemma {:induction false} HitsFromZero(weights: seq<nat>, total: nat, i: nat, n: nat)
    requires n <= total && total > 0 && i < |weights|
    ensures Hits(weights, total, i, 0, n) == Min(n, Prefix(weights, i + 1)) - Min(n, Prefix(weights, i))
  {
    if n > 0 {
      HitsFromZero(weights, total, i, n - 1);
      DivisionIsUnique(n - 1, total, 0, n - 1);
    }
  }

  /** Over any `total` consecutive random values a cluster is chosen as often as the part of its
      interval below the total is long: weight many times exactly when the interval is not cut. */
  lemma ChosenByWeight(weights: seq<nat>, total: nat, i: nat, start: nat)
    requires total > 0 && i < |weights|
    ensures Hits(weights, total, i, start, total) == Min(total, Prefix(weights, i + 1)) - Min(total, Prefix(weights, i))
    ensures Hits(weights, total, i, start, total) == weights[i] <==> weights[i] == 0 || Prefix(weights, i + 1) <= total
  {
    HitsShift(weights, total, i, start);
    HitsFromZero(weights, total, i, total);
  }

  /** With the total that the weights sum up to, every value chooses a cluster, and each cluster is
      chosen exactly its weight of times. */
  lemma ChosenExactly(weights: seq<nat>, i: nat, start: nat)
    requires Prefix(weights, |weights|) > 0 && i < |weights|
    ensures Hits(weights, Prefix(weights, |weights|), i, start, Prefix(weights, |weights|)) == weights[i]
  {
    PrefixMonotone(weights, i + 1, |weights|);
    ChosenByWeight(weights, Prefix(weights, |weights|), i, start);
  }
}
