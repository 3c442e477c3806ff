/** 4294967291 is the largest prime that fits in 32 bits: a proof by a certificate, since its 32767
    candidate divisors are too many to try one by one. */
module LargestPrime {
  import opened Arithmetic
  import opened Divisors

  const LARGEST: nat := 4294967291

  /** The power modulo m. */
  function Power(c: nat, n: nat, m: nat): (p: nat)
    requires m > 1
    ensures p < m
  {
    if n == 0 then 1 else c * Power(c, n - 1, m) % m
  }

  lemma ProductRemainder(x: nat, y: nat, m: nat, q: nat, r: nat, t: nat, u: nat)
    requires x == m * q + r && r * y == m * t + u && u < m
    ensures x * y % m == u
  {
    MulDistributes(y, m * q, r);
    MulAssociative(m, q, y);
    MulDistributes(m, q * y, t);
    DivisionIsUnique(x * y, m, q * y + t, u);
  }

  lemma Euclid(x: nat, m: nat)
    requires m > 0
    ensures x == m * (x / m) + x % m && x % m < m
  {
  }

  lemma ModProduct(x: nat, y: nat, m: nat)
    requires m > 0
    ensures (x % m) * y % m == x * y % m
  {
    Euclid(x, m);
    Euclid((x % m) * y, m);
    ProductRemainder(x, y, m, x / m, x % m, (x % m) * y / m, (x % m) * y % m);
  }

  lemma PowerStep(c: nat, x: nat, y: nat, m: nat)
    requires m > 1
    ensures c * (x * y % m) % m == (c * x % m) * y % m
  {
    ModProduct(x * y, c, m);
    ModProduct(c * x, y, m);
    MulAssociative(c, x, y);
  }

  lemma {:induction false} PowerAdd(c: nat, i: nat, j: nat, m: nat)
    requires m > 1
    ensures Power(c, i + j, m) == Power(c, i, m) * Power(c, j, m) % m
  {
    var y := Power(c, j, m);
    if i == 0 {
      DivisionIsUnique(y, m, 0, y);
    } else {
      PowerAdd(c, i - 1, j, m);
      PowerStep(c, Power(c, i - 1, m), y, m);
    }
  }

  lemma RemainderOfDivisor(x: nat, m: nat, p: nat, k: nat, q: nat, r: nat, t: nat, u: nat)
    requires m == p * k && x == m * q + r && r == p * t + u && u < p
    ensures x % p == u
  {
    MulAssociative(p, k, q);
    MulDistributes(p, k * q, t);
    DivisionIsUnique(x, p, k * q + t, u);
  }

  lemma ModOfDivisor(x: nat, m: nat, p: nat)
    requires p > 0 && Divides(p, m) && m > 0
    ensures x % m % p == x % p
  {
    Euclid(m, p);
    Euclid(x, m);
    Euclid(x % m, p);
    RemainderOfDivisor(x, m, p, m / p, x / m, x % m, x % m / p, x % m % p);
  }

  /** Powers modulo a divisor. */
  lemma {:induction false} PowerOfDivisor(c: nat, n: nat, m: nat, p: nat)
    requires m > 1 && p > 1 && Divides(p, m)
    ensures Power(c, n, p) == Power(c, n, m) % p
  {
    if n > 0 {
      var x := Power(c, n - 1, m);
      PowerOfDivisor(c, n - 1, m, p);
      ModOfDivisor(c * x, m, p);
      ModProduct(x, c, p);
      assert c * (x % p) == (x % p) * c && c * x == x * c;
    } else {
      DivisionIsUnique(1, p, 0, 1);
    }
  }

  // ---------------------------------------------------------------- the order of a power

  /** The least positive exponent whose power is 1. */
  function Order(c: nat, n: nat, p: nat, from: nat): (d: nat)
    requires p > 1 && 0 < from <= n && Power(c, n, p) == 1
    requires forall k :: 0 < k < from ==> Power(c, k, p) != 1
    ensures from <= d <= n && Power(c, d, p) == 1
    ensures forall k :: 0 < k < d ==> Power(c, k, p) != 1
    decreases n - from
  {
    if Power(c, from, p) == 1 then from else Order(c, n, p, from + 1)
  }

  lemma {:induction false} PowerOfOrder(c: nat, d: nat, p: nat, t: nat)
    requires p > 1 && Power(c, d, p) == 1
    ensures Power(c, d * t, p) == 1
  {
    if t > 0 {
      PowerOfOrder(c, d, p, t - 1);
      MulDistributes(d, t - 1, 1);
      PowerAdd(c, d * (t - 1), d, p);
      DivisionIsUnique(1, p, 0, 1);
    }
  }

  lemma OrderDivides(c: nat, n: nat, p: nat, d: nat)
    requires p > 1 && d > 0 && Power(c, n, p) == 1 && Power(c, d, p) == 1
    requires forall k :: 0 < k < d ==> Power(c, k, p) != 1
    ensures Divides(d, n)
  {
    var t, r := n / d, n % d;
    Euclid(n, d);
    PowerOfOrder(c, d, p, t);
    PowerAdd(c, d * t, r, p);
    DivisionIsUnique(Power(c, r, p), p, 0, Power(c, r, p));
  }

  // ---------------------------------------------------------------- counting the powers

  lemma PowersDiffer(c: nat, n: nat, p: nat, i: nat, j: nat)
    requires p > 1 && Power(c, n, p) == 1 && i < j < n
    requires forall k :: 0 < k < n ==> Power(c, k, p) != 1
    ensures Power(c, i, p) != Power(c, j, p)
  {
    PowerAdd(c, i, n - j, p);
    PowerAdd(c, j, n - j, p);
    assert Power(c, i + (n - j), p) != 1;
  }

  lemma PowerIsNotZero(c: nat, n: nat, p: nat, i: nat)
    requires p > 1 && Power(c, n, p) == 1 && i <= n
    ensures Power(c, i, p) != 0
  {
    PowerAdd(c, i, n - i, p);
    DivisionIsUnique(0, p, 0, 0);
  }

  function Elements(s: seq<nat>): set<nat> {
    set x | x in s
  }

  function Below(n: nat): (s: set<nat>)
    requires n > 0
    ensures |s| == n - 1 && forall x :: x in s <==> 0 < x < n
  {
    if n == 1 then {} else Below(n - 1) + {n - 1}
  }

  lemma {:induction false} DistinctElements(s: seq<nat>)
    requires forall i, j :: 0 <= i < j < |s| ==> s[i] != s[j]
    ensures |Elements(s)| == |s|
  {
    if s != [] {
      var init, last := s[..|s| - 1], s[|s| - 1];
      DistinctElements(init);
      assert s == init + [last];
      assert Elements(s) == Elements(init) + {last} && last !in Elements(init);
    }
  }

  /** Distinct positive numbers below a bound are fewer than the bound. */
  lemma Pigeonhole(s: seq<nat>, bound: nat)
    requires bound > 0 && forall i :: 0 <= i < |s| ==> 0 < s[i] < bound
    requires forall i, j :: 0 <= i < j < |s| ==> s[i] != s[j]
    ensures |s| < bound
  {
    DistinctElements(s);
    assert Elements(s) <= Below(bound);
    assert Below(bound) == Elements(s) + (Below(bound) - Elements(s));
  }

  lemma OrderIsSmall(c: nat, n: nat, p: nat)
    requires p > 1 && n > 0 && Power(c, n, p) == 1
    requires forall k :: 0 < k < n ==> Power(c, k, p) != 1
    ensures n < p
  {
    var s := seq(n, (i: nat) => Power(c, i, p));
    forall i | 0 <= i < n ensures 0 < s[i] < p {
      PowerIsNotZero(c, n, p, i);
    }
    forall i, j | 0 <= i < j < n ensures s[i] != s[j] {
      PowersDiffer(c, n, p, i, j);
    }
    Pigeonhole(s, p);
  }

  // ---------------------------------------------------------------- certificates

  /** No divisor of m sees a proper divisor of n as the order of c. */
  ghost predicate Generates(c: nat, n: nat, m: nat) {
    forall p: nat, d: nat :: p > 1 && Divides(p, m) && Divides(d, n) && 0 < d < n ==> Power(c, d, p) != 1
  }

  /** If c has order n modulo every divisor of m, and n is at least the square root of m, then m has
      no room for a divisor up to its square root. */
  lemma Certificate(c: nat, n: nat, m: nat)
    requires m > 1 && n > 0 && Power(c, n, m) == 1 && Generates(c, n, m)
    requires m < (n + 1) * (n + 1)
    ensures Prime(m)
  {
    if !Prime(m) {
      var p := CompositeHasSmallDivisor(m);
      PowerOfDivisor(c, n, m, p);
      DivisionIsUnique(1, p, 0, 1);
      var d := Order(c, n, p, 1);
      OrderDivides(c, n, p, d);
      OrderIsSmall(c, n, p);
      MulMonotone(n + 1, n + 1, p);
      MulMonotone(p, n + 1, p);
      assert false;
    }
  }

  /** What is invertible less 1 is not 1 modulo a divisor. */
  lemma NotOne(x: nat, u: nat, m: nat, p: nat)
    requires m > 1 && x > 0 && (x - 1) * u % m == 1 && p > 1 && Divides(p, m)
    ensures x % p != 1
  {
    ModOfDivisor((x - 1) * u, m, p);
    DivisionIsUnique(1, p, 0, 1);
    if x % p == 1 {
      Euclid(x, p);
      DivisionIsUnique(x - 1, p, x / p, 0);
      ModProduct(x - 1, u, p);
      assert false;
    }
  }

  predicate Sum(i: nat, j: nat, k: nat) {
    k == i + j
  }

  /** f takes sums to products modulo m. Computations are with such an f, where nothing unfolds. */
  ghost predicate Exponential(f: nat -> nat, m: nat) {
    m > 1 && forall i, j, k {:trigger Sum(i, j, k)} :: Sum(i, j, k) ==> f(k) == f(i) * f(j) % m
  }

  ghost predicate Powers(f: nat -> nat, c: nat, m: nat) {
    m > 1 && forall k, n {:trigger Sum(k, 0, n)} :: Sum(k, 0, n) ==> f(n) == Power(c, k, m)
  }

  lemma PowersAreExponential(f: nat -> nat, c: nat, m: nat)
    requires Powers(f, c, m)
    ensures Exponential(f, m)
  {
    forall i, j, k | Sum(i, j, k) ensures f(k) == f(i) * f(j) % m {
      assert Sum(i, 0, i) && Sum(j, 0, j) && Sum(k, 0, k);
      PowerAdd(c, i, j, m);
    }
  }

  lemma Double(f: nat -> nat, k: nat, m: nat, x: nat, y: nat)
    requires Exponential(f, m) && f(k) == x && x * x % m == y
    ensures f(2 * k) == y
  {
    assert Sum(k, k, 2 * k);
  }

  lemma DoubleAndOne(f: nat -> nat, k: nat, m: nat, c: nat, x: nat, y: nat, z: nat)
    requires Exponential(f, m) && f(1) == c && f(k) == x && x * x % m == y && c * y % m == z
    ensures f(2 * k + 1) == z
  {
    Double(f, k, m, x, y);
    assert Sum(1, 2 * k, 2 * k + 1);
  }

  lemma FirstIsNotOne(c: nat, n: nat, m: nat, p: nat, u: nat, x: nat)
    requires m > 1 && 0 < x && Power(c, n, m) == x && (x - 1) * u % m == 1 && p > 1 && Divides(p, m)
    ensures Power(c, n, p) != 1
  {
    PowerOfDivisor(c, n, m, p);
    NotOne(x, u, m, p);
  }

  lemma PrimeGenerates(c: nat, n: nat, m: nat, x: nat, u: nat)
    requires m > 1 && 0 < x && Prime(n) && Power(c, 1, m) == x && (x - 1) * u % m == 1
    ensures Generates(c, n, m)
  {
    forall p: nat, d: nat | p > 1 && Divides(p, m) && Divides(d, n) && 0 < d < n ensures Power(c, d, p) != 1 {
      assert d == 1;
      FirstIsNotOne(c, 1, m, p, u, x);
    }
  }

  lemma RootIsNotOne(c: nat, r: nat, m: nat, p: nat, d: nat)
    requires p > 1 && Prime(r) && Divides(d, r * r) && d < r * r && Power(c, r, p) != 1
    ensures Power(c, d, p) != 1
  {
    DivisorsOfSquare(r, d);
    if d == 1 && Power(c, 1, p) == 1 {
      PowerOfOrder(c, 1, p, r);
    }
  }

  lemma SquareGenerates(c: nat, r: nat, n: nat, m: nat, x: nat, u: nat)
    requires m > 1 && 0 < x && Prime(r) && n == r * r && Power(c, r, m) == x && (x - 1) * u % m == 1
    ensures Generates(c, n, m)
  {
    forall p: nat, d: nat | p > 1 && Divides(p, m) && Divides(d, n) && 0 < d < n ensures Power(c, d, p) != 1 {
      FirstIsNotOne(c, r, m, p, u, x);
      RootIsNotOne(c, r, m, p, d);
    }
  }

  /** An exponent that is a prime. */
  lemma PrimeCertificate(f: nat -> nat, c: nat, n: nat, m: nat, x: nat, u: nat)
    requires Powers(f, c, m) && f(n) == 1 && f(1) == x
    requires Prime(n) && m < (n + 1) * (n + 1) && 0 < x && (x - 1) * u % m == 1
    ensures Prime(m)
  {
    assert Sum(1, 0, 1) && Sum(n, 0, n);
    PrimeGenerates(c, n, m, x, u);
    Certificate(c, n, m);
  }

  /** An exponent that is the square of a prime. */
  lemma SquareCertificate(f: nat -> nat, c: nat, r: nat, n: nat, m: nat, x: nat, u: nat)
    requires Powers(f, c, m) && f(n) == 1 && f(r) == x
    requires Prime(r) && n == r * r && m < (n + 1) * (n + 1) && 0 < x && (x - 1) * u % m == 1
    ensures Prime(m)
  {
    assert Sum(r, 0, r) && Sum(n, 0, n);
    SquareGenerates(c, r, n, m, x, u);
    Certificate(c, n, m);
  }

  /** The powers of c as a function. */
  lemma PowerFunction(c: nat, m: nat) returns (f: nat -> nat)
    requires c < m && m > 1
    ensures Powers(f, c, m) && Exponential(f, m) && f(1) == c
  {
    f := (k: nat) => Power(c, k, m);
    PowersAreExponential(f, c, m);
    assert Power(c, 0, m) == 1;
    DivisionIsUnique(c, m, 0, c);
  }

  lemma SmallRoot(d: nat)
    requires d * d < 196
    ensures d < 14
  {
    if d >= 14 {
      MulMonotone(d, 14, d);
      assert false;
    }
  }

  lemma RootIsPrime()
    ensures Prime(181)
  {
    if !Prime(181) {
      var d := CompositeHasSmallDivisor(181);
      SmallRoot(d);
      assert false;
    }
  }

  lemma FactorPowers(f: nat -> nat)
    requires Exponential(f, 22605091) && f(1) == 18389778
    ensures f(181) == 13954217
  {
    Double(f, 1, 22605091, 18389778, 18881964);
    DoubleAndOne(f, 2, 22605091, 18389778, 18881964, 6806019, 22134795);
    DoubleAndOne(f, 5, 22605091, 18389778, 22134795, 10117272, 19857376);
    Double(f, 11, 22605091, 19857376, 18167953);
    DoubleAndOne(f, 22, 22605091, 18389778, 18167953, 18363502, 15500452);
    Double(f, 45, 22605091, 15500452, 15607508);
    DoubleAndOne(f, 90, 22605091, 18389778, 15607508, 14341693, 13954217);
  }

  lemma FactorOrder(f: nat -> nat)
    requires Exponential(f, 22605091) && f(1) == 18389778
    ensures f(32761) == 1
  {
    DoubleAndOne(f, 1, 22605091, 18389778, 18389778, 18881964, 18694817);
    DoubleAndOne(f, 3, 22605091, 18389778, 18694817, 967039, 3991823);
    DoubleAndOne(f, 7, 22605091, 18389778, 3991823, 5746155, 10446987);
    DoubleAndOne(f, 15, 22605091, 18389778, 10446987, 10546524, 12830595);
    DoubleAndOne(f, 31, 22605091, 18389778, 12830595, 15866151, 8572888);
    DoubleAndOne(f, 63, 22605091, 18389778, 8572888, 13438432, 8077143);
    DoubleAndOne(f, 127, 22605091, 18389778, 8077143, 2378623, 5894688);
    DoubleAndOne(f, 255, 22605091, 18389778, 5894688, 21407058, 16329565);
    DoubleAndOne(f, 511, 22605091, 18389778, 16329565, 21323023, 5776459);
    DoubleAndOne(f, 1023, 22605091, 18389778, 5776459, 13333217, 10349018);
    DoubleAndOne(f, 2047, 22605091, 18389778, 10349018, 20979418, 9799090);
    Double(f, 4095, 22605091, 9799090, 10622299);
    Double(f, 8190, 22605091, 10622299, 14739265);
    DoubleAndOne(f, 16380, 22605091, 18389778, 14739265, 22155999, 1);
  }

  lemma FactorIsPrime()
    ensures Prime(22605091)
  {
    var f := PowerFunction(18389778, 22605091);
    FactorPowers(f);
    FactorOrder(f);
    RootIsPrime();
    SquareCertificate(f, 18389778, 181, 32761, 22605091, 13954217, 19569746);
  }

  lemma LargestHalf(f: nat -> nat)
    requires Exponential(f, 4294967291) && f(1) == 1073745729
    ensures f(5518) == 1810740027
  {
    Double(f, 1, 4294967291, 1073745729, 3504919713);
    DoubleAndOne(f, 2, 4294967291, 1073745729, 3504919713, 148041656, 2762101756);
    Double(f, 5, 4294967291, 2762101756, 1474251975);
    DoubleAndOne(f, 10, 4294967291, 1073745729, 1474251975, 2995285887, 4065820878);
    DoubleAndOne(f, 21, 4294967291, 1073745729, 4065820878, 3219286270, 1820247785);
    Double(f, 43, 4294967291, 1820247785, 3855700258);
    Double(f, 86, 4294967291, 3855700258, 1858816020);
    Double(f, 172, 4294967291, 1858816020, 2210652769);
    DoubleAndOne(f, 344, 4294967291, 1073745729, 2210652769, 1091548832, 3255072328);
    DoubleAndOne(f, 689, 4294967291, 1073745729, 3255072328, 3894166791, 2036108090);
    DoubleAndOne(f, 1379, 4294967291, 1073745729, 2036108090, 1360206462, 2579436866);
    Double(f, 2759, 4294967291, 2579436866, 1810740027);
  }

  lemma LargestOrder(f: nat -> nat)
    requires Exponential(f, 4294967291) && f(1) == 1073745729
    ensures f(22605091) == 1
  {
    LargestHalf(f);
    DoubleAndOne(f, 5518, 4294967291, 1073745729, 1810740027, 2386321990, 3638735613);
    DoubleAndOne(f, 11037, 4294967291, 1073745729, 3638735613, 177569812, 2142344274);
    Double(f, 22075, 4294967291, 2142344274, 164317185);
    DoubleAndOne(f, 44150, 4294967291, 1073745729, 164317185, 1505111656, 3827152162);
    Double(f, 88301, 4294967291, 3827152162, 305512203);
    Double(f, 176602, 4294967291, 305512203, 999910711);
    DoubleAndOne(f, 353204, 4294967291, 1073745729, 999910711, 1505118024, 3852027162);
    Double(f, 706409, 4294967291, 3852027162, 894754220);
    Double(f, 1412818, 4294967291, 894754220, 2824842023);
    Double(f, 2825636, 4294967291, 2824842023, 3541280234);
    DoubleAndOne(f, 5651272, 4294967291, 1073745729, 3541280234, 779252477, 4191888076);
    DoubleAndOne(f, 11302545, 4294967291, 1073745729, 4191888076, 688844034, 1);
  }

  lemma LargestIsPrime()
    ensures Prime(LARGEST)
  {
    var f := PowerFunction(1073745729, 4294967291);
    LargestOrder(f);
    FactorIsPrime();
    PrimeCertificate(f, 1073745729, 22605091, 4294967291, 1073745729, 1771216906);
  }

  /** No prime above it fits in 32 bits. */
  lemma NoneLarger(p: nat)
    requires LARGEST < p < 0x1_0000_0000
    ensures !Prime(p)
  {
    assert Divides(2, 4294967292) && Divides(9241, 4294967293) && Divides(2, 4294967294) && Divides(3, 4294967295);
  }
}
