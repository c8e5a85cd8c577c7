// BaseFunctions: the ring Z/2^w, the lookup table behind the 2-adic
// valuation, identity matrices and matrix-vector products.
//
// Matrices are indexed as in the source: M[a][j] multiplies vector[a] into
// result[j], so the first index is the column of the printed matrix.

module Ring {
  import opened Arith
  import opened Options

  /** A matrix once it is complete: the source never writes a matrix again after building it. */
  type Matrix = seq<seq<int>>

  const IntMaxValue: int := 0x7FFF_FFFF

  /**
   * The readonly state of a BaseFunctions object: the word size w, the
   * dimension n (variables + 1 for the constant slot), the modulus m = 2^w,
   * the prime used by the lookup table and the table itself.
   */
  datatype BaseFunctions = BaseFunctions(w: nat, n: nat, m: nat, prime: nat, rArr: seq<int>)
  {
    /** The state the constructor builds, whatever prime it picked. */
    ghost predicate WellFormed()
    {
      && w >= 1 && n >= 1 && m == Pow2(w)
      && prime >= 2 && rArr == RTable(w, prime)
    }

    /** WellFormed, and the table's prime separates the powers of two the lookup needs. */
    ghost predicate Valid()
    {
      WellFormed() && DistinctPowers(w, prime)
    }
  }

  // ------------------------------------------------------------- the table

  /** The table GetRArray fills after its first k iterations: slot 2^i mod p holds i, a later i overwriting an earlier one. */
  function RTableUpTo(k: nat, p: nat): (t: seq<int>)
    requires p >= 1
    ensures |t| == p
    ensures forall x :: 0 <= x < p ==> 0 <= t[x] && (t[x] < k || t[x] == 0)
  {
    if k == 0 then seq(p, _ => 0) else RTableUpTo(k - 1, p)[Pow2(k - 1) % p := k - 1]
  }

  function RTable(w: nat, p: nat): seq<int>
    requires p >= 1
  {
    RTableUpTo(w, p)
  }

  /** After iteration k the slot of 2^i holds i, as long as no later power shares the slot. */
  lemma {:induction false} TableHolds(k: nat, p: nat, i: nat, w: nat)
    requires p >= 1 && DistinctPowers(w, p) && 1 <= i < k <= w
    ensures RTableUpTo(k, p)[Pow2(i) % p] == i
  {
    if k - 1 > i {
      TableHolds(k - 1, p, i, w);
      assert PowResidue(k - 1, p) != PowResidue(i, p);
    }
  }

  /** With distinct powers the table inverts i |-> 2^i mod p on 1 .. w-1. */
  lemma TableLookup(w: nat, p: nat, i: nat)
    requires p >= 1 && DistinctPowers(w, p) && 1 <= i < w
    ensures RTable(w, p)[Pow2(i) % p] == i
  {
    TableHolds(w, p, i, w);
  }

  /** GetRArray: a p-slot table with slot (2^i mod p) set to i for i = 0 .. w-1, in that order. */
  method GetRArray(w: nat, p: nat) returns (a: array<int>)
    requires p >= 1
    ensures fresh(a) && a[..] == RTable(w, p)
  {
    a := new int[p](_ => 0);
    for i := 0 to w
      invariant a[..] == RTableUpTo(i, p)
    {
      var idx := Pow2(i) % p;
      a[idx] := i;
    }
  }

  // ------------------------------------------------------------- the prime

  /** IsPrime: trial division by odd v with v*v <= n (the source's v < (int)Math.Sqrt(n) + 1). */
  method IsPrime(n: int) returns (b: bool)
    requires n >= 1
    ensures b <==> Prime(n)
  {
    if n == 1 {
      return false;
    }
    if n == 2 || n == 3 {
      assert n % 2 != 0 || n == 2;
      return true;
    }
    if n % 2 == 0 {
      assert 2 < n && n % 2 == 0;
      return false;
    }
    // (n + 1) and (n - 1) are never both multiples of 6, so this test never fires.
    if (n + 1) % 6 == 0 && (n - 1) % 6 == 0 {
      return false;
    }
    var v := 3;
    ghost var h := 1;
    while v * v <= n
      invariant v >= 3 && v == 2 * h + 1
      invariant forall d :: 3 <= d < v && d % 2 == 1 ==> n % d != 0
      decreases n - v
    {
      MulAtLeast(v, v);
      if n % v == 0 {
        assert 2 <= v < n;
        return false;
      }
      NextOddCandidate(n, v, h);
      v, h := v + 2, h + 1;
    }
    NoSmallOddDivisorMeansPrime(n, v);
    return true;
  }

  /** Passing the odd candidate v extends the range of excluded odd divisors to v + 2. */
  lemma NextOddCandidate(n: int, v: int, h: int)
    requires v >= 3 && v == 2 * h + 1 && n % v != 0
    requires forall d :: 3 <= d < v && d % 2 == 1 ==> n % d != 0
    ensures forall d :: 3 <= d < v + 2 && d % 2 == 1 ==> n % d != 0
  {
    assert (v + 1) % 2 == 0;
  }

  /** An odd n >= 5 with no odd divisor d, 3 <= d < v, where v*v > n, is prime. */
  lemma NoSmallOddDivisorMeansPrime(n: int, v: int)
    requires n >= 5 && n % 2 == 1 && v >= 3 && v * v > n
    requires forall d :: 3 <= d < v && d % 2 == 1 ==> n % d != 0
    ensures Prime(n)
  {
    forall d | 2 <= d < n
      ensures n % d != 0
    {
      if n % d == 0 {
        var e := n / d;
        assert n == d * e;
        OddFactors(d, e);
        if d < v {
          assert false;
        } else {
          assert e < v by {
            if e >= v {
              MulMonotone(v, d, v, e);
            }
          }
          assert e != 1;
          DivMulCancel(e, d);
          assert false;
        }
      }
    }
  }

  lemma OddFactors(d: int, e: int)
    requires d >= 2 && d * e > 0 && (d * e) % 2 == 1
    ensures d % 2 == 1 && e % 2 == 1 && e >= 1
  {
    if d % 2 == 0 {
      var h := d / 2;
      assert d * e == 2 * (h * e);
      DivMulCancel(2, h * e);
    }
    if e % 2 == 0 {
      var h := e / 2;
      assert d * e == 2 * (d * h);
      DivMulCancel(2, d * h);
    }
  }

  lemma MulMonotone(a: int, b: int, c: int, d: int)
    requires 0 <= a <= b && 0 <= c <= d
    ensures a * c <= b * d
  {
    assert a * c <= b * c;
    assert b * c <= b * d;
  }

  /** GetPrime as written: the smallest prime p >= w. */
  method GetPrime(w: int) returns (p: int)
    requires w >= 1
    ensures p >= w && Prime(p)
    ensures forall q :: w <= q < p ==> !Prime(q)
  {
    ghost var bound := PrimeAbove(w);
    p := w;
    var found := IsPrime(p);
    while !found
      invariant w <= p <= bound
      invariant found <==> Prime(p)
      invariant forall q :: w <= q < p ==> !Prime(q)
      decreases bound - p
    {
      p := p + 1;
      found := IsPrime(p);
    }
  }

  /**
   * The prime the table needs: the smallest prime p >= w for which the
   * residues 2^1 .. 2^(w-1) mod p are pairwise distinct.
   */
  method GetTablePrime(w: int) returns (p: int)
    requires w >= 1
    ensures p >= w && Prime(p) && DistinctPowers(w, p)
    ensures forall q :: w <= q < p ==> !(Prime(q) && DistinctPowers(w, q))
  {
    ghost var bound := PrimeAbove(Pow2(w));
    Pow2Exceeds(w);
    Pow2StrictlyIncreasing(w - 1, w);
    LargeModulusDistinct(w, bound);
    p := w;
    var isPrime := IsPrime(p);
    var found := isPrime && DistinctPowers(w, p);
    while !found
      invariant w <= p <= bound
      invariant found <==> Prime(p) && DistinctPowers(w, p)
      invariant forall q :: w <= q < p ==> !(Prime(q) && DistinctPowers(w, q))
      decreases bound - p
    {
      p := p + 1;
      isPrime := IsPrime(p);
      found := isPrime && DistinctPowers(w, p);
    }
  }

  /**
   * The BaseFunctions constructor: fails for w <= 0 or n < 0, and otherwise
   * sets m = 2^w, n = n + 1 and builds the lookup table (with the prime
   * from GetTablePrime, see README "Findings").
   */
  method CreateBase(w: int, n: int) returns (res: Option<BaseFunctions>)
    ensures res.None? <==> (w <= 0 || n < 0)
    ensures res.Some? ==> res.value.Valid() && res.value.w == w && res.value.n == n + 1 && res.value.m == Pow2(w)
  {
    if w <= 0 || n < 0 {
      return None;
    }
    var p := GetTablePrime(w);
    var table := GetRArray(w, p);
    return Some(BaseFunctions(w, n + 1, Pow2(w), p, table[..]));
  }

  // ----------------------------------------------------------- Reduction

  /**
   * Reduction(nr) = (r, d): an odd nr gives (0, nr); otherwise r is read from
   * the table at slot (nr & -nr) mod prime and d = nr >> r.
   */
  function Reduction(b: BaseFunctions, nr: int): (res: (nat, int))
    requires b.WellFormed() && nr >= 0
    ensures res.0 < b.w
  {
    if nr % 2 != 0 then (0, nr)
    else
      var r := b.rArr[LowBit(nr) % b.prime];
      (r, ShiftRight(nr, r))
  }

  /** With a valid table Reduction splits every nonzero ring element into 2^r times an odd d. */
  lemma ReductionCorrect(b: BaseFunctions, nr: int)
    requires b.Valid() && 0 < nr < b.m
    ensures Reduction(b, nr) == (TrailingZeros(nr), OddPart(nr))
    ensures OddPart(nr) % 2 == 1 && nr == Pow2(TrailingZeros(nr)) * OddPart(nr)
  {
    Factorisation(nr);
    var t := TrailingZeros(nr);
    TrailingZerosBelow(nr, b.w);
    if nr % 2 == 0 {
      TableLookup(b.w, b.prime, t);
      ShiftOutTrailingZeros(nr);
    }
  }

  /** For odd nr Reduction gives (0, nr) whatever the table holds. */
  lemma ReductionOdd(b: BaseFunctions, nr: int)
    requires b.WellFormed() && nr >= 0 && nr % 2 == 1
    ensures Reduction(b, nr) == (0, nr)
  {
  }

  // ------------------------------------------------------ identity, M * v

  function IdentityMatrix(k: nat): (id: Matrix)
    ensures |id| == k && forall i :: 0 <= i < k ==> |id[i]| == k
  {
    seq(k, i => seq(k, j => if i == j then 1 else 0))
  }

  /** GetIdentity: a fresh k x k array, zeroed, with 1 written on the diagonal. */
  method GetIdentity(k: nat) returns (mx: array2<int>)
    ensures fresh(mx) && mx.Length0 == k && mx.Length1 == k
    ensures forall i, j :: 0 <= i < k && 0 <= j < k ==> mx[i, j] == if i == j then 1 else 0
  {
    mx := new int[k, k]((i, j) => 0);
    for i := 0 to k
      invariant forall a, j :: 0 <= a < k && 0 <= j < k ==> mx[a, j] == if a == j && a < i then 1 else 0
    {
      mx[i, i] := 1;
    }
  }

  /** The contents of an array-built matrix as a value. */
  function Freeze(mx: array2<int>): (r: Matrix)
    reads mx
    ensures |r| == mx.Length0
    ensures forall i :: 0 <= i < mx.Length0 ==> |r[i]| == mx.Length1
    ensures forall i, j :: 0 <= i < mx.Length0 && 0 <= j < mx.Length1 ==> r[i][j] == mx[i, j]
  {
    seq(mx.Length0, i requires 0 <= i < mx.Length0 reads mx => seq(mx.Length1, j requires 0 <= j < mx.Length1 reads mx => mx[i, j]))
  }

  /** Every slice has length l. */
  ghost predicate Rectangular(mx: Matrix, l: nat)
  {
    forall a :: 0 <= a < |mx| ==> |mx[a]| == l
  }

  ghost predicate NonNegative(v: seq<int>)
  {
    forall i :: 0 <= i < |v| ==> v[i] >= 0
  }

  /** sum over a < k of M[a][j] * v[a] */
  function Dot(mx: Matrix, v: seq<int>, j: nat, k: nat): int
    requires k <= |mx| && k <= |v| && forall a :: 0 <= a < k ==> j < |mx[a]|
  {
    if k == 0 then 0 else Dot(mx, v, j, k - 1) + mx[k - 1][j] * v[k - 1]
  }

  /** The product M * v modulo mod, entry j being sum_a M[a][j] * v[a]. */
  function MatVec(mx: Matrix, v: seq<int>, l: nat, mod: nat): (r: seq<int>)
    requires |mx| == |v| && Rectangular(mx, l) && mod > 0
    ensures |r| == l && forall j :: 0 <= j < l ==> 0 <= r[j] < mod
  {
    seq(l, j requires 0 <= j < l => Dot(mx, v, j, |v|) % mod)
  }

  /**
   * MatrixMultiVector: fails when matrix and vector lengths differ (and, as
   * matrix[0] does in the source, when both are empty); otherwise returns
   * M * v with every partial sum reduced modulo mod.
   */
  method MatrixMultiVector(mx: Matrix, v: seq<int>, mod: int) returns (res: Option<seq<int>>)
    requires mod > 0 && (|mx| > 0 ==> Rectangular(mx, |mx[0]|))
    requires forall a :: 0 <= a < |mx| ==> NonNegative(mx[a])
    requires NonNegative(v)
    ensures res.None? <==> (|mx| != |v| || |mx| == 0)
    ensures res.Some? ==> res.value == MatVec(mx, v, |mx[0]|, mod)
  {
    var z := |mx|;
    if z != |v| || z == 0 {
      return None;
    }
    var l := |mx[0]|;
    var result := new int[l](_ => 0);
    for j := 0 to l
      invariant forall jj :: 0 <= jj < j ==> result[jj] == Dot(mx, v, jj, z) % mod
      invariant forall jj :: j <= jj < l ==> result[jj] == 0
    {
      for a := 0 to z
        invariant result[j] == Dot(mx, v, j, a) % mod
        invariant forall jj :: 0 <= jj < j ==> result[jj] == Dot(mx, v, jj, z) % mod
        invariant forall jj :: j < jj < l ==> result[jj] == 0
      {
        ModAddLeft(Dot(mx, v, j, a), mx[a][j] * v[a], mod);
        result[j] := (result[j] + mx[a][j] * v[a]) % mod;
      }
    }
    return Some(result[..]);
  }

  lemma {:induction false} DotIdentity(v: seq<int>, j: nat, k: nat)
    requires k <= |v| && j < |v|
    ensures Dot(IdentityMatrix(|v|), v, j, k) == if j < k then v[j] else 0
  {
    if k > 0 {
      DotIdentity(v, j, k - 1);
    }
  }

  /** identity * v == v for a vector of ring elements. */
  lemma IdentityMatVec(v: seq<int>, m: nat)
    requires m > 0 && forall i :: 0 <= i < |v| ==> 0 <= v[i] < m
    ensures MatVec(IdentityMatrix(|v|), v, |v|, m) == v
  {
    var r := MatVec(IdentityMatrix(|v|), v, |v|, m);
    forall j | 0 <= j < |v|
      ensures r[j] == v[j]
    {
      DotIdentity(v, j, |v|);
      assert r[j] == v[j] % m;
    }
  }
}

module RingFindings {
  import opened Arith
  import opened Ring

  /**
   * GetPrime as written, for w = 7: its contract forces p = 7, where
   * 2^1 and 2^4 share a table slot, so the table maps slot 2 to 4 and
   * Reduction(2) answers r = 4, d = 0 instead of r = 1, d = 1.
   */
  lemma TableCollisionAtSeven(p: int)
    requires p >= 7 && Prime(p) && forall q :: 7 <= q < p ==> !Prime(q)
    ensures p == 7 && !DistinctPowers(7, p)
    ensures var b := BaseFunctions(7, 1, Pow2(7), 7, RTable(7, 7));
            b.WellFormed() && Reduction(b, 2) == (4, 0) && TrailingZeros(2) == 1
  {
    assert Prime(7) by {
      forall d | 2 <= d < 7
        ensures 7 % d != 0
      {
        if d == 2 { assert 7 % 2 == 1; }
      }
    }
    assert PowResidue(1, 7) == PowResidue(4, 7);
    var t := RTable(7, 7);
    assert t == [0, 6, 4, 0, 5, 0, 0];
    assert LowBit(2) == 2;
  }
}
