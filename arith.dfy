// Integer helpers shared by the whole model: powers of two, the 2-adic
// valuation, C#'s truncating remainder, and primes.

module Options {
  datatype Option<T> = None | Some(value: T)
}

module Arith {

  /** 2^k. */
  function Pow2(k: nat): (r: nat)
    ensures r >= 1
  {
    if k == 0 then 1 else 2 * Pow2(k - 1)
  }

  lemma {:induction false} Pow2Add(a: nat, b: nat)
    ensures Pow2(a + b) == Pow2(a) * Pow2(b)
  {
    if a > 0 {
      Pow2Add(a - 1, b);
      assert Pow2(a + b) == 2 * Pow2(a - 1 + b);
    }
  }

  lemma {:induction false} Pow2StrictlyIncreasing(i: nat, j: nat)
    requires i < j
    ensures Pow2(i) < Pow2(j)
  {
    if i + 1 < j {
      Pow2StrictlyIncreasing(i, j - 1);
    }
  }

  lemma {:induction false} Pow2Exceeds(k: nat)
    ensures k < Pow2(k)
  {
    if k > 0 {
      Pow2Exceeds(k - 1);
    }
  }

  /** Pow2(j) is a multiple of Pow2(i) when i <= j. */
  lemma Pow2Divides(i: nat, j: nat)
    requires i <= j
    ensures Pow2(j) == Pow2(i) * Pow2(j - i)
  {
    Pow2Add(i, j - i);
  }

  lemma DivMulCancel(p: int, q: int)
    requires p > 0
    ensures (p * q) / p == q && (p * q) % p == 0
  {
    ModUnique(p * q, p, q, 0);
  }

  /** Euclidean division is determined by quotient and remainder. */
  lemma ModUnique(a: int, b: int, q: int, r: int)
    requires b > 0 && a == b * q + r && 0 <= r < b
    ensures a / b == q && a % b == r
  {
    var q0, r0 := a / b, a % b;
    var k := q - q0;
    assert b * k == r0 - r by {
      assert b * q + r == b * q0 + r0;
      assert b * q - b * q0 == b * k;
    }
    if k > 0 {
      MulAtLeast(b, k);
    } else if k < 0 {
      MulAtLeast(b, -k);
    }
  }

  lemma MulAtLeast(b: int, k: int)
    requires b > 0 && k >= 1
    ensures b * k >= b
  {
  }

  /** The number of trailing zero bits of a positive number. */
  function TrailingZeros(x: nat): nat
    requires x > 0
  {
    if x % 2 == 1 then 0 else 1 + TrailingZeros(x / 2)
  }

  /** What is left of a positive number once its trailing zero bits are shifted out. */
  function OddPart(x: nat): nat
    requires x > 0
  {
    if x % 2 == 1 then x else OddPart(x / 2)
  }

  /** x == 2^TrailingZeros(x) * OddPart(x), with an odd cofactor: the 2-adic factorisation. */
  lemma {:induction false} Factorisation(x: nat)
    requires x > 0
    ensures OddPart(x) % 2 == 1
    ensures x == Pow2(TrailingZeros(x)) * OddPart(x)
  {
    if x % 2 == 0 {
      Factorisation(x / 2);
      var t, o := TrailingZeros(x / 2), OddPart(x / 2);
      calc {
        x;
        2 * (x / 2);
        2 * (Pow2(t) * o);
        (2 * Pow2(t)) * o;
        Pow2(t + 1) * o;
      }
    }
  }

  /** The valuation of a number below 2^w is below w. */
  lemma TrailingZerosBelow(x: nat, w: nat)
    requires 0 < x < Pow2(w)
    ensures TrailingZeros(x) < w
  {
    Factorisation(x);
    if TrailingZeros(x) >= w {
      assert false;
    }
  }

  /** x >> r for x >= 0: r halvings, each dropping the lowest bit. */
  function ShiftRight(x: nat, r: nat): nat
  {
    if r == 0 then x else ShiftRight(x / 2, r - 1)
  }

  /** Shifting out exactly the trailing zero bits leaves the odd part. */
  lemma {:induction false} ShiftOutTrailingZeros(x: nat)
    requires x > 0
    ensures ShiftRight(x, TrailingZeros(x)) == OddPart(x)
  {
    if x % 2 == 0 {
      ShiftOutTrailingZeros(x / 2);
    }
  }

  /** The lowest set bit of x, i.e. C#'s `x & -x` for 0 <= x. */
  function LowBit(x: nat): nat
  {
    if x == 0 then 0 else Pow2(TrailingZeros(x))
  }

  /** C#'s `a % b` for b > 0: the remainder truncates toward zero and takes the sign of a. */
  function Rem(a: int, b: int): (r: int)
    requires b > 0
    ensures -b < r < b
    ensures a >= 0 ==> r == a % b
  {
    if a >= 0 then a % b else -((-a) % b)
  }

  /** The source's idiom `((a % m) + m) % m` computes the Euclidean residue, which is Dafny's `a % m`. */
  lemma RemNormalises(a: int, m: int)
    requires m > 0
    ensures Rem(Rem(a, m) + m, m) == a % m
  {
    if a < 0 {
      var s := (-a) % m;
      var q := (-a) / m;
      assert -a == m * q + s;
      if s == 0 {
        ModUnique(a, m, -q, 0);
        ModUnique(m, m, 1, 0);
      } else {
        ModUnique(a, m, -q - 1, m - s);
        ModUnique(m - s, m, 0, m - s);
      }
    } else {
      var r := a % m;
      ModUnique(r + m, m, 1, r);
    }
  }

  /** Adding under a residue does not change the residue: the step of every accumulating loop. */
  lemma ModAddLeft(x: int, y: int, m: int)
    requires m > 0
    ensures (x % m + y) % m == (x + y) % m
  {
    var q := x / m;
    assert x == m * q + x % m;
    var q2 := (x % m + y) / m;
    var r2 := (x % m + y) % m;
    assert x % m + y == m * q2 + r2;
    ModUnique(x + y, m, q + q2, r2);
  }

  /** Adding the modulus once does not change the residue: the source's `(c + m) % m`. */
  lemma ModAddModulus(c: int, m: int)
    requires m > 0
    ensures (c + m) % m == c % m
  {
    var q := c / m;
    assert c + m == m * (q + 1) + c % m by {
      assert c == m * q + c % m;
      assert m * (q + 1) == m * q + m;
    }
    ModUnique(c + m, m, q + 1, c % m);
  }

  // ---------------------------------------------------------------- primes

  ghost predicate Prime(p: int)
  {
    p >= 2 && forall d :: 2 <= d < p ==> p % d != 0
  }

  function Factorial(k: nat): (r: nat)
    ensures r >= 1
  {
    if k == 0 then 1 else k * Factorial(k - 1)
  }

  lemma {:induction false} FactorialDivisible(k: nat, d: int)
    requires 1 <= d <= k
    ensures Factorial(k) % d == 0
  {
    if d == k {
      DivMulCancel(k, Factorial(k - 1));
    } else {
      FactorialDivisible(k - 1, d);
      var q := Factorial(k - 1) / d;
      assert Factorial(k - 1) == d * q;
      assert Factorial(k) == d * (k * q);
      DivMulCancel(d, k * q);
    }
  }

  lemma DividesTransitive(a: int, b: int, c: int)
    requires b > 0 && c > 0 && a % b == 0 && b % c == 0
    ensures a % c == 0
  {
    var q1, q2 := a / b, b / c;
    assert a == b * q1;
    assert b == c * q2;
    assert a == c * (q2 * q1);
    DivMulCancel(c, q2 * q1);
  }

  lemma {:induction false} HasPrimeDivisor(x: int) returns (p: int)
    requires x >= 2
    ensures Prime(p) && x % p == 0
    decreases x
  {
    if Prime(x) {
      p := x;
      DivMulCancel(x, 1);
    } else {
      var d :| 2 <= d < x && x % d == 0;
      p := HasPrimeDivisor(d);
      DividesTransitive(x, d, p);
    }
  }

  /** Euclid: there is a prime above every bound. */
  lemma PrimeAbove(n: nat) returns (p: int)
    ensures Prime(p) && p > n
  {
    var f := Factorial(n);
    p := HasPrimeDivisor(f + 1);
    if p <= n {
      FactorialDivisible(n, p);
      var q := f / p;
      assert f == p * q;
      ModUnique(f + 1, p, q, 1);
    }
  }

  /** The residues of 2^1 .. 2^(w-1) modulo p are pairwise distinct (2^0 may collide: it is never looked up). */
  predicate DistinctPowers(w: nat, p: int)
    requires p > 0
  {
    forall i, j :: 1 <= i < j < w ==> PowResidue(i, p) != PowResidue(j, p)
  }

  /** 2^i mod p, the table slot of 2^i. */
  function PowResidue(i: nat, p: int): int
    requires p > 0
  {
    Pow2(i) % p
  }

  /** Any modulus above 2^(w-1) keeps the powers 2^1 .. 2^(w-1) apart. */
  lemma LargeModulusDistinct(w: nat, p: int)
    requires p > 0 && w >= 1 && p > Pow2(w - 1)
    ensures DistinctPowers(w, p)
  {
    forall i, j | 1 <= i < j < w
      ensures PowResidue(i, p) != PowResidue(j, p)
    {
      Pow2StrictlyIncreasing(i, j);
      if j < w - 1 {
        Pow2StrictlyIncreasing(j, w - 1);
      }
      ModUnique(Pow2(i), p, 0, Pow2(i));
      ModUnique(Pow2(j), p, 0, Pow2(j));
    }
  }
}
