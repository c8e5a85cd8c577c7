// The submodule a generator set stands for: every combination of its
// vectors with ring coefficients, reduced modulo m. AddVector keeps it:
// after adding v, the stored vectors span exactly what the old ones and v
// spanned (GeneratorSpan.AddKeepsSpan).

module GeneratorSpan {
  import opened Arith
  import opened Ring
  import opened Lead
  import opened GeneratorSpec

  /** n coordinates, each in [0, m). */
  ghost predicate RingVec(b: BaseFunctions, vr: seq<int>)
  {
    |vr| == b.n && forall j :: 0 <= j < |vr| ==> 0 <= vr[j] < b.m
  }

  /** Coordinate j of vr, 0 past its end. */
  function At(vr: seq<int>, j: int): int
  {
    if 0 <= j < |vr| then vr[j] else 0
  }

  /** Coordinate j of Σ_k c[k] · g[k], unreduced, summed from the last vector down. */
  function Sum(c: seq<int>, g: seq<LeadVector>, j: int): int
    requires |c| == |g|
  {
    if |g| == 0 then 0
    else Sum(c[..|g| - 1], g[..|g| - 1], j) + c[|g| - 1] * At(g[|g| - 1].vr, j)
  }

  /** Σ_k c[k] · g[k] reduced modulo m, over n coordinates. */
  function Combination(b: BaseFunctions, c: seq<int>, g: seq<LeadVector>): (r: seq<int>)
    requires b.m > 0 && |c| == |g|
    ensures |r| == b.n
  {
    seq(b.n, j => Sum(c, g, j) % b.m)
  }

  /** vr is a combination of the vectors of g with ring coefficients. */
  ghost predicate InSpan(b: BaseFunctions, g: seq<LeadVector>, vr: seq<int>)
  {
    b.m > 0 && exists c: seq<int> :: |c| == |g| && Combination(b, c, g) == vr
  }

  /** Every vector of h lies in the span of g. */
  ghost predicate Spans(b: BaseFunctions, g: seq<LeadVector>, h: seq<LeadVector>)
  {
    forall k :: 0 <= k < |h| ==> InSpan(b, g, h[k].vr)
  }

  /** a · u + c · v, reduced modulo m. */
  function Mix(b: BaseFunctions, a: int, u: seq<int>, c: int, v: seq<int>): (r: seq<int>)
    requires b.m > 0 && |u| == b.n && |v| == b.n
    ensures |r| == b.n
  {
    seq(b.n, j requires 0 <= j < b.n => (a * u[j] + c * v[j]) % b.m)
  }

  // ------------------------------------------------------------ residues

  lemma ModShift(z: int, k: int, m: int)
    requires m > 0
    ensures (m * k + z) % m == z % m
  {
    var q := z / m;
    assert z == m * q + z % m;
    assert m * k + z == m * (k + q) + z % m;
    ModUnique(m * k + z, m, k + q, z % m);
  }

  /** Replacing a factor by its residue does not change the residue of a product. */
  lemma ModMulLeft(a: int, v: int, m: int)
    requires m > 0
    ensures (a * v) % m == ((a % m) * v) % m
  {
    var q := a / m;
    assert a == m * q + a % m;
    assert a * v == m * (q * v) + (a % m) * v;
    ModShift((a % m) * v, q * v, m);
  }

  lemma ModLinear(a: int, x: int, c: int, y: int, m: int)
    requires m > 0
    ensures (a * (x % m) + c * (y % m)) % m == (a * x + c * y) % m
  {
    var qx, qy := x / m, y / m;
    assert x == m * qx + x % m;
    assert y == m * qy + y % m;
    assert a * x == m * (a * qx) + a * (x % m);
    assert c * y == m * (c * qy) + c * (y % m);
    assert a * x + c * y == m * (a * qx + c * qy) + (a * (x % m) + c * (y % m));
    ModShift(a * (x % m) + c * (y % m), a * qx + c * qy, m);
  }

  /** An odd number has an inverse modulo 2^k. */
  lemma {:induction false} OddInverse(d: int, k: nat) returns (e: int)
    requires d % 2 == 1 && k >= 1
    ensures (e * d) % Pow2(k) == 1
  {
    if k == 1 {
      e := 1;
      assert Pow2(1) == 2;
    } else {
      var e0 := OddInverse(d, k - 1);
      var M := Pow2(k - 1);
      assert Pow2(k) == 2 * M;
      var t := (e0 * d) / M;
      assert e0 * d == M * t + 1;
      Pow2StrictlyIncreasing(0, k - 1);
      if t % 2 == 0 {
        e := e0;
        assert e * d == (2 * M) * (t / 2) + 1;
        ModUnique(e * d, 2 * M, t / 2, 1);
      } else {
        e := e0 + M;
        assert (t + d) % 2 == 0;
        assert e * d == M * t + 1 + M * d;
        assert M * t + M * d == M * (t + d);
        assert M * (t + d) == (2 * M) * ((t + d) / 2);
        ModUnique(e * d, 2 * M, (t + d) / 2, 1);
      }
    }
  }

  /** The step that undoes a combination: e · ((d · t − x · s) mod m) + e · x · s ≡ t when e · d ≡ 1. */
  lemma Undo(d: int, e: int, x: int, t: int, s: int, m: int)
    requires m > 0 && (e * d) % m == 1 && 0 <= t < m
    ensures (e * ((d * t - x * s) % m) + (e * x) * s) % m == t
  {
    var y := d * t - x * s;
    var q, r := y / m, y % m;
    assert y == m * q + r;
    MulOverSum(e, m, q, r);
    MulOverDifference(e, d, t, x, s);
    var lhs := e * r + (e * x) * s;
    var ed := e * d;
    assert lhs == m * (-(e * q)) + ed * t;
    ModShift(ed * t, -(e * q), m);
    assert lhs % m == (ed * t) % m;
    ModMulLeft(ed, t, m);
    assert (ed % m) * t == t;
    ModUnique(t, m, 0, t);
  }

  lemma MulOverSum(e: int, m: int, q: int, r: int)
    ensures e * (m * q + r) == m * (e * q) + e * r
  {
  }

  lemma MulOverDifference(e: int, d: int, t: int, x: int, s: int)
    ensures e * (d * t - x * s) == (e * d) * t - (e * x) * s
  {
  }

  // ------------------------------------------------------------ sums

  function Zeros(k: nat): (c: seq<int>)
    ensures |c| == k
  {
    seq(k, _ => 0)
  }

  function Unit(k: nat, i: int): (c: seq<int>)
    ensures |c| == k
  {
    seq(k, l => if l == i then 1 else 0)
  }

  function Lin(a: int, cu: seq<int>, c: int, cv: seq<int>): (r: seq<int>)
    requires |cu| == |cv|
    ensures |r| == |cu|
  {
    seq(|cu|, k requires 0 <= k < |cu| => a * cu[k] + c * cv[k])
  }

  lemma {:induction false} SumZeros(g: seq<LeadVector>, j: int)
    ensures Sum(Zeros(|g|), g, j) == 0
  {
    if |g| > 0 {
      assert Zeros(|g|)[..|g| - 1] == Zeros(|g| - 1);
      SumZeros(g[..|g| - 1], j);
    }
  }

  lemma {:induction false} SumUnit(g: seq<LeadVector>, i: nat, j: int)
    requires i < |g|
    ensures Sum(Unit(|g|, i), g, j) == At(g[i].vr, j)
  {
    var l := |g| - 1;
    if i < l {
      assert Unit(|g|, i)[..l] == Unit(l, i);
      SumUnit(g[..l], i, j);
    } else {
      assert Unit(|g|, i)[..l] == Zeros(l);
      SumZeros(g[..l], j);
    }
  }

  lemma {:induction false} SumLinear(a: int, cu: seq<int>, c: int, cv: seq<int>, g: seq<LeadVector>, j: int)
    requires |cu| == |cv| == |g|
    ensures Sum(Lin(a, cu, c, cv), g, j) == a * Sum(cu, g, j) + c * Sum(cv, g, j)
  {
    var l := |g| - 1;
    if |g| > 0 {
      assert Lin(a, cu, c, cv)[..l] == Lin(a, cu[..l], c, cv[..l]);
      SumLinear(a, cu[..l], c, cv[..l], g[..l], j);
      var su, sv, x := Sum(cu[..l], g[..l], j), Sum(cv[..l], g[..l], j), At(g[l].vr, j);
      LinearStep(a, c, su, sv, cu[l], cv[l], x);
    }
  }

  lemma LinearStep(a: int, c: int, su: int, sv: int, p: int, q: int, x: int)
    ensures a * su + c * sv + (a * p + c * q) * x == a * (su + p * x) + c * (sv + q * x)
  {
  }

  // ------------------------------------------------------------ spans

  lemma SpanZero(b: BaseFunctions, g: seq<LeadVector>)
    requires b.m > 0
    ensures InSpan(b, g, Zeros(b.n))
  {
    var c := Zeros(|g|);
    forall j | 0 <= j < b.n
      ensures Combination(b, c, g)[j] == 0
    {
      SumZeros(g, j);
    }
    assert Combination(b, c, g) == Zeros(b.n);
  }

  /** Each vector of g lies in its span. */
  lemma SpanMember(b: BaseFunctions, g: seq<LeadVector>, i: nat)
    requires b.m > 0 && i < |g| && RingVec(b, g[i].vr)
    ensures InSpan(b, g, g[i].vr)
  {
    var c := Unit(|g|, i);
    forall j | 0 <= j < b.n
      ensures Combination(b, c, g)[j] == g[i].vr[j]
    {
      SumUnit(g, i, j);
      ModUnique(g[i].vr[j], b.m, 0, g[i].vr[j]);
    }
    assert Combination(b, c, g) == g[i].vr;
  }

  /** The span is closed under a · u + c · v. */
  lemma SpanMix(b: BaseFunctions, g: seq<LeadVector>, u: seq<int>, a: int, v: seq<int>, c: int)
    requires InSpan(b, g, u) && InSpan(b, g, v)
    ensures |u| == b.n && |v| == b.n && InSpan(b, g, Mix(b, a, u, c, v))
  {
    var cu :| |cu| == |g| && Combination(b, cu, g) == u;
    var cv :| |cv| == |g| && Combination(b, cv, g) == v;
    var cw := Lin(a, cu, c, cv);
    forall j | 0 <= j < b.n
      ensures Combination(b, cw, g)[j] == Mix(b, a, u, c, v)[j]
    {
      SumLinear(a, cu, c, cv, g, j);
      ModLinear(a, Sum(cu, g, j), c, Sum(cv, g, j), b.m);
    }
    assert Combination(b, cw, g) == Mix(b, a, u, c, v);
  }

  /** A combination of vectors that g spans is spanned by g. */
  lemma {:induction false} CombinationSpanned(b: BaseFunctions, g: seq<LeadVector>, h: seq<LeadVector>, c: seq<int>)
    requires b.m > 0 && Spans(b, g, h) && |c| == |h|
    ensures InSpan(b, g, Combination(b, c, h))
  {
    if |h| == 0 {
      SpanZero(b, g);
      forall j | 0 <= j < b.n
        ensures Combination(b, c, h)[j] == 0
      {
      }
      assert Combination(b, c, h) == Zeros(b.n);
    } else {
      var l := |h| - 1;
      var h0, c0 := h[..l], c[..l];
      CombinationSpanned(b, g, h0, c0);
      var u := Combination(b, c0, h0);
      assert InSpan(b, g, h[l].vr);
      SpanMix(b, g, u, 1, h[l].vr, c[l]);
      CombinationLast(b, c, h);
    }
  }

  /** A combination is the combination of all but the last vector, plus the last one's term. */
  lemma CombinationLast(b: BaseFunctions, c: seq<int>, h: seq<LeadVector>)
    requires b.m > 0 && |c| == |h| > 0 && |h[|h| - 1].vr| == b.n
    ensures Combination(b, c, h) == Mix(b, 1, Combination(b, c[..|h| - 1], h[..|h| - 1]), c[|h| - 1], h[|h| - 1].vr)
  {
    var l := |h| - 1;
    var u := Combination(b, c[..l], h[..l]);
    forall j | 0 <= j < b.n
      ensures Combination(b, c, h)[j] == Mix(b, 1, u, c[l], h[l].vr)[j]
    {
      var x := h[l].vr[j];
      assert At(h[l].vr, j) == x;
      ModAddLeft(Sum(c[..l], h[..l], j), c[l] * x, b.m);
    }
  }

  /** Spanning is transitive: what h spans, g spans, when g spans every vector of h. */
  lemma SpanTrans(b: BaseFunctions, g: seq<LeadVector>, h: seq<LeadVector>, u: seq<int>)
    requires Spans(b, g, h) && InSpan(b, h, u)
    ensures InSpan(b, g, u)
  {
    var c :| |c| == |h| && Combination(b, c, h) == u;
    CombinationSpanned(b, g, h, c);
  }

  lemma SpansTrans(b: BaseFunctions, f: seq<LeadVector>, g: seq<LeadVector>, h: seq<LeadVector>)
    requires Spans(b, f, g) && Spans(b, g, h)
    ensures Spans(b, f, h)
  {
    forall k | 0 <= k < |h|
      ensures InSpan(b, f, h[k].vr)
    {
      SpanTrans(b, f, g, h[k].vr);
    }
  }

  /** A list spans every list made of its own ring vectors. */
  lemma SpansSub(b: BaseFunctions, g: seq<LeadVector>, h: seq<LeadVector>)
    requires b.m > 0
    requires forall x :: x in h ==> x in g && RingVec(b, x.vr)
    ensures Spans(b, g, h)
  {
    forall k | 0 <= k < |h|
      ensures InSpan(b, g, h[k].vr)
    {
      assert h[k] in h;
      var i :| 0 <= i < |g| && g[i] == h[k];
      SpanMember(b, g, i);
    }
  }

  lemma CanonicalRing(b: BaseFunctions, g: seq<LeadVector>)
    requires Canonical(b, g)
    ensures forall x :: x in g ==> RingVec(b, x.vr)
  {
    forall x | x in g
      ensures RingVec(b, x.vr)
    {
      var i :| 0 <= i < |g| && g[i] == x;
      WfRing(b, x);
    }
  }

  lemma WfRing(b: BaseFunctions, v: LeadVector)
    requires WfVec(b, v)
    ensures RingVec(b, v.vr)
  {
    forall j | 0 <= j < |v.vr|
      ensures 0 <= v.vr[j] < b.m
    {
      BoundedAt(v.vr, b.m, j);
    }
  }

  lemma SpansAppend(b: BaseFunctions, f: seq<LeadVector>, g: seq<LeadVector>, u: LeadVector)
    requires Spans(b, f, g) && InSpan(b, f, u.vr)
    ensures Spans(b, f, g + [u])
  {
  }

  /** The zero vector lies in every span. */
  lemma SpanZeroVector(b: BaseFunctions, f: seq<LeadVector>, w: LeadVector)
    requires b.m > 0 && |w.vr| == b.n && w.Valid() && w.li == -1
    ensures InSpan(b, f, w.vr)
  {
    SpanZero(b, f);
    assert w.vr == Zeros(b.n);
  }

  // ------------------------------------------------------------ the combinations AddVector forms

  /** The companion 2^(w-r) · v is a multiple of v. */
  lemma CompanionSpanned(b: BaseFunctions, f: seq<LeadVector>, v: LeadVector)
    requires b.WellFormed() && WfVec(b, v) && InSpan(b, f, v.vr)
    ensures InSpan(b, f, Companion(b, v).vr)
  {
    var x := Pow2(b.w - Reduction(b, v.Lentry()).0);
    SpanMix(b, f, v.vr, x, v.vr, 0);
    assert Companion(b, v).vr == Mix(b, x, v.vr, 0, v.vr);
  }

  /** ds · t − 2^(rt−rs) · dt · s lies in every span holding t and s. */
  lemma ResolventSpanned(b: BaseFunctions, f: seq<LeadVector>, t: LeadVector, s: LeadVector, ds: int, dt: int, rs: nat, rt: nat)
    requires b.WellFormed() && rs <= rt && |t.vr| == |s.vr|
    requires InSpan(b, f, t.vr) && InSpan(b, f, s.vr)
    ensures InSpan(b, f, Resolvent(b, t, s, ds, dt, rs, rt).vr)
  {
    var x := Pow2(rt - rs) * dt;
    SpanMix(b, f, t.vr, ds, s.vr, -x);
    ResolventIsMix(b, t, s, ds, dt, rs, rt);
  }

  lemma ResolventIsMix(b: BaseFunctions, t: LeadVector, s: LeadVector, ds: int, dt: int, rs: nat, rt: nat)
    requires b.WellFormed() && rs <= rt && |t.vr| == |s.vr| == b.n
    ensures Resolvent(b, t, s, ds, dt, rs, rt).vr == Mix(b, ds, t.vr, -(Pow2(rt - rs) * dt), s.vr)
  {
    var x := Pow2(rt - rs) * dt;
    var r := Resolvent(b, t, s, ds, dt, rs, rt).vr;
    forall j | 0 <= j < b.n
      ensures r[j] == Mix(b, ds, t.vr, -x, s.vr)[j]
    {
      Negate(ds * t.vr[j], x, s.vr[j]);
    }
  }

  lemma Negate(a: int, x: int, y: int)
    ensures a - x * y == a + (-x) * y
  {
  }

  /** With ds odd, t is recovered from s and the combination: ds is invertible modulo 2^w. */
  lemma ResolventRecovers(b: BaseFunctions, f: seq<LeadVector>, t: LeadVector, s: LeadVector, ds: int, dt: int, rs: nat, rt: nat)
    requires b.WellFormed() && rs <= rt && RingVec(b, t.vr) && |s.vr| == b.n && ds % 2 == 1
    requires InSpan(b, f, Resolvent(b, t, s, ds, dt, rs, rt).vr) && InSpan(b, f, s.vr)
    ensures InSpan(b, f, t.vr)
  {
    var e := OddInverse(ds, b.w);
    var x := Pow2(rt - rs) * dt;
    var r := Resolvent(b, t, s, ds, dt, rs, rt).vr;
    SpanMix(b, f, r, e, s.vr, e * x);
    forall j | 0 <= j < b.n
      ensures Mix(b, e, r, e * x, s.vr)[j] == t.vr[j]
    {
      assert r[j] == (ds * t.vr[j] - x * s.vr[j]) % b.m;
      Undo(ds, e, x, t.vr[j], s.vr[j], b.m);
    }
    assert Mix(b, e, r, e * x, s.vr) == t.vr;
  }

  // ------------------------------------------------------------ AddVector keeps the span

  /** The d that Reduction returns for a nonzero ring element is odd, hence invertible. */
  lemma OddCofactor(b: BaseFunctions, nr: int)
    requires b.Valid() && 0 < nr < b.m
    ensures Reduction(b, nr).1 % 2 == 1
  {
    ReductionCorrect(b, nr);
  }

  /** h spans g and v, and g with v spans h: the two lists span the same vectors. */
  ghost predicate SpanKept(b: BaseFunctions, g: seq<LeadVector>, v: LeadVector, h: seq<LeadVector>)
  {
    Spans(b, h, g) && InSpan(b, h, v.vr) && Spans(b, g + [v], h)
  }

  lemma {:induction false} AddSpan(b: BaseFunctions, g: seq<LeadVector>, v: LeadVector)
    requires b.Valid() && Canonical(b, g) && WfVec(b, v) && v.li >= 0
    ensures SpanKept(b, g, v, Add(b, g, v).0)
    decreases b.n - v.li, 3
  {
    WfRing(b, v);
    CanonicalRing(b, g);
    var i := Position(g, v.li);
    if i == |g| {
      AddAppend(b, g, v);
      var h := g + [v];
      SpansSub(b, h, g);
      SpanMember(b, h, |g|);
      SpansSub(b, h, h);
    } else if g[i].li == v.li {
      if Reduction(b, g[i].Lentry()).0 > Reduction(b, v.Lentry()).0 {
        assert Add(b, g, v) == AddDisplacing(b, g, v, i);
        DisplacingSpan(b, g, v, i);
      } else {
        assert Add(b, g, v) == AddCombined(b, g, v, i);
        CombinedSpan(b, g, v, i);
      }
    } else {
      assert Add(b, g, v).0 == InsertAt(g, i, v);
      InsertSpans(b, g, i, v);
    }
  }

  /** Inserting v anywhere gives a list with the same span as g followed by v. */
  lemma InsertSpans(b: BaseFunctions, g: seq<LeadVector>, i: nat, v: LeadVector)
    requires Canonical(b, g) && WfVec(b, v) && i <= |g| && b.m > 0
    ensures SpanKept(b, g, v, InsertAt(g, i, v))
  {
    WfRing(b, v);
    CanonicalRing(b, g);
    var h := InsertAt(g, i, v);
    assert g == g[..i] + g[i..];
    SpansSub(b, h, g);
    SpanMember(b, h, i);
    SpansSub(b, g + [v], h);
  }

  /** RemoveVector(i) and AddEven(v), the first two steps of Displace, and the spans they keep. */
  lemma DisplaceParts(b: BaseFunctions, g: seq<LeadVector>, v: LeadVector, i: nat) returns (g1: seq<LeadVector>, g2: seq<LeadVector>)
    requires b.Valid() && Canonical(b, g) && WfVec(b, v) && v.li >= 0
    requires i == Position(g, v.li) && i < |g| && g[i].li == v.li
    ensures g1 == RemoveAt(g, i) && Canonical(b, g2) && i <= |g2|
    ensures Spans(b, g2, g1) && Spans(b, g1 + [v], g2)
    ensures Displace(b, g, v, i) == InsertAt(g2, i, v)
    decreases b.n - v.li, 1
  {
    g1 := RemoveAt(g, i);
    RemoveCanonical(b, g, i);
    CanonicalRing(b, g1);
    WfRing(b, v);
    g2 := if EvenNonzero(v.Lentry()) then AddEven(b, g1, v) else g1;
    if EvenNonzero(v.Lentry()) {
      AddEvenSpan(b, g1, v);
    } else {
      SpansSub(b, g1, g1);
      SpansSub(b, g1 + [v], g1);
    }
    KeepsSelf(b, g1, v.li + 1);
    SlotAfterRemoval(b, g1, g2, v, i);
  }

  lemma {:induction false} AddEvenSpan(b: BaseFunctions, g: seq<LeadVector>, v: LeadVector)
    requires b.Valid() && Canonical(b, g) && WfVec(b, v) && v.li >= 0 && EvenNonzero(v.Lentry())
    ensures Spans(b, AddEven(b, g, v), g) && Spans(b, g + [v], AddEven(b, g, v))
    decreases b.n - v.li, 0
  {
    var c := Companion(b, v);
    CompanionAbove(b, v);
    WfRing(b, v);
    CanonicalRing(b, g);
    var gv := g + [v];
    SpansSub(b, gv, g);
    if c.li >= 0 {
      AddSpan(b, g, c);
      SpanMember(b, gv, |g|);
      CompanionSpanned(b, gv, v);
      SpansAppend(b, gv, g, c);
      SpansTrans(b, gv, g + [c], Add(b, g, c).0);
    } else {
      SpansSub(b, g, g);
    }
  }

  lemma {:induction false} CombinedSpan(b: BaseFunctions, g: seq<LeadVector>, v: LeadVector, i: nat)
    requires b.Valid() && Canonical(b, g) && WfVec(b, v) && v.li >= 0
    requires i == Position(g, v.li) && i < |g| && g[i].li == v.li
    requires Reduction(b, g[i].Lentry()).0 <= Reduction(b, v.Lentry()).0
    ensures SpanKept(b, g, v, AddCombined(b, g, v, i).0)
    decreases b.n - v.li, 2
  {
    WfRing(b, v);
    CanonicalRing(b, g);
    var s := g[i];
    var redG := Reduction(b, s.Lentry());
    var redV := Reduction(b, v.Lentry());
    OddCofactor(b, s.Lentry());
    var w := Resolvent(b, v, s, redG.1, redV.1, redG.0, redV.0);
    ResolventAbove(b, v, s, redG.1, redV.1, redG.0, redV.0);
    var gv := g + [v];
    SpansSub(b, gv, g);
    SpanMember(b, gv, |g|);
    SpanMember(b, gv, i);
    ResolventSpanned(b, gv, v, s, redG.1, redV.1, redG.0, redV.0);
    var h := AddCombined(b, g, v, i).0;
    if w.li >= 0 {
      AddSpan(b, g, w);
      assert h == Add(b, g, w).0;
      SpansAppend(b, gv, g, w);
      SpansTrans(b, gv, g + [w], h);
    } else {
      assert h == g;
      SpanZeroVector(b, g, w);
      SpansSub(b, g, g);
    }
    assert InSpan(b, h, s.vr);
    ResolventRecovers(b, h, v, s, redG.1, redV.1, redG.0, redV.0);
  }

  lemma {:induction false} DisplacingSpan(b: BaseFunctions, g: seq<LeadVector>, v: LeadVector, i: nat)
    requires b.Valid() && Canonical(b, g) && WfVec(b, v) && v.li >= 0
    requires i == Position(g, v.li) && i < |g| && g[i].li == v.li
    requires Reduction(b, g[i].Lentry()).0 > Reduction(b, v.Lentry()).0
    ensures SpanKept(b, g, v, AddDisplacing(b, g, v, i).0)
    decreases b.n - v.li, 2
  {
    var s := g[i];
    var redG := Reduction(b, s.Lentry());
    var redV := Reduction(b, v.Lentry());
    OddCofactor(b, v.Lentry());
    var g1, g2 := DisplaceParts(b, g, v, i);
    var g3 := Displace(b, g, v, i);
    InsertSpans(b, g2, i, v);
    var w := Resolvent(b, s, v, redV.1, redG.1, redV.0, redG.0);
    ResolventAbove(b, s, v, redV.1, redG.1, redV.0, redG.0);
    AfterDisplaceSpan(b, g, g3, v, i, w);
    var h := AddAfterDisplace(b, g, g3, v, i, w).0;
    DisplacedSpanned(b, g, v, i, g1, g2, g3, w, h);
    DisplacedSpans(b, g, v, i, g1, g2, g3, w, h);
    assert AddDisplacing(b, g, v, i).0 == h;
  }

  /** The last step of the displacing branch: the result spans g3 and the combination w, and g3 with w spans it. */
  lemma {:induction false} AfterDisplaceSpan(b: BaseFunctions, g: seq<LeadVector>, g3: seq<LeadVector>, v: LeadVector, i: nat, w: LeadVector)
    requires b.Valid() && Canonical(b, g3) && WfVec(b, w) && v.li >= 0 && (w.li == -1 || w.li > v.li)
    requires i == Position(g, v.li) && i < |g3| && g3[..i] == g[..i] && g3[i] == v
    requires forall k :: i < k < |g3| ==> g3[k].li > v.li
    ensures var h := AddAfterDisplace(b, g, g3, v, i, w).0;
      Spans(b, h, g3) && InSpan(b, h, w.vr) && (h == g3 || Spans(b, g3 + [w], h))
    decreases b.n - v.li, 1
  {
    if w.li >= 0 {
      AddSpan(b, g3, w);
    } else {
      CanonicalRing(b, g3);
      SpanZeroVector(b, g3, w);
      SpansSub(b, g3, g3);
    }
  }

  /** The displacing branch's result spans the old list and v. */
  lemma DisplacedSpanned(b: BaseFunctions, g: seq<LeadVector>, v: LeadVector, i: nat, g1: seq<LeadVector>, g2: seq<LeadVector>, g3: seq<LeadVector>, w: LeadVector, h: seq<LeadVector>)
    requires b.Valid() && Canonical(b, g) && WfVec(b, v) && i < |g| && g1 == RemoveAt(g, i)
    requires Reduction(b, v.Lentry()).0 < Reduction(b, g[i].Lentry()).0
    requires Reduction(b, v.Lentry()).1 % 2 == 1
    requires w == Resolvent(b, g[i], v, Reduction(b, v.Lentry()).1, Reduction(b, g[i].Lentry()).1, Reduction(b, v.Lentry()).0, Reduction(b, g[i].Lentry()).0)
    requires Spans(b, g2, g1) && Spans(b, g3, g2) && InSpan(b, g3, v.vr)
    requires Spans(b, h, g3) && InSpan(b, h, w.vr)
    ensures Spans(b, h, g) && InSpan(b, h, v.vr)
  {
    var s := g[i];
    WfRing(b, v);
    WfRing(b, s);
    SpansTrans(b, h, g3, g2);
    SpansTrans(b, h, g2, g1);
    SpanTrans(b, h, g3, v.vr);
    var redG := Reduction(b, s.Lentry());
    var redV := Reduction(b, v.Lentry());
    ResolventRecovers(b, h, s, v, redV.1, redG.1, redV.0, redG.0);
    SpansRemoved(b, h, g, i);
  }

  /** Spanning every vector but g[i], and g[i] as well, is spanning g. */
  lemma SpansRemoved(b: BaseFunctions, f: seq<LeadVector>, g: seq<LeadVector>, i: nat)
    requires i < |g| && Spans(b, f, RemoveAt(g, i)) && InSpan(b, f, g[i].vr)
    ensures Spans(b, f, g)
  {
    var g1 := RemoveAt(g, i);
    forall k | 0 <= k < |g|
      ensures InSpan(b, f, g[k].vr)
    {
      if k < i {
        assert g[k] == g1[k];
      } else if k > i {
        assert g[k] == g1[k - 1];
      }
    }
  }

  /** g followed by v spans g, v, and every list made by removing one vector of g. */
  lemma SpansAppended(b: BaseFunctions, g: seq<LeadVector>, v: LeadVector, i: nat)
    requires Canonical(b, g) && WfVec(b, v) && b.m > 0 && i < |g|
    ensures Spans(b, g + [v], g) && InSpan(b, g + [v], v.vr)
    ensures Spans(b, g + [v], RemoveAt(g, i) + [v])
  {
    var gv := g + [v];
    WfRing(b, v);
    forall k | 0 <= k < |gv|
      ensures InSpan(b, gv, gv[k].vr)
    {
      if k < |g| {
        WfRing(b, g[k]);
      }
      SpanMember(b, gv, k);
    }
    var g1 := RemoveAt(g, i);
    forall k | 0 <= k < |g1|
      ensures InSpan(b, gv, g1[k].vr)
    {
      if k < i {
        assert g1[k] == gv[k];
      } else {
        assert g1[k] == gv[k + 1];
      }
    }
    assert gv[|g|] == v;
    SpansAppend(b, gv, g1, v);
  }

  /** The old list and v span the displacing branch's result. */
  lemma DisplacedSpans(b: BaseFunctions, g: seq<LeadVector>, v: LeadVector, i: nat, g1: seq<LeadVector>, g2: seq<LeadVector>, g3: seq<LeadVector>, w: LeadVector, h: seq<LeadVector>)
    requires b.Valid() && Canonical(b, g) && WfVec(b, v) && i < |g| && g1 == RemoveAt(g, i)
    requires Reduction(b, v.Lentry()).0 < Reduction(b, g[i].Lentry()).0
    requires w == Resolvent(b, g[i], v, Reduction(b, v.Lentry()).1, Reduction(b, g[i].Lentry()).1, Reduction(b, v.Lentry()).0, Reduction(b, g[i].Lentry()).0)
    requires Spans(b, g1 + [v], g2) && Spans(b, g2 + [v], g3)
    requires h == g3 || Spans(b, g3 + [w], h)
    ensures Spans(b, g + [v], h)
  {
    var s := g[i];
    var gv := g + [v];
    SpansAppended(b, g, v, i);
    SpansTrans(b, gv, g1 + [v], g2);
    SpansAppend(b, gv, g2, v);
    SpansTrans(b, gv, g2 + [v], g3);
    if h != g3 {
      assert InSpan(b, gv, s.vr);
      var redG := Reduction(b, s.Lentry());
      var redV := Reduction(b, v.Lentry());
      ResolventSpanned(b, gv, s, v, redV.1, redG.1, redV.0, redG.0);
      SpansAppend(b, gv, g3, w);
      SpansTrans(b, gv, g3 + [w], h);
    }
  }

  /** AddVector keeps the submodule: the stored vectors afterwards span exactly what the old ones and v spanned. */
  lemma AddKeepsSpan(b: BaseFunctions, g: seq<LeadVector>, v: LeadVector)
    requires b.Valid() && Canonical(b, g) && WfVec(b, v) && v.li >= 0
    ensures forall u :: InSpan(b, Add(b, g, v).0, u) <==> InSpan(b, g + [v], u)
  {
    var h := Add(b, g, v).0;
    AddSpan(b, g, v);
    SpansAppend(b, h, g, v);
    forall u
      ensures InSpan(b, h, u) <==> InSpan(b, g + [v], u)
    {
      if InSpan(b, h, u) {
        SpanTrans(b, g + [v], h, u);
      }
      if InSpan(b, g + [v], u) {
        SpanTrans(b, h, g + [v], u);
      }
    }
  }

  /** The stored list after AddVector(vs[0]), AddVector(vs[1]), ... on an empty set. */
  function AddAll(b: BaseFunctions, vs: seq<LeadVector>): (g: seq<LeadVector>)
    requires b.Valid() && forall k :: 0 <= k < |vs| ==> WfVec(b, vs[k]) && vs[k].li >= 0
    ensures Canonical(b, g)
  {
    if |vs| == 0 then [] else Add(b, AddAll(b, vs[..|vs| - 1]), vs[|vs| - 1]).0
  }

  lemma {:induction false} AddAllSpans(b: BaseFunctions, vs: seq<LeadVector>)
    requires b.Valid() && forall k :: 0 <= k < |vs| ==> WfVec(b, vs[k]) && vs[k].li >= 0
    ensures Spans(b, AddAll(b, vs), vs) && Spans(b, vs, AddAll(b, vs))
  {
    if |vs| > 0 {
      var l := |vs| - 1;
      var p, v := vs[..l], vs[l];
      var g := AddAll(b, p);
      var h := AddAll(b, vs);
      assert vs == p + [v];
      AddAllSpans(b, p);
      AddSpan(b, g, v);
      SpansTrans(b, h, g, p);
      SpansAppend(b, h, p, v);
      forall k | 0 <= k < |vs|
        ensures InSpan(b, vs, vs[k].vr)
      {
        WfRing(b, vs[k]);
        SpanMember(b, vs, k);
      }
      SpansTrans(b, vs, p, g);
      SpansAppend(b, vs, g, v);
      SpansTrans(b, vs, g + [v], h);
    }
  }

  /**
   * A generator set built by AddVector stands for the submodule spanned by
   * everything added to it: the stored vectors span exactly that.
   */
  lemma AddAllKeepsSpan(b: BaseFunctions, vs: seq<LeadVector>)
    requires b.Valid() && forall k :: 0 <= k < |vs| ==> WfVec(b, vs[k]) && vs[k].li >= 0
    ensures forall u :: InSpan(b, AddAll(b, vs), u) <==> InSpan(b, vs, u)
  {
    AddAllSpans(b, vs);
    forall u
      ensures InSpan(b, AddAll(b, vs), u) <==> InSpan(b, vs, u)
    {
      if InSpan(b, AddAll(b, vs), u) {
        SpanTrans(b, vs, AddAll(b, vs), u);
      }
      if InSpan(b, vs, u) {
        SpanTrans(b, AddAll(b, vs), vs, u);
      }
    }
  }

  /**
   * AddVector answers true for a vector its set already spans. Over Z/4 with
   * two coordinates, adding (2, 1) to the empty set stores only (2, 1): its
   * companion 2 · (2, 1) = (0, 2), which AddEven writes at the free slot, is
   * overwritten by GArr[i] = tvr. Adding (0, 2) afterwards appends it and
   * reports a change, although (0, 2) = 2 · (2, 1).
   */
  lemma RedundantVectorReported()
    ensures Z4().Valid() && WfVec(Z4(), V21()) && WfVec(Z4(), V02()) && Canonical(Z4(), [V21()])
    ensures Add(Z4(), [], V21()) == ([V21()], true)
    ensures InSpan(Z4(), [V21()], V02().vr)
    ensures Add(Z4(), [V21()], V02()) == ([V21(), V02()], true)
  {
    ExampleShapes();
    AppendTwice(Z4(), V21(), V02());
    DoubleSpanned();
  }

  /** Two vectors with ascending leading indices, added to an empty set, are both stored. */
  lemma AppendTwice(b: BaseFunctions, v1: LeadVector, v2: LeadVector)
    requires b.Valid() && WfVec(b, v1) && WfVec(b, v2) && 0 <= v1.li < v2.li
    ensures Canonical(b, [v1])
    ensures Add(b, [], v1) == ([v1], true)
    ensures Add(b, [v1], v2) == ([v1, v2], true)
  {
    PositionAt([], v1.li, 0);
    AddAppend(b, [], v1);
    PositionAt([v1], v2.li, 1);
    AddAppend(b, [v1], v2);
    assert [v1] + [v2] == [v1, v2];
  }

  /** (0, 2) = 2 · (2, 1) in Z/4. */
  lemma DoubleSpanned()
    ensures InSpan(Z4(), [V21()], V02().vr)
  {
    var c: seq<int>, g: seq<LeadVector> := [2], [V21()];
    assert c[..0] == [] && g[..0] == [];
    assert Sum(c, g, 0) == 2 * At(V21().vr, 0) == 4;
    assert Sum(c, g, 1) == 2 * At(V21().vr, 1) == 2;
    assert Combination(Z4(), c, g) == V02().vr;
  }

  /** Z/4 with two coordinates (w = 2, var_n = 2: one program variable and the constant), and the vectors (2, 1) and (0, 2). */
  function Z4(): BaseFunctions
  {
    BaseFunctions(2, 2, 4, 2, RTable(2, 2))
  }

  function V21(): LeadVector
  {
    LeadVector([2, 1], 0)
  }

  function V02(): LeadVector
  {
    LeadVector([0, 2], 1)
  }

  lemma ExampleShapes()
    ensures Z4().Valid() && WfVec(Z4(), V21()) && WfVec(Z4(), V02()) && Canonical(Z4(), [V21()])
  {
    assert Pow2(2) == 4;
    assert LeadIndex([2, 1]) == 0;
    assert LeadIndex([0, 2]) == 1 by {
      assert [0, 2][1..] == [2];
    }
    assert [2, 1][1..] == [1] && [0, 2][1..] == [2];
    assert Bounded([2, 1], 4) by {
      assert [2, 1][1..][1..] == [];
    }
    assert Bounded([0, 2], 4) by {
      assert [0, 2][1..][1..] == [];
    }
  }
}
