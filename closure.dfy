// What CreateGeneratorSets computes, stated over spans: once the worklist
// is empty, every matrix M of an edge u -> t maps the span of u's generator
// set into the span of t's, and maps every vector at all into it when u is
// main, whose identity rows were queued at the start.

module Closure {
  import opened Arith
  import opened Ring
  import opened Lead
  import opened GeneratorSpec
  import opened GeneratorSpan
  import Transition
  import opened Analyzer

  // ------------------------------------------------------------ linearity

  /** The images M * g[k] of a list of vectors, as the worklist builds them. */
  ghost function Images(b: BaseFunctions, mx: Matrix, g: seq<LeadVector>): (r: seq<LeadVector>)
    requires b.Valid() && Transition.Shaped(b.n, mx) && forall k :: 0 <= k < |g| ==> WfVec(b, g[k])
    ensures |r| == |g| && forall k :: 0 <= k < |g| ==> r[k] == ImageVector(b, mx, g[k])
  {
    seq(|g|, k requires 0 <= k < |g| => ImageVector(b, mx, g[k]))
  }

  /** Coordinate j of Σ_k c[k] · (M g[k]), unreduced. */
  ghost function DotSum(b: BaseFunctions, c: seq<int>, g: seq<LeadVector>, mx: Matrix, j: nat): int
    requires Transition.Shaped(b.n, mx) && j < b.n && |c| == |g| && forall k :: 0 <= k < |g| ==> |g[k].vr| == b.n
  {
    if |g| == 0 then 0
    else DotSum(b, c[..|g| - 1], g[..|g| - 1], mx, j) + c[|g| - 1] * Dot(mx, g[|g| - 1].vr, j, b.n)
  }

  /** Σ_k c[k] · g[k], unreduced, coordinate by coordinate. */
  ghost function SumVec(b: BaseFunctions, c: seq<int>, g: seq<LeadVector>): (r: seq<int>)
    requires |c| == |g|
    ensures |r| == b.n
  {
    seq(b.n, a => Sum(c, g, a))
  }

  lemma MulDistributes(p: int, u: int, c: int, v: int)
    ensures p * (u + c * v) == p * u + c * (p * v)
  {
  }

  /** Dot is linear in its vector. */
  lemma {:induction false} DotSplit(mx: Matrix, w: seq<int>, u: seq<int>, c: int, v: seq<int>, j: nat, k: nat)
    requires k <= |mx| && k <= |w| && k <= |u| && k <= |v| && forall a :: 0 <= a < k ==> j < |mx[a]|
    requires forall a :: 0 <= a < k ==> w[a] == u[a] + c * v[a]
    ensures Dot(mx, w, j, k) == Dot(mx, u, j, k) + c * Dot(mx, v, j, k)
  {
    if k > 0 {
      DotSplit(mx, w, u, c, v, j, k - 1);
      MulDistributes(mx[k - 1][j], u[k - 1], c, v[k - 1]);
    }
  }

  lemma {:induction false} DotZeros(mx: Matrix, w: seq<int>, j: nat, k: nat)
    requires k <= |mx| && k <= |w| && forall a :: 0 <= a < k ==> j < |mx[a]| && w[a] == 0
    ensures Dot(mx, w, j, k) == 0
  {
    if k > 0 {
      DotZeros(mx, w, j, k - 1);
    }
  }

  /** M applied to a combination, unreduced: the combination of the images. */
  lemma {:induction false} DotSumVec(b: BaseFunctions, c: seq<int>, g: seq<LeadVector>, mx: Matrix, j: nat)
    requires Transition.Shaped(b.n, mx) && j < b.n && |c| == |g| && forall k :: 0 <= k < |g| ==> |g[k].vr| == b.n
    ensures Dot(mx, SumVec(b, c, g), j, b.n) == DotSum(b, c, g, mx, j)
  {
    if |g| == 0 {
      DotZeros(mx, SumVec(b, c, g), j, b.n);
    } else {
      var l := |g| - 1;
      DotSumVec(b, c[..l], g[..l], mx, j);
      forall a | 0 <= a < b.n
        ensures SumVec(b, c, g)[a] == SumVec(b, c[..l], g[..l])[a] + c[l] * g[l].vr[a]
      {
        assert At(g[l].vr, a) == g[l].vr[a];
      }
      DotSplit(mx, SumVec(b, c, g), SumVec(b, c[..l], g[..l]), c[l], g[l].vr, j, b.n);
    }
  }

  /** Entries that agree modulo m give dot products that agree modulo m. */
  lemma {:induction false} DotCongruent(mx: Matrix, u: seq<int>, v: seq<int>, j: nat, k: nat, m: int)
    requires m > 0 && k <= |mx| && k <= |u| && k <= |v| && forall a :: 0 <= a < k ==> j < |mx[a]|
    requires forall a :: 0 <= a < k ==> u[a] % m == v[a] % m
    ensures Dot(mx, u, j, k) % m == Dot(mx, v, j, k) % m
  {
    if k > 0 {
      DotCongruent(mx, u, v, j, k - 1, m);
      var p := mx[k - 1][j];
      ModLinear(1, Dot(mx, u, j, k - 1), p, u[k - 1], m);
      ModLinear(1, Dot(mx, v, j, k - 1), p, v[k - 1], m);
    }
  }

  /** The combination of the images, reduced, agrees with the unreduced one modulo m. */
  lemma {:induction false} SumImages(b: BaseFunctions, c: seq<int>, g: seq<LeadVector>, mx: Matrix, j: nat)
    requires b.Valid() && Transition.Shaped(b.n, mx) && j < b.n && |c| == |g| && forall k :: 0 <= k < |g| ==> WfVec(b, g[k])
    ensures Sum(c, Images(b, mx, g), j) % b.m == DotSum(b, c, g, mx, j) % b.m
  {
    if |g| > 0 {
      var l := |g| - 1;
      var im := Images(b, mx, g);
      assert im[..l] == Images(b, mx, g[..l]);
      SumImages(b, c[..l], g[..l], mx, j);
      var d := Dot(mx, g[l].vr, j, b.n);
      assert At(im[l].vr, j) == d % b.m;
      assert Sum(c, im, j) == Sum(c[..l], im[..l], j) + c[l] * (d % b.m);
      ResidueStep(Sum(c[..l], im[..l], j), DotSum(b, c[..l], g[..l], mx, j), c[l], d, b.m);
    }
  }

  /** One step of both sums: equal residues stay equal after adding c · d, reduced or not. */
  lemma ResidueStep(s: int, t: int, c: int, d: int, m: int)
    requires m > 0 && s % m == t % m
    ensures (s + c * (d % m)) % m == (t + c * d) % m
  {
    var x := c * (d % m);
    ModAddLeft(s, x, m);
    ModAddLeft(t, x, m);
    assert (s + x) % m == (t + x) % m;
    ModLinear(1, t, c, d, m);
    assert 1 * (t % m) + x == t % m + x;
    assert 1 * t + c * d == t + c * d;
  }

  /** M * (Σ c[k] · g[k]) = Σ c[k] · (M g[k]), modulo m. */
  lemma ImageOfCombination(b: BaseFunctions, mx: Matrix, c: seq<int>, g: seq<LeadVector>)
    requires b.Valid() && Transition.Shaped(b.n, mx) && |c| == |g| && forall k :: 0 <= k < |g| ==> WfVec(b, g[k])
    ensures MatVec(mx, Combination(b, c, g), b.n, b.m) == Combination(b, c, Images(b, mx, g))
  {
    var y := Combination(b, c, g);
    var l := MatVec(mx, y, b.n, b.m);
    var r := Combination(b, c, Images(b, mx, g));
    forall j | 0 <= j < b.n
      ensures l[j] == r[j]
    {
      forall a | 0 <= a < b.n
        ensures y[a] % b.m == SumVec(b, c, g)[a] % b.m
      {
        ModUnique(y[a], b.m, 0, y[a]);
      }
      DotCongruent(mx, y, SumVec(b, c, g), j, b.n, b.m);
      DotSumVec(b, c, g, mx, j);
      SumImages(b, c, g, mx, j);
    }
  }

  /** M maps the span of g into the span of g's images. */
  lemma ImageInSpan(b: BaseFunctions, mx: Matrix, g: seq<LeadVector>, y: seq<int>)
    requires b.Valid() && Transition.Shaped(b.n, mx) && forall k :: 0 <= k < |g| ==> WfVec(b, g[k])
    requires InSpan(b, g, y)
    ensures |y| == b.n && InSpan(b, Images(b, mx, g), MatVec(mx, y, b.n, b.m))
  {
    var c :| |c| == |g| && Combination(b, c, g) == y;
    ImageOfCombination(b, mx, c, g);
  }

  /** What g spans, M maps into what g's images span. */
  lemma ImagesSpans(b: BaseFunctions, mx: Matrix, g: seq<LeadVector>, h: seq<LeadVector>)
    requires b.Valid() && Transition.Shaped(b.n, mx)
    requires forall k :: 0 <= k < |g| ==> WfVec(b, g[k])
    requires forall k :: 0 <= k < |h| ==> WfVec(b, h[k])
    requires Spans(b, g, h)
    ensures Spans(b, Images(b, mx, g), Images(b, mx, h))
  {
    forall k | 0 <= k < |h|
      ensures InSpan(b, Images(b, mx, g), Images(b, mx, h)[k].vr)
    {
      ImageInSpan(b, mx, g, h[k].vr);
    }
  }

  // ------------------------------------------------------------ spans of lists

  lemma {:induction false} SumPadded(c: seq<int>, f: seq<LeadVector>, h: seq<LeadVector>, j: int)
    requires |c| == |f|
    ensures Sum(c + Zeros(|h|), f + h, j) == Sum(c, f, j)
  {
    if |h| > 0 {
      var l := |f + h| - 1;
      assert (c + Zeros(|h|))[..l] == c + Zeros(|h| - 1);
      assert (f + h)[..l] == f + h[..|h| - 1];
      SumPadded(c, f, h[..|h| - 1], j);
    } else {
      assert c + Zeros(0) == c && f + h == f;
    }
  }

  /** More vectors span at least as much. */
  lemma SpanPadded(b: BaseFunctions, f: seq<LeadVector>, h: seq<LeadVector>, y: seq<int>)
    requires InSpan(b, f, y)
    ensures InSpan(b, f + h, y)
  {
    var c :| |c| == |f| && Combination(b, c, f) == y;
    var c' := c + Zeros(|h|);
    forall j | 0 <= j < b.n
      ensures Combination(b, c', f + h)[j] == y[j]
    {
      SumPadded(c, f, h, j);
    }
    assert Combination(b, c', f + h) == y;
  }

  lemma SpansPadded(b: BaseFunctions, f: seq<LeadVector>, h: seq<LeadVector>, g: seq<LeadVector>)
    requires Spans(b, f, g)
    ensures Spans(b, f + h, g)
  {
    forall k | 0 <= k < |g|
      ensures InSpan(b, f + h, g[k].vr)
    {
      SpanPadded(b, f, h, g[k].vr);
    }
  }

  lemma SpansConcat(b: BaseFunctions, f: seq<LeadVector>, g: seq<LeadVector>, h: seq<LeadVector>)
    ensures Spans(b, f, g + h) <==> Spans(b, f, g) && Spans(b, f, h)
  {
    if Spans(b, f, g) && Spans(b, f, h) {
      forall k | 0 <= k < |g + h|
        ensures InSpan(b, f, (g + h)[k].vr)
      {
        if k >= |g| {
          assert (g + h)[k] == h[k - |g|];
        }
      }
    }
    if Spans(b, f, g + h) {
      forall k | 0 <= k < |g|
        ensures InSpan(b, f, g[k].vr)
      {
        assert (g + h)[k] == g[k];
      }
      forall k | 0 <= k < |h|
        ensures InSpan(b, f, h[k].vr)
      {
        assert (g + h)[|g| + k] == h[k];
      }
    }
  }

  /** Every vector of a list of ring vectors. */
  ghost predicate AllWf(b: BaseFunctions, g: seq<LeadVector>)
  {
    forall k :: 0 <= k < |g| ==> WfVec(b, g[k])
  }

  lemma AllWfConcat(b: BaseFunctions, g: seq<LeadVector>, h: seq<LeadVector>)
    ensures AllWf(b, g + h) <==> AllWf(b, g) && AllWf(b, h)
  {
    if AllWf(b, g + h) {
      forall k | 0 <= k < |g|
        ensures WfVec(b, g[k])
      {
        assert (g + h)[k] == g[k];
      }
      forall k | 0 <= k < |h|
        ensures WfVec(b, h[k])
      {
        assert (g + h)[|g| + k] == h[k];
      }
    }
  }

  lemma ImagesConcat(b: BaseFunctions, mx: Matrix, g: seq<LeadVector>, h: seq<LeadVector>)
    requires b.Valid() && Transition.Shaped(b.n, mx) && AllWf(b, g) && AllWf(b, h)
    ensures AllWf(b, g + h) && Images(b, mx, g + h) == Images(b, mx, g) + Images(b, mx, h)
  {
    AllWfConcat(b, g, h);
  }

  /** A list spans each of its own ring vectors, wherever they sit in another list. */
  lemma SpansOwn(b: BaseFunctions, f: seq<LeadVector>, h: seq<LeadVector>)
    requires b.Valid() && AllWf(b, h) && forall x :: x in h ==> x in f
    ensures Spans(b, f, h)
  {
    forall x | x in h
      ensures RingVec(b, x.vr)
    {
      var k :| 0 <= k < |h| && h[k] == x;
      WfRing(b, x);
    }
    SpansSub(b, f, h);
  }

  // ------------------------------------------------------------ the queue

  /** The vectors queued at node u, in queue order. */
  ghost function QueuedAt(q: seq<QueueItem>, u: nat): seq<LeadVector>
  {
    if |q| == 0 then []
    else QueuedAt(q[..|q| - 1], u) + (if q[|q| - 1].node == u then [q[|q| - 1].vector] else [])
  }

  lemma {:induction false} QueuedConcat(p: seq<QueueItem>, r: seq<QueueItem>, u: nat)
    ensures QueuedAt(p + r, u) == QueuedAt(p, u) + QueuedAt(r, u)
  {
    if |r| > 0 {
      assert (p + r)[..|p + r| - 1] == p + r[..|r| - 1];
      QueuedConcat(p, r[..|r| - 1], u);
    } else {
      assert p + r == p;
    }
  }

  lemma {:induction false} QueuedWf(b: BaseFunctions, prg: Program, keys: set<EdgeId>, q: seq<QueueItem>, u: nat)
    requires QueueReady(b, prg, keys, q)
    ensures AllWf(b, QueuedAt(q, u))
  {
    if |q| > 0 {
      QueuedWf(b, prg, keys, q[..|q| - 1], u);
      AllWfConcat(b, QueuedAt(q[..|q| - 1], u), if q[|q| - 1].node == u then [q[|q| - 1].vector] else []);
    }
  }

  lemma CanonicalWf(b: BaseFunctions, g: seq<LeadVector>)
    requires Canonical(b, g)
    ensures AllWf(b, g)
  {
  }

  lemma QueueReadyConcat(b: BaseFunctions, prg: Program, keys: set<EdgeId>, p: seq<QueueItem>, r: seq<QueueItem>)
    ensures QueueReady(b, prg, keys, p + r) <==> QueueReady(b, prg, keys, p) && QueueReady(b, prg, keys, r)
  {
    if QueueReady(b, prg, keys, p + r) {
      forall i | 0 <= i < |p|
        ensures ItemReady(b, prg, keys, p[i])
      {
        assert (p + r)[i] == p[i];
      }
      forall i | 0 <= i < |r|
        ensures ItemReady(b, prg, keys, r[i])
      {
        assert (p + r)[|p| + i] == r[i];
      }
    }
  }

  // ------------------------------------------------------------ one step

  /**
   * From (cs, q) to (cs', q'): the queue only gains items at its end, every
   * set keeps what it spanned, and whatever a set at u now holds is spanned
   * by what it held and the vectors newly queued at u.
   */
  ghost predicate Grows(b: BaseFunctions, cs: seq<seq<LeadVector>>, q: seq<QueueItem>,
                        cs': seq<seq<LeadVector>>, q': seq<QueueItem>)
  {
    && |cs'| == |cs| && |q| <= |q'| && q'[..|q|] == q
    && forall u :: 0 <= u < |cs| ==> Spans(b, cs'[u], cs[u]) && Spans(b, cs[u] + QueuedAt(q'[|q|..], u), cs'[u])
  }

  lemma GrowsRefl(b: BaseFunctions, cs: seq<seq<LeadVector>>, q: seq<QueueItem>)
    requires b.Valid() && AllCanonical(b, cs)
    ensures Grows(b, cs, q, cs, q)
  {
    forall u | 0 <= u < |cs|
      ensures Spans(b, cs[u], cs[u]) && Spans(b, cs[u] + QueuedAt(q[|q|..], u), cs[u])
    {
      assert q[|q|..] == [];
      assert cs[u] + QueuedAt(q[|q|..], u) == cs[u];
      SpansOwn(b, cs[u], cs[u]);
    }
  }

  lemma GrowsTrans(b: BaseFunctions, prg: Program, keys: set<EdgeId>,
                   cs0: seq<seq<LeadVector>>, q0: seq<QueueItem>, cs1: seq<seq<LeadVector>>, q1: seq<QueueItem>,
                   cs2: seq<seq<LeadVector>>, q2: seq<QueueItem>)
    requires b.Valid() && Grows(b, cs0, q0, cs1, q1) && Grows(b, cs1, q1, cs2, q2) && QueueReady(b, prg, keys, q2)
    ensures Grows(b, cs0, q0, cs2, q2)
  {
    assert q2[..|q0|] == q0 by {
      assert q2[..|q0|] == q2[..|q1|][..|q0|];
    }
    assert q2[|q0|..] == q1[|q0|..] + q2[|q1|..] by {
      assert q2 == q1 + q2[|q1|..];
    }
    assert q2 == q2[..|q1|] + q2[|q1|..];
    QueueReadyConcat(b, prg, keys, q1, q2[|q1|..]);
    forall u | 0 <= u < |cs0|
      ensures Spans(b, cs2[u], cs0[u]) && Spans(b, cs0[u] + QueuedAt(q2[|q0|..], u), cs2[u])
    {
      SpansTrans(b, cs2[u], cs1[u], cs0[u]);
      var n1, n2 := QueuedAt(q1[|q0|..], u), QueuedAt(q2[|q1|..], u);
      QueuedConcat(q1[|q0|..], q2[|q1|..], u);
      var f := cs0[u] + n1 + n2;
      assert cs0[u] + QueuedAt(q2[|q0|..], u) == f;
      SpansPadded(b, cs0[u] + n1, n2, cs1[u]);
      QueuedWf(b, prg, keys, q2[|q1|..], u);
      SpansOwn(b, f, n2);
      SpansConcat(b, f, cs1[u], n2);
      SpansTrans(b, f, cs1[u] + n2, cs2[u]);
    }
  }

  /** An edge's matrices are (n+1) x (n+1) ring matrices. */
  lemma EdgeShaped(b: BaseFunctions, prg: Program, ms: map<EdgeId, seq<Matrix>>, e: EdgeId)
    requires Built(b, prg, ms) && e in ms
    ensures IsEdge(prg, e) && forall a :: 0 <= a < |ms[e]| ==> Transition.Shaped(b.n, ms[e][a])
  {
    assert EdgeBuilt(b, prg, e, ms[e]);
    Transition.MatricesShaped(b, prg.graph[e.0][e.1].ast, prg.vars);
  }

  /** The images of v under every matrix of edge e lie in the span of the set at e's target. */
  ghost predicate Delivered(b: BaseFunctions, prg: Program, ms: map<EdgeId, seq<Matrix>>, cs: seq<seq<LeadVector>>,
                            e: EdgeId, v: LeadVector)
    requires Ready(b, prg, ms, cs) && e in ms && WfVec(b, v)
  {
    EdgeShaped(b, prg, ms, e);
    Spans(b, cs[Target(prg, e)], Offered(b, ms[e], v))
  }

  /** Delivered along each of the first k edges out of from. */
  ghost predicate DeliveredFrom(b: BaseFunctions, prg: Program, ms: map<EdgeId, seq<Matrix>>, cs: seq<seq<LeadVector>>,
                                from: nat, k: nat, v: LeadVector)
    requires Ready(b, prg, ms, cs) && AllSet(prg, ms.Keys, from) && k <= |prg.graph[from]| && WfVec(b, v)
  {
    forall k' :: 0 <= k' < k ==> Delivered(b, prg, ms, cs, (from, k'), v)
  }

  lemma OfferStepGrows(b: BaseFunctions, prg: Program, keys: set<EdgeId>, cs: seq<seq<LeadVector>>,
                       q: seq<QueueItem>, to: nat, mx: Matrix, v: LeadVector)
    requires b.Valid() && AllCanonical(b, cs) && to < |cs| && AllSet(prg, keys, to)
    requires QueueReady(b, prg, keys, q) && Transition.Shaped(b.n, mx) && WfVec(b, v)
    ensures var r := OfferStep(b, prg, keys, cs, q, to, mx, v); Grows(b, cs, q, r.0, r.1)
  {
    var r := OfferStep(b, prg, keys, cs, q, to, mx, v);
    var x := ImageVector(b, mx, v);
    if x.li < 0 {
      GrowsRefl(b, cs, q);
    } else {
      var (g, added) := Add(b, cs[to], x);
      AddSpan(b, cs[to], x);
      AddProgress(b, cs[to], x);
      var nq := r.1[|q|..];
      assert nq == if added then [QueueItem(to, x)] else [];
      forall u | 0 <= u < |cs|
        ensures Spans(b, r.0[u], cs[u]) && Spans(b, cs[u] + QueuedAt(nq, u), r.0[u])
      {
        assert QueuedAt(nq, u) == if added && u == to then [x] else [] by {
          if added {
            assert nq[..0] == [];
          }
        }
        if u == to && added {
        } else {
          assert r.0[u] == cs[u];
          assert cs[u] + QueuedAt(nq, u) == cs[u];
          SpansOwn(b, cs[u], cs[u]);
        }
      }
    }
  }

  /** After one offer, the target's set spans what it spanned and the image offered. */
  lemma OfferStepDelivers(b: BaseFunctions, prg: Program, keys: set<EdgeId>, cs: seq<seq<LeadVector>>,
                          q: seq<QueueItem>, to: nat, mx: Matrix, v: LeadVector)
    requires b.Valid() && AllCanonical(b, cs) && to < |cs| && AllSet(prg, keys, to)
    requires QueueReady(b, prg, keys, q) && Transition.Shaped(b.n, mx) && WfVec(b, v)
    ensures var r := OfferStep(b, prg, keys, cs, q, to, mx, v);
            Spans(b, r.0[to], cs[to]) && InSpan(b, r.0[to], ImageVector(b, mx, v).vr)
  {
    var x := ImageVector(b, mx, v);
    if x.li < 0 {
      SpansOwn(b, cs[to], cs[to]);
      SpanZeroVector(b, cs[to], x);
    } else {
      AddSpan(b, cs[to], x);
    }
  }

  lemma {:induction false} OfferFoldGrows(b: BaseFunctions, prg: Program, keys: set<EdgeId>, cs: seq<seq<LeadVector>>,
                                          q: seq<QueueItem>, to: nat, mats: seq<Matrix>, v: LeadVector)
    requires b.Valid() && AllCanonical(b, cs) && to < |cs| && AllSet(prg, keys, to)
    requires QueueReady(b, prg, keys, q) && WfVec(b, v)
    requires forall a :: 0 <= a < |mats| ==> Transition.Shaped(b.n, mats[a])
    ensures var r := OfferFold(b, prg, keys, cs, q, to, mats, v); Grows(b, cs, q, r.0, r.1)
  {
    if |mats| == 0 {
      GrowsRefl(b, cs, q);
    } else {
      var l := |mats| - 1;
      var r1 := OfferFold(b, prg, keys, cs, q, to, mats[..l], v);
      OfferFoldGrows(b, prg, keys, cs, q, to, mats[..l], v);
      var r := OfferStep(b, prg, keys, r1.0, r1.1, to, mats[l], v);
      OfferStepGrows(b, prg, keys, r1.0, r1.1, to, mats[l], v);
      GrowsTrans(b, prg, keys, cs, q, r1.0, r1.1, r.0, r.1);
    }
  }

  /** The images of v under each matrix of mats, in order. */
  ghost function Offered(b: BaseFunctions, mats: seq<Matrix>, v: LeadVector): (r: seq<LeadVector>)
    requires b.Valid() && WfVec(b, v)
    requires forall a :: 0 <= a < |mats| ==> Transition.Shaped(b.n, mats[a])
    ensures |r| == |mats| && forall a :: 0 <= a < |mats| ==> r[a] == ImageVector(b, mats[a], v)
  {
    if |mats| == 0 then []
    else Offered(b, mats[..|mats| - 1], v) + [ImageVector(b, mats[|mats| - 1], v)]
  }

  lemma SpansSnoc(b: BaseFunctions, g: seq<LeadVector>, g1: seq<LeadVector>, h: seq<LeadVector>, x: LeadVector)
    requires Spans(b, g, g1) && Spans(b, g1, h) && InSpan(b, g, x.vr)
    ensures Spans(b, g, h + [x])
  {
    SpansTrans(b, g, g1, h);
    forall k | 0 <= k < |h| + 1
      ensures InSpan(b, g, (h + [x])[k].vr)
    {
      if k < |h| {
        assert (h + [x])[k] == h[k];
      }
    }
  }

  /** After pushing v through all of mats, the target's set spans what it spanned and every image. */
  lemma {:induction false} OfferFoldDelivers(b: BaseFunctions, prg: Program, keys: set<EdgeId>, cs: seq<seq<LeadVector>>,
                                             q: seq<QueueItem>, to: nat, mats: seq<Matrix>, v: LeadVector)
    requires b.Valid() && AllCanonical(b, cs) && to < |cs| && AllSet(prg, keys, to)
    requires QueueReady(b, prg, keys, q) && WfVec(b, v)
    requires forall a :: 0 <= a < |mats| ==> Transition.Shaped(b.n, mats[a])
    ensures var r := OfferFold(b, prg, keys, cs, q, to, mats, v);
            Spans(b, r.0[to], cs[to]) && Spans(b, r.0[to], Offered(b, mats, v))
  {
    var r := OfferFold(b, prg, keys, cs, q, to, mats, v);
    if |mats| == 0 {
      SpansOwn(b, cs[to], cs[to]);
    } else {
      var l := |mats| - 1;
      var r1 := OfferFold(b, prg, keys, cs, q, to, mats[..l], v);
      OfferFoldDelivers(b, prg, keys, cs, q, to, mats[..l], v);
      assert r == OfferStep(b, prg, keys, r1.0, r1.1, to, mats[l], v);
      OfferStepDelivers(b, prg, keys, r1.0, r1.1, to, mats[l], v);
      SpansTrans(b, r.0[to], r1.0[to], cs[to]);
      SpansSnoc(b, r.0[to], r1.0[to], Offered(b, mats[..l], v), ImageVector(b, mats[l], v));
    }
  }

  /** Edge (from, k): its matrix set, all of them shaped, and a target whose edges are all set. */
  lemma EdgeReady(b: BaseFunctions, prg: Program, ms: map<EdgeId, seq<Matrix>>, cs: seq<seq<LeadVector>>, from: nat, k: nat)
    requires Ready(b, prg, ms, cs) && AllSet(prg, ms.Keys, from) && k < |prg.graph[from]|
    ensures (from, k) in ms && Target(prg, (from, k)) < |cs| && AllSet(prg, ms.Keys, Target(prg, (from, k)))
    ensures forall a :: 0 <= a < |ms[(from, k)]| ==> Transition.Shaped(b.n, ms[(from, k)][a])
  {
    EdgeShaped(b, prg, ms, (from, k));
  }

  /** PropagateFold over k + 1 edges is OfferFold along edge k after PropagateFold over k. */
  lemma PropagateFoldLast(b: BaseFunctions, prg: Program, ms: map<EdgeId, seq<Matrix>>,
                          cs: seq<seq<LeadVector>>, q: seq<QueueItem>, from: nat, k: nat, k1: nat, v: LeadVector,
                          r1: (seq<seq<LeadVector>>, seq<QueueItem>))
    requires Ready(b, prg, ms, cs) && AllSet(prg, ms.Keys, from) && k < |prg.graph[from]| && k1 == k + 1
    requires QueueReady(b, prg, ms.Keys, q) && WfVec(b, v)
    requires r1 == PropagateFold(b, prg, ms, cs, q, from, k, v)
    requires (from, k) in ms && AllSet(prg, ms.Keys, Target(prg, (from, k)))
    requires forall a :: 0 <= a < |ms[(from, k)]| ==> Transition.Shaped(b.n, ms[(from, k)][a])
    ensures PropagateFold(b, prg, ms, cs, q, from, k1, v)
              == OfferFold(b, prg, ms.Keys, r1.0, r1.1, Target(prg, (from, k)), ms[(from, k)], v)
  {
  }

  /** Offering along one more edge after a growth is still a growth. */
  lemma GrowsThenOffer(b: BaseFunctions, prg: Program, keys: set<EdgeId>, cs: seq<seq<LeadVector>>, q: seq<QueueItem>,
                       cs1: seq<seq<LeadVector>>, q1: seq<QueueItem>, to: nat, mats: seq<Matrix>, v: LeadVector)
    requires b.Valid() && AllCanonical(b, cs1) && to < |cs1| && AllSet(prg, keys, to)
    requires QueueReady(b, prg, keys, q1) && WfVec(b, v)
    requires forall a :: 0 <= a < |mats| ==> Transition.Shaped(b.n, mats[a])
    requires Grows(b, cs, q, cs1, q1)
    ensures var r := OfferFold(b, prg, keys, cs1, q1, to, mats, v); Grows(b, cs, q, r.0, r.1)
  {
    var r := OfferFold(b, prg, keys, cs1, q1, to, mats, v);
    OfferFoldGrows(b, prg, keys, cs1, q1, to, mats, v);
    GrowsTrans(b, prg, keys, cs, q, cs1, q1, r.0, r.1);
  }

  lemma {:induction false} PropagateFoldGrows(b: BaseFunctions, prg: Program, ms: map<EdgeId, seq<Matrix>>,
                                              cs: seq<seq<LeadVector>>, q: seq<QueueItem>, from: nat, k: nat, v: LeadVector)
    requires Ready(b, prg, ms, cs) && AllSet(prg, ms.Keys, from) && k <= |prg.graph[from]|
    requires QueueReady(b, prg, ms.Keys, q) && WfVec(b, v)
    ensures var r := PropagateFold(b, prg, ms, cs, q, from, k, v); Grows(b, cs, q, r.0, r.1)
  {
    if k == 0 {
      GrowsRefl(b, cs, q);
    } else {
      var j: nat := k - 1;
      var r1 := PropagateFold(b, prg, ms, cs, q, from, j, v);
      PropagateFoldGrows(b, prg, ms, cs, q, from, j, v);
      EdgeReady(b, prg, ms, r1.0, from, j);
      PropagateFoldLast(b, prg, ms, cs, q, from, j, k, v, r1);
      GrowsThenOffer(b, prg, ms.Keys, cs, q, r1.0, r1.1, Target(prg, (from, j)), ms[(from, j)], v);
    }
  }

  /** Sets that grow keep every delivery made before. */
  lemma DeliveredFromKept(b: BaseFunctions, prg: Program, ms: map<EdgeId, seq<Matrix>>,
                          cs: seq<seq<LeadVector>>, cs': seq<seq<LeadVector>>, from: nat, k: nat, v: LeadVector)
    requires Ready(b, prg, ms, cs) && Ready(b, prg, ms, cs') && AllSet(prg, ms.Keys, from) && k <= |prg.graph[from]|
    requires WfVec(b, v) && forall u :: 0 <= u < |cs| ==> Spans(b, cs'[u], cs[u])
    requires DeliveredFrom(b, prg, ms, cs, from, k, v)
    ensures DeliveredFrom(b, prg, ms, cs', from, k, v)
  {
    forall k' | 0 <= k' < k
      ensures Delivered(b, prg, ms, cs', (from, k'), v)
    {
      var e := (from, k');
      assert Delivered(b, prg, ms, cs, e, v);
      EdgeShaped(b, prg, ms, e);
      var t := Target(prg, e);
      SpansTrans(b, cs'[t], cs[t], Offered(b, ms[e], v));
    }
  }

  /** Offering along edge k keeps the deliveries along the edges before it and makes its own. */
  lemma DeliversThenOffer(b: BaseFunctions, prg: Program, ms: map<EdgeId, seq<Matrix>>,
                          cs1: seq<seq<LeadVector>>, q1: seq<QueueItem>, from: nat, k: nat, v: LeadVector,
                          r: (seq<seq<LeadVector>>, seq<QueueItem>))
    requires Ready(b, prg, ms, cs1) && AllSet(prg, ms.Keys, from) && k < |prg.graph[from]|
    requires QueueReady(b, prg, ms.Keys, q1) && WfVec(b, v)
    requires DeliveredFrom(b, prg, ms, cs1, from, k, v)
    requires (from, k) in ms && AllSet(prg, ms.Keys, Target(prg, (from, k)))
    requires forall a :: 0 <= a < |ms[(from, k)]| ==> Transition.Shaped(b.n, ms[(from, k)][a])
    requires r == OfferFold(b, prg, ms.Keys, cs1, q1, Target(prg, (from, k)), ms[(from, k)], v)
    requires Ready(b, prg, ms, r.0)
    ensures DeliveredFrom(b, prg, ms, r.0, from, k + 1, v)
  {
    var e := (from, k);
    var t := Target(prg, e);
    OfferFoldGrows(b, prg, ms.Keys, cs1, q1, t, ms[e], v);
    OfferFoldDelivers(b, prg, ms.Keys, cs1, q1, t, ms[e], v);
    DeliveredFromKept(b, prg, ms, cs1, r.0, from, k, v);
    assert Delivered(b, prg, ms, r.0, e, v);
  }

  /** After the first k edges out of from, each of them has delivered v's images. */
  lemma {:induction false} PropagateFoldDelivers(b: BaseFunctions, prg: Program, ms: map<EdgeId, seq<Matrix>>,
                                                 cs: seq<seq<LeadVector>>, q: seq<QueueItem>, from: nat, k: nat, v: LeadVector)
    requires Ready(b, prg, ms, cs) && AllSet(prg, ms.Keys, from) && k <= |prg.graph[from]|
    requires QueueReady(b, prg, ms.Keys, q) && WfVec(b, v)
    ensures var r := PropagateFold(b, prg, ms, cs, q, from, k, v); DeliveredFrom(b, prg, ms, r.0, from, k, v)
  {
    if k > 0 {
      var j: nat := k - 1;
      var r1 := PropagateFold(b, prg, ms, cs, q, from, j, v);
      PropagateFoldDelivers(b, prg, ms, cs, q, from, j, v);
      EdgeReady(b, prg, ms, r1.0, from, j);
      PropagateFoldLast(b, prg, ms, cs, q, from, j, k, v, r1);
      DeliversThenOffer(b, prg, ms, r1.0, r1.1, from, j, v, PropagateFold(b, prg, ms, cs, q, from, k, v));
    }
  }

  // ------------------------------------------------------------ the invariant on lists

  lemma ImagesWf(b: BaseFunctions, mx: Matrix, g: seq<LeadVector>)
    requires b.Valid() && Transition.Shaped(b.n, mx) && AllWf(b, g)
    ensures AllWf(b, Images(b, mx, g))
  {
  }

  /**
   * Everything the worklist owes along one matrix M: the images of cu are
   * spanned by the set ct at the target together with the images of the
   * vectors still pending at the source.
   */
  ghost predicate Covers(b: BaseFunctions, mx: Matrix, ct: seq<LeadVector>, pending: seq<LeadVector>, cu: seq<LeadVector>)
    requires b.Valid() && Transition.Shaped(b.n, mx) && AllWf(b, pending) && AllWf(b, cu)
  {
    Spans(b, ct + Images(b, mx, pending), Images(b, mx, cu))
  }

  /** The parts of the old debt that the new target set and pending list still cover. */
  lemma CoversOld(b: BaseFunctions, mx: Matrix, ct: seq<LeadVector>, ct': seq<LeadVector>,
                  x: seq<LeadVector>, q1: seq<LeadVector>, nq: seq<LeadVector>, h: seq<LeadVector>)
    requires b.Valid() && Transition.Shaped(b.n, mx)
    requires AllWf(b, x) && AllWf(b, q1) && AllWf(b, nq) && AllWf(b, h)
    requires Spans(b, ct', ct) && Spans(b, ct', Images(b, mx, x))
    requires (AllWfConcat(b, x, q1); Covers(b, mx, ct, x + q1, h))
    ensures (AllWfConcat(b, q1, nq); Spans(b, ct' + Images(b, mx, q1 + nq), Images(b, mx, h)))
    ensures Spans(b, ct' + Images(b, mx, q1 + nq), Images(b, mx, nq))
  {
    AllWfConcat(b, x, q1);
    AllWfConcat(b, q1, nq);
    ImagesConcat(b, mx, x, q1);
    ImagesConcat(b, mx, q1, nq);
    ImagesWf(b, mx, q1);
    ImagesWf(b, mx, nq);
    var iq1, inq := Images(b, mx, q1), Images(b, mx, nq);
    var t' := ct' + (iq1 + inq);
    SpansPadded(b, ct', iq1 + inq, ct);
    SpansPadded(b, ct', iq1 + inq, Images(b, mx, x));
    SpansOwn(b, t', iq1);
    SpansOwn(b, t', inq);
    SpansConcat(b, t', Images(b, mx, x), iq1);
    SpansConcat(b, t', ct, Images(b, mx, x + q1));
    SpansTrans(b, t', ct + Images(b, mx, x + q1), Images(b, mx, h));
  }

  /** Replacing cu by what spans its successor cu' keeps the debt on cu' + s covered. */
  lemma CoversNew(b: BaseFunctions, mx: Matrix, t': seq<LeadVector>, cu: seq<LeadVector>, cu': seq<LeadVector>,
                  nq: seq<LeadVector>, s: seq<LeadVector>)
    requires b.Valid() && Transition.Shaped(b.n, mx)
    requires AllWf(b, cu) && AllWf(b, cu') && AllWf(b, nq) && AllWf(b, s)
    requires Spans(b, cu + nq, cu')
    requires (AllWfConcat(b, cu, s); Spans(b, t', Images(b, mx, cu + s)))
    requires Spans(b, t', Images(b, mx, nq))
    ensures (AllWfConcat(b, cu', s); Spans(b, t', Images(b, mx, cu' + s)))
  {
    AllWfConcat(b, cu, s);
    AllWfConcat(b, cu', s);
    AllWfConcat(b, cu, nq);
    AllWfConcat(b, cu + nq, s);
    var f := cu + nq + s;
    SpansPadded(b, cu + nq, s, cu');
    SpansOwn(b, f, s);
    SpansConcat(b, f, cu', s);
    ImagesSpans(b, mx, f, cu' + s);
    ImagesConcat(b, mx, cu, s);
    ImagesConcat(b, mx, cu, nq);
    ImagesConcat(b, mx, cu + nq, s);
    SpansConcat(b, t', Images(b, mx, cu), Images(b, mx, s));
    SpansConcat(b, t', Images(b, mx, cu), Images(b, mx, nq));
    SpansConcat(b, t', Images(b, mx, cu + nq), Images(b, mx, s));
    SpansTrans(b, t', Images(b, mx, f), Images(b, mx, cu' + s));
  }

  /**
   * One worklist step on lists: x (empty, or the head item when it sits at
   * the source) is taken off the pending list and its image delivered to the
   * target, whose set grows from ct to ct'; cu grows to cu' within the span of
   * cu and the newly pending nq. The debt on cu' + s is still covered.
   */
  lemma CoversStep(b: BaseFunctions, mx: Matrix, ct: seq<LeadVector>, ct': seq<LeadVector>,
                   x: seq<LeadVector>, q1: seq<LeadVector>, nq: seq<LeadVector>,
                   cu: seq<LeadVector>, cu': seq<LeadVector>, s: seq<LeadVector>)
    requires b.Valid() && Transition.Shaped(b.n, mx)
    requires AllWf(b, x) && AllWf(b, q1) && AllWf(b, nq) && AllWf(b, cu) && AllWf(b, cu') && AllWf(b, s)
    requires Spans(b, ct', ct) && Spans(b, ct', Images(b, mx, x)) && Spans(b, cu + nq, cu')
    requires (AllWfConcat(b, x, q1); AllWfConcat(b, cu, s); Covers(b, mx, ct, x + q1, cu + s))
    ensures (AllWfConcat(b, q1, nq); AllWfConcat(b, cu', s); Covers(b, mx, ct', q1 + nq, cu' + s))
  {
    AllWfConcat(b, x, q1);
    AllWfConcat(b, cu, s);
    CoversOld(b, mx, ct, ct', x, q1, nq, cu + s);
    AllWfConcat(b, q1, nq);
    CoversNew(b, mx, ct' + Images(b, mx, q1 + nq), cu, cu', nq, s);
    AllWfConcat(b, cu', s);
  }

  // ------------------------------------------------------------ the invariant on the worklist

  /**
   * Edge e's a-th matrix M, from u to t: M maps u's set and the seeds q0
   * queued at u into the span of t's set and the images of what is still
   * queued at u.
   */
  ghost predicate EdgeClosed(b: BaseFunctions, prg: Program, ms: map<EdgeId, seq<Matrix>>, q0: seq<QueueItem>,
                             cs: seq<seq<LeadVector>>, q: seq<QueueItem>, e: EdgeId, a: nat)
    requires Ready(b, prg, ms, cs) && QueueReady(b, prg, ms.Keys, q0) && QueueReady(b, prg, ms.Keys, q)
    requires e in ms && a < |ms[e]|
  {
    EdgeShaped(b, prg, ms, e);
    QueuedWf(b, prg, ms.Keys, q, e.0);
    QueuedWf(b, prg, ms.Keys, q0, e.0);
    CanonicalWf(b, cs[e.0]);
    AllWfConcat(b, cs[e.0], QueuedAt(q0, e.0));
    Covers(b, ms[e][a], cs[Target(prg, e)], QueuedAt(q, e.0), cs[e.0] + QueuedAt(q0, e.0))
  }

  ghost predicate Closed(b: BaseFunctions, prg: Program, ms: map<EdgeId, seq<Matrix>>, q0: seq<QueueItem>,
                         cs: seq<seq<LeadVector>>, q: seq<QueueItem>)
    requires Ready(b, prg, ms, cs) && QueueReady(b, prg, ms.Keys, q0) && QueueReady(b, prg, ms.Keys, q)
  {
    forall e, a :: e in ms && 0 <= a < |ms[e]| ==> EdgeClosed(b, prg, ms, q0, cs, q, e, a)
  }

  /** The vectors a single item queues at u. */
  lemma QueuedOne(item: QueueItem, u: nat)
    ensures QueuedAt([item], u) == if item.node == u then [item.vector] else []
  {
    assert [item][..0] == [];
  }

  /** The head item, pushed along every edge out of its node, has its image delivered along e. */
  lemma HeadDelivered(b: BaseFunctions, prg: Program, ms: map<EdgeId, seq<Matrix>>, cs': seq<seq<LeadVector>>,
                      item: QueueItem, e: EdgeId, a: nat)
    requires Ready(b, prg, ms, cs') && ItemReady(b, prg, ms.Keys, item) && e in ms && a < |ms[e]|
    requires DeliveredFrom(b, prg, ms, cs', item.node, |prg.graph[item.node]|, item.vector)
    ensures (EdgeShaped(b, prg, ms, e); QueuedWf(b, prg, ms.Keys, [item], e.0);
             Spans(b, cs'[Target(prg, e)], Images(b, ms[e][a], QueuedAt([item], e.0))))
  {
    EdgeShaped(b, prg, ms, e);
    QueuedOne(item, e.0);
    var x := QueuedAt([item], e.0);
    var mx := ms[e][a];
    if item.node == e.0 {
      assert Delivered(b, prg, ms, cs', (item.node, e.1), item.vector);
      assert Offered(b, ms[e], item.vector)[a] == ImageVector(b, mx, item.vector);
      assert Images(b, mx, x) == [ImageVector(b, mx, item.vector)];
    } else {
      assert Images(b, mx, x) == [];
    }
  }

  /** One worklist step keeps edge e's debt covered. */
  lemma EdgeStepClosed(b: BaseFunctions, prg: Program, ms: map<EdgeId, seq<Matrix>>, q0: seq<QueueItem>,
                       cs: seq<seq<LeadVector>>, q: seq<QueueItem>, cs': seq<seq<LeadVector>>, q': seq<QueueItem>,
                       e: EdgeId, a: nat)
    requires Ready(b, prg, ms, cs) && Ready(b, prg, ms, cs') && QueueReady(b, prg, ms.Keys, q0)
    requires QueueReady(b, prg, ms.Keys, q) && QueueReady(b, prg, ms.Keys, q') && |q| > 0
    requires Grows(b, cs, q[1..], cs', q')
    requires ItemReady(b, prg, ms.Keys, q[0])
    requires DeliveredFrom(b, prg, ms, cs', q[0].node, |prg.graph[q[0].node]|, q[0].vector)
    requires e in ms && a < |ms[e]| && EdgeClosed(b, prg, ms, q0, cs, q, e, a)
    ensures EdgeClosed(b, prg, ms, q0, cs', q', e, a)
  {
    EdgeShaped(b, prg, ms, e);
    var u, t, mx := e.0, Target(prg, e), ms[e][a];
    var q1 := q[1..];
    var nq := q'[|q1|..];
    assert q == [q[0]] + q1;
    assert q' == q1 + nq;
    QueueReadyConcat(b, prg, ms.Keys, [q[0]], q1);
    QueueReadyConcat(b, prg, ms.Keys, q1, nq);
    QueuedConcat([q[0]], q1, u);
    QueuedConcat(q1, nq, u);
    var x, p1, pn, s := QueuedAt([q[0]], u), QueuedAt(q1, u), QueuedAt(nq, u), QueuedAt(q0, u);
    QueuedWf(b, prg, ms.Keys, [q[0]], u);
    QueuedWf(b, prg, ms.Keys, q1, u);
    QueuedWf(b, prg, ms.Keys, nq, u);
    QueuedWf(b, prg, ms.Keys, q0, u);
    CanonicalWf(b, cs[u]);
    CanonicalWf(b, cs'[u]);
    HeadDelivered(b, prg, ms, cs', q[0], e, a);
    assert Covers(b, mx, cs[t], x + p1, cs[u] + s);
    CoversStep(b, mx, cs[t], cs'[t], x, p1, pn, cs[u], cs'[u], s);
  }

  /** One step of Iterate keeps every edge's debt covered. */
  lemma StepClosed(b: BaseFunctions, prg: Program, ms: map<EdgeId, seq<Matrix>>, q0: seq<QueueItem>,
                   cs: seq<seq<LeadVector>>, q: seq<QueueItem>)
    requires Ready(b, prg, ms, cs) && QueueReady(b, prg, ms.Keys, q0) && QueueReady(b, prg, ms.Keys, q) && |q| > 0
    requires Closed(b, prg, ms, q0, cs, q)
    ensures assert ItemReady(b, prg, ms.Keys, q[0]);
            var r := PropagateFold(b, prg, ms, cs, q[1..], q[0].node, |prg.graph[q[0].node]|, q[0].vector);
            Closed(b, prg, ms, q0, r.0, r.1)
  {
    assert ItemReady(b, prg, ms.Keys, q[0]);
    QueueReadyConcat(b, prg, ms.Keys, [q[0]], q[1..]);
    assert q == [q[0]] + q[1..];
    var from, v := q[0].node, q[0].vector;
    var r := PropagateFold(b, prg, ms, cs, q[1..], from, |prg.graph[from]|, v);
    PropagateFoldGrows(b, prg, ms, cs, q[1..], from, |prg.graph[from]|, v);
    PropagateFoldDelivers(b, prg, ms, cs, q[1..], from, |prg.graph[from]|, v);
    forall e, a | e in ms && 0 <= a < |ms[e]|
      ensures EdgeClosed(b, prg, ms, q0, r.0, r.1, e, a)
    {
      EdgeStepClosed(b, prg, ms, q0, cs, q, r.0, r.1, e, a);
    }
  }

  /** The worklist run to its end keeps every edge's debt covered, with nothing left pending. */
  lemma {:induction false} IterateClosed(b: BaseFunctions, prg: Program, ms: map<EdgeId, seq<Matrix>>, q0: seq<QueueItem>,
                                         cs: seq<seq<LeadVector>>, q: seq<QueueItem>)
    requires Ready(b, prg, ms, cs) && QueueReady(b, prg, ms.Keys, q0) && QueueReady(b, prg, ms.Keys, q)
    requires Closed(b, prg, ms, q0, cs, q)
    ensures Closed(b, prg, ms, q0, Iterate(b, prg, ms, cs, q), [])
    decreases RankSum(b, cs), |q|
  {
    if |q| > 0 {
      RankSumNonNegative(b, cs);
      assert ItemReady(b, prg, ms.Keys, q[0]);
      var r := PropagateFold(b, prg, ms, cs, q[1..], q[0].node, |prg.graph[q[0].node]|, q[0].vector);
      StepClosed(b, prg, ms, q0, cs, q);
      IterateClosed(b, prg, ms, q0, r.0, r.1);
    }
  }

  /** With every set empty and only q0 queued, the debt is exactly the pending images. */
  lemma ClosedAtStart(b: BaseFunctions, prg: Program, ms: map<EdgeId, seq<Matrix>>, q0: seq<QueueItem>)
    requires Ready(b, prg, ms, EmptySets(|prg.graph|)) && QueueReady(b, prg, ms.Keys, q0)
    ensures Closed(b, prg, ms, q0, EmptySets(|prg.graph|), q0)
  {
    var cs := EmptySets(|prg.graph|);
    forall e, a | e in ms && 0 <= a < |ms[e]|
      ensures EdgeClosed(b, prg, ms, q0, cs, q0, e, a)
    {
      EdgeShaped(b, prg, ms, e);
      var s := QueuedAt(q0, e.0);
      QueuedWf(b, prg, ms.Keys, q0, e.0);
      var im := Images(b, ms[e][a], s);
      ImagesWf(b, ms[e][a], s);
      assert cs[e.0] + s == s;
      assert cs[Target(prg, e)] + im == im;
      SpansOwn(b, im, im);
    }
  }

  /**
   * The worklist from empty sets and the queue q0 ends with sets closed
   * under every edge: each matrix M of an edge u -> t maps whatever u's set
   * spans, and whatever the vectors of q0 queued at u span, into the span of
   * t's set.
   */
  lemma IterateCovers(b: BaseFunctions, prg: Program, ms: map<EdgeId, seq<Matrix>>, q0: seq<QueueItem>,
                      e: EdgeId, a: nat)
    requires Ready(b, prg, ms, EmptySets(|prg.graph|)) && QueueReady(b, prg, ms.Keys, q0)
    requires e in ms && a < |ms[e]|
    ensures var cs := Iterate(b, prg, ms, EmptySets(|prg.graph|), q0);
            (EdgeShaped(b, prg, ms, e);
             QueuedWf(b, prg, ms.Keys, q0, e.0);
             CanonicalWf(b, cs[e.0]);
             AllWfConcat(b, cs[e.0], QueuedAt(q0, e.0));
             Spans(b, cs[Target(prg, e)], Images(b, ms[e][a], cs[e.0] + QueuedAt(q0, e.0))))
  {
    var cs := Iterate(b, prg, ms, EmptySets(|prg.graph|), q0);
    ClosedAtStart(b, prg, ms, q0);
    IterateClosed(b, prg, ms, q0, EmptySets(|prg.graph|), q0);
    assert EdgeClosed(b, prg, ms, q0, cs, [], e, a);
    EdgeShaped(b, prg, ms, e);
    var mx := ms[e][a];
    QueuedWf(b, prg, ms.Keys, q0, e.0);
    CanonicalWf(b, cs[e.0]);
    AllWfConcat(b, cs[e.0], QueuedAt(q0, e.0));
    assert cs[Target(prg, e)] + Images(b, mx, QueuedAt([], e.0)) == cs[Target(prg, e)];
  }

  // ------------------------------------------------------------ the result

  lemma {:induction false} SumPrefixed(c: seq<int>, f: seq<LeadVector>, h: seq<LeadVector>, j: int)
    requires |c| == |h|
    ensures Sum(Zeros(|f|) + c, f + h, j) == Sum(c, h, j)
  {
    if |h| > 0 {
      var l := |f + h| - 1;
      assert (Zeros(|f|) + c)[..l] == Zeros(|f|) + c[..|h| - 1];
      assert (f + h)[..l] == f + h[..|h| - 1];
      SumPrefixed(c[..|h| - 1], f, h[..|h| - 1], j);
    } else {
      assert Zeros(|f|) + c == Zeros(|f|) && f + h == f;
      SumZeros(f, j);
    }
  }

  /** More vectors in front span at least as much. */
  lemma SpanPrefixed(b: BaseFunctions, f: seq<LeadVector>, h: seq<LeadVector>, y: seq<int>)
    requires InSpan(b, h, y)
    ensures InSpan(b, f + h, y)
  {
    var c :| |c| == |h| && Combination(b, c, h) == y;
    var c' := Zeros(|f|) + c;
    forall j | 0 <= j < b.n
      ensures Combination(b, c', f + h)[j] == y[j]
    {
      SumPrefixed(c, f, h, j);
    }
    assert Combination(b, c', f + h) == y;
  }

  /** The rows of the n x n identity matrix, each leading at its own index. */
  ghost function IdentityRows(n: nat): (rows: seq<LeadVector>)
    ensures |rows| == n && forall i :: 0 <= i < n ==> rows[i] == LeadVector(IdentityMatrix(n)[i], i)
  {
    seq(n, i requires 0 <= i < n => LeadVector(IdentityMatrix(n)[i], i))
  }

  /** What the seeds queue at node is exactly the identity rows, and nothing at any other node. */
  lemma {:induction false} SeedsQueued(b: BaseFunctions, node: nat, u: nat, k: nat)
    requires k <= b.n
    ensures QueuedAt(IdentitySeeds(b, node)[..k], u) == if u == node then IdentityRows(b.n)[..k] else []
  {
    if k > 0 {
      assert IdentitySeeds(b, node)[..k][..k - 1] == IdentitySeeds(b, node)[..k - 1];
      SeedsQueued(b, node, u, k - 1);
      if u == node {
        assert IdentityRows(b.n)[..k] == IdentityRows(b.n)[..k - 1] + [IdentityRows(b.n)[k - 1]];
      }
    }
  }

  /** Σ_{i<k} y[i] · e_i at coordinate j is y[j] for j < k and 0 beyond. */
  lemma {:induction false} SumIdentity(y: seq<int>, n: nat, k: nat, j: int)
    requires k <= n == |y|
    ensures Sum(y[..k], IdentityRows(n)[..k], j) == if 0 <= j < k then y[j] else 0
  {
    if k > 0 {
      assert y[..k][..k - 1] == y[..k - 1];
      assert IdentityRows(n)[..k][..k - 1] == IdentityRows(n)[..k - 1];
      SumIdentity(y, n, k - 1, j);
      assert At(IdentityRows(n)[k - 1].vr, j) == if j == k - 1 then 1 else 0;
    }
  }

  /** The identity rows span every ring vector. */
  lemma IdentitySpans(b: BaseFunctions, y: seq<int>)
    requires b.m > 0 && RingVec(b, y)
    ensures InSpan(b, IdentityRows(b.n), y)
  {
    forall j | 0 <= j < b.n
      ensures Combination(b, y, IdentityRows(b.n))[j] == y[j]
    {
      SumIdentity(y, b.n, b.n, j);
      assert y[..b.n] == y && IdentityRows(b.n)[..b.n] == IdentityRows(b.n);
    }
    assert Combination(b, y, IdentityRows(b.n)) == y;
  }

  /**
   * What CreateGeneratorSets (and so Analyze) leaves behind is closed under
   * every transition: for each matrix M of an edge u -> t, whatever u's set
   * spans, M maps into the span of t's set.
   */
  lemma AnalyzeClosed(b: BaseFunctions, prg: Program, ms: map<EdgeId, seq<Matrix>>, e: EdgeId, a: nat, y: seq<int>)
    requires Ready(b, prg, ms, EmptySets(|prg.graph|)) && AllSet(prg, ms.Keys, prg.main)
    requires e in ms && a < |ms[e]|
    ensures (SeedsReady(b, prg, ms.Keys, prg.main);
             EdgeShaped(b, prg, ms, e);
             var cs := Iterate(b, prg, ms, EmptySets(|prg.graph|), IdentitySeeds(b, prg.main));
             InSpan(b, cs[e.0], y) ==> InSpan(b, cs[Target(prg, e)], MatVec(ms[e][a], y, b.n, b.m)))
  {
    SeedsReady(b, prg, ms.Keys, prg.main);
    EdgeShaped(b, prg, ms, e);
    var q0 := IdentitySeeds(b, prg.main);
    var cs := Iterate(b, prg, ms, EmptySets(|prg.graph|), q0);
    if InSpan(b, cs[e.0], y) {
      var mx, s := ms[e][a], QueuedAt(q0, e.0);
      IterateCovers(b, prg, ms, q0, e, a);
      QueuedWf(b, prg, ms.Keys, q0, e.0);
      CanonicalWf(b, cs[e.0]);
      AllWfConcat(b, cs[e.0], s);
      SpanPadded(b, cs[e.0], s, y);
      ImageInSpan(b, mx, cs[e.0] + s, y);
      SpanTrans(b, cs[Target(prg, e)], Images(b, mx, cs[e.0] + s), MatVec(mx, y, b.n, b.m));
    }
  }

  /**
   * For an edge out of main, whose identity rows were queued at the start,
   * M maps every ring vector at all into the span of the target's set.
   */
  lemma AnalyzeFromMain(b: BaseFunctions, prg: Program, ms: map<EdgeId, seq<Matrix>>, e: EdgeId, a: nat, y: seq<int>)
    requires Ready(b, prg, ms, EmptySets(|prg.graph|)) && AllSet(prg, ms.Keys, prg.main)
    requires e in ms && e.0 == prg.main && a < |ms[e]| && RingVec(b, y)
    ensures (SeedsReady(b, prg, ms.Keys, prg.main);
             EdgeShaped(b, prg, ms, e);
             var cs := Iterate(b, prg, ms, EmptySets(|prg.graph|), IdentitySeeds(b, prg.main));
             InSpan(b, cs[Target(prg, e)], MatVec(ms[e][a], y, b.n, b.m)))
  {
    SeedsReady(b, prg, ms.Keys, prg.main);
    EdgeShaped(b, prg, ms, e);
    var q0 := IdentitySeeds(b, prg.main);
    var cs := Iterate(b, prg, ms, EmptySets(|prg.graph|), q0);
    var mx, s := ms[e][a], QueuedAt(q0, e.0);
    SeedsQueued(b, prg.main, e.0, b.n);
    assert q0[..b.n] == q0 && IdentityRows(b.n)[..b.n] == IdentityRows(b.n);
    IdentitySpans(b, y);
    IterateCovers(b, prg, ms, q0, e, a);
    QueuedWf(b, prg, ms.Keys, q0, e.0);
    CanonicalWf(b, cs[e.0]);
    AllWfConcat(b, cs[e.0], s);
    SpanPrefixed(b, cs[e.0], s, y);
    ImageInSpan(b, mx, cs[e.0] + s, y);
    SpanTrans(b, cs[Target(prg, e)], Images(b, mx, cs[e.0] + s), MatVec(mx, y, b.n, b.m));
  }
}
