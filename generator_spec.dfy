// A value-level description of GeneratorSet.AddVector and AddEven: the list
// of stored vectors (the non-null prefix of GArr) before and after a call.
// The class in generator_set.dfy is proved to compute exactly these values.

module GeneratorSpec {
  import opened Arith
  import opened Ring
  import opened Lead

  /** A vector a generator set over `b` may hold: n coordinates in [0, m), its leading index recorded. */
  ghost predicate WfVec(b: BaseFunctions, v: LeadVector)
  {
    |v.vr| == b.n && v.Valid() && Bounded(v.vr, b.m) && 0 <= v.Lentry() < b.m
  }

  /** Every coordinate lies in [0, m). */
  ghost predicate Bounded(vr: seq<int>, m: int)
  {
    |vr| == 0 || (0 <= vr[0] < m && Bounded(vr[1..], m))
  }

  lemma {:induction false} BoundedAt(vr: seq<int>, m: int, k: nat)
    requires Bounded(vr, m) && k < |vr|
    ensures 0 <= vr[k] < m
  {
    if k > 0 {
      BoundedAt(vr[1..], m, k - 1);
    }
  }

  lemma {:induction false} BoundedIntro(vr: seq<int>, m: int)
    requires forall k :: 0 <= k < |vr| ==> 0 <= vr[k] < m
    ensures Bounded(vr, m)
  {
    if |vr| > 0 {
      BoundedIntro(vr[1..], m);
    }
  }

  /**
   * The shape GArr's stored prefix keeps: nonzero well-formed vectors whose
   * leading indices strictly increase (echelon form).
   */
  ghost predicate Canonical(b: BaseFunctions, g: seq<LeadVector>)
  {
    (forall k :: 0 <= k < |g| ==> WfVec(b, g[k]) && g[k].li >= 0)
    && (forall j, k :: 0 <= j < k < |g| ==> g[j].li < g[k].li)
  }

  predicate EvenNonzero(x: int)
  {
    x != 0 && x % 2 == 0
  }

  /** Strictly increasing leading indices in [lo, hi) that skip `gap` leave room for at most hi - lo - 1 vectors. */
  lemma {:induction false} AscendingBound(g: seq<LeadVector>, lo: int, hi: int, gap: int)
    requires lo <= hi
    requires forall k :: 0 <= k < |g| ==> lo <= g[k].li < hi && g[k].li != gap
    requires forall j, k :: 0 <= j < k < |g| ==> g[j].li < g[k].li
    ensures |g| <= hi - lo
    ensures lo <= gap < hi ==> |g| <= hi - lo - 1
  {
    if |g| > 0 {
      AscendingBound(g[1..], g[0].li + 1, hi, gap);
    }
  }

  /** A generator set never holds more than n vectors, and fewer when a leading index is unused. */
  lemma CanonicalBound(b: BaseFunctions, g: seq<LeadVector>, gap: int)
    requires Canonical(b, g)
    requires forall k :: 0 <= k < |g| ==> g[k].li != gap
    ensures |g| <= b.n
    ensures 0 <= gap < b.n ==> |g| < b.n
  {
    AscendingBound(g, 0, b.n, gap);
  }

  /** The slot AddVector's scan stops at: the first stored vector whose leading index is at least L. */
  function Position(g: seq<LeadVector>, L: int): (i: nat)
    ensures i <= |g|
    ensures forall k :: 0 <= k < i ==> g[k].li < L
    ensures i < |g| ==> g[i].li >= L
  {
    if |g| == 0 || g[0].li >= L then 0 else 1 + Position(g[1..], L)
  }

  lemma PositionAt(g: seq<LeadVector>, L: int, i: nat)
    requires i <= |g|
    requires forall k :: 0 <= k < i ==> g[k].li < L
    requires i < |g| ==> g[i].li >= L
    ensures Position(g, L) == i
  {
  }

  /**
   * h leaves alone every stored vector of g whose leading index is below L
   * and holds only vectors with leading index at least L after them.
   */
  ghost predicate Keeps(g: seq<LeadVector>, h: seq<LeadVector>, L: int)
  {
    var k := Position(g, L);
    k <= |h| && h[..k] == g[..k] && forall j :: k <= j < |h| ==> h[j].li >= L
  }

  lemma KeepsSelf(b: BaseFunctions, g: seq<LeadVector>, L: int)
    requires Canonical(b, g)
    ensures Keeps(g, g, L)
  {
    var k := Position(g, L);
    forall j | k <= j < |g|
      ensures g[j].li >= L
    {
      if j > k {
        assert g[k].li < g[j].li;
      }
    }
  }

  lemma KeepsWeaken(b: BaseFunctions, g: seq<LeadVector>, h: seq<LeadVector>, M: int, L: int)
    requires Canonical(b, g) && L <= M && Keeps(g, h, M)
    ensures Keeps(g, h, L)
  {
    var k, km := Position(g, L), Position(g, M);
    assert km >= k;
    assert h[..k] == g[..k] by {
      assert h[..k] == h[..km][..k];
      assert g[..k] == g[..km][..k];
    }
    forall j | k <= j < |h|
      ensures h[j].li >= L
    {
      if j < km {
        assert h[j] == h[..km][j] == g[..km][j] == g[j];
        if j > k {
          assert g[k].li < g[j].li;
        }
      }
    }
  }

  function InsertAt(g: seq<LeadVector>, i: nat, v: LeadVector): (h: seq<LeadVector>)
    requires i <= |g|
    ensures |h| == |g| + 1 && h[i] == v
    ensures forall k :: 0 <= k < i ==> h[k] == g[k]
    ensures forall k :: i < k < |h| ==> h[k] == g[k - 1]
  {
    g[..i] + [v] + g[i..]
  }

  function RemoveAt(g: seq<LeadVector>, i: nat): (h: seq<LeadVector>)
    requires i < |g|
    ensures |h| == |g| - 1
    ensures forall k :: 0 <= k < i ==> h[k] == g[k]
    ensures forall k :: i <= k < |h| ==> h[k] == g[k + 1]
  {
    g[..i] + g[i + 1..]
  }

  /** `GArr[i] = v` on a list of stored vectors: replace slot i, or append when i is the first free slot. */
  function Overwrite(g: seq<LeadVector>, i: nat, v: LeadVector): (h: seq<LeadVector>)
    requires i <= |g|
    ensures |h| == if i < |g| then |g| else |g| + 1
    ensures h[i] == v && forall k :: 0 <= k < |h| && k != i ==> h[k] == g[k]
  {
    if i < |g| then g[i := v] else g + [v]
  }

  lemma InsertCanonical(b: BaseFunctions, h: seq<LeadVector>, i: nat, v: LeadVector)
    requires Canonical(b, h) && WfVec(b, v) && v.li >= 0 && i <= |h|
    requires forall k :: 0 <= k < i ==> h[k].li < v.li
    requires forall k :: i <= k < |h| ==> h[k].li > v.li
    ensures Canonical(b, InsertAt(h, i, v))
  {
  }

  lemma RemoveCanonical(b: BaseFunctions, g: seq<LeadVector>, i: nat)
    requires Canonical(b, g) && i < |g|
    ensures Canonical(b, RemoveAt(g, i))
    ensures Position(RemoveAt(g, i), g[i].li + 1) == i
  {
    var h := RemoveAt(g, i);
    forall k | 0 <= k < i
      ensures h[k].li < g[i].li + 1
    {
      assert g[k].li < g[i].li;
    }
    if i < |h| {
      assert g[i].li < g[i + 1].li;
    }
    PositionAt(h, g[i].li + 1, i);
  }

  /** The append branch: stored vectors followed by v (GArr[i] = tvr after AddEven). */
  lemma OverwriteCanonical(b: BaseFunctions, g: seq<LeadVector>, g1: seq<LeadVector>, v: LeadVector)
    requires Canonical(b, g) && Canonical(b, g1) && WfVec(b, v) && v.li >= 0
    requires Position(g, v.li) == |g| && Keeps(g, g1, v.li + 1)
    ensures |g| <= |g1|
    ensures Canonical(b, Overwrite(g1, |g|, v)) && Keeps(g, Overwrite(g1, |g|, v), v.li)
  {
    PositionAt(g, v.li + 1, |g|);
    AppendShape(b, g, g1, v);
  }

  lemma AppendShape(b: BaseFunctions, g: seq<LeadVector>, g1: seq<LeadVector>, v: LeadVector)
    requires Canonical(b, g) && Canonical(b, g1) && WfVec(b, v) && v.li >= 0
    requires |g| <= |g1| && g1[..|g|] == g
    requires forall k :: 0 <= k < |g| ==> g[k].li < v.li
    requires forall k :: |g| <= k < |g1| ==> g1[k].li > v.li
    ensures Canonical(b, Overwrite(g1, |g|, v))
    ensures Overwrite(g1, |g|, v)[..|g|] == g
  {
    var h := Overwrite(g1, |g|, v);
    if |g| < |g1| {
      var tail := g1[|g| + 1..];
      assert h == g + [v] + tail by {
        assert |h| == |g + [v] + tail|;
        forall k | 0 <= k < |h|
          ensures h[k] == (g + [v] + tail)[k]
        {
          if k < |g| {
            assert g1[k] == g1[..|g|][k];
          }
        }
      }
      JoinCanonical(b, g, v, tail);
    } else {
      assert h == g + [v] + [];
      JoinCanonical(b, g, v, []);
    }
  }

  /** a, then v, then c: in echelon form when v's leading index lies strictly between a's and c's. */
  lemma JoinCanonical(b: BaseFunctions, a: seq<LeadVector>, v: LeadVector, c: seq<LeadVector>)
    requires Canonical(b, a) && Canonical(b, c) && WfVec(b, v) && v.li >= 0
    requires forall k :: 0 <= k < |a| ==> a[k].li < v.li
    requires forall k :: 0 <= k < |c| ==> c[k].li > v.li
    ensures Canonical(b, a + [v] + c)
  {
    var h := a + [v] + c;
    forall j, k | 0 <= j < k < |h|
      ensures h[j].li < h[k].li
    {
      if k < |a| {
        assert h[j] == a[j] && h[k] == a[k];
      } else if j > |a| {
        assert h[j] == c[j - |a| - 1] && h[k] == c[k - |a| - 1];
      }
    }
  }

  // ------------------------------------------------------------ vector arithmetic

  /** The coordinates of AddEven's vector: x * v[k] mod m. */
  function Scale(x: int, vr: seq<int>, m: nat): (r: seq<int>)
    requires m > 0
    ensures |r| == |vr| && Bounded(r, m)
  {
    var r := seq(|vr|, k requires 0 <= k < |vr| => (x * vr[k]) % m);
    BoundedIntro(r, m);
    r
  }

  /** The companion AddEven adds for v: 2^(w - r) * v, where 2^r is the largest power of two dividing v's lead. */
  function Companion(b: BaseFunctions, v: LeadVector): LeadVector
    requires b.WellFormed() && WfVec(b, v)
  {
    var r := Reduction(b, v.Lentry()).0;
    var wr := Scale(Pow2(b.w - r), v.vr, b.m);
    LeadVector(wr, LeadIndex(wr))
  }

  /** Multiplying away the lead's odd part's power of two kills the lead: the companion starts strictly later. */
  lemma CompanionAbove(b: BaseFunctions, v: LeadVector)
    requires b.Valid() && WfVec(b, v) && v.li >= 0 && EvenNonzero(v.Lentry())
    ensures WfVec(b, Companion(b, v))
    ensures Companion(b, v).li == -1 || Companion(b, v).li > v.li
  {
    var e := v.Lentry();
    ReductionCorrect(b, e);
    var r := Reduction(b, e).0;
    PowerKills(b.w, r, OddPart(e));
    var x := Pow2(b.w - r);
    var c := Companion(b, v);
    assert c.vr[v.li] == (x * e) % b.m;
    DivMulCancel(b.m, 0);
    forall k | 0 <= k < v.li
      ensures c.vr[k] == 0
    {
      assert v.vr[k] == 0;
      assert x * v.vr[k] == 0;
    }
    BoundedAt(v.vr, b.m, v.li);
    if c.li >= 0 {
      BoundedAt(c.vr, b.m, c.li);
    }
  }

  /** 2^(w - r) * (2^r * d) is a multiple of 2^w. */
  lemma PowerKills(w: nat, r: nat, d: int)
    requires r <= w
    ensures (Pow2(w - r) * (Pow2(r) * d)) % Pow2(w) == 0
  {
    Pow2Add(w - r, r);
    assert Pow2(w - r) * (Pow2(r) * d) == Pow2(w) * d;
    DivMulCancel(Pow2(w), d);
  }

  /**
   * The combination AddVector adds when two vectors share a leading index:
   * ds * t - 2^(rt - rs) * dt * s (mod m), where t's lead is 2^rt * dt and
   * the stored s's lead is 2^rs * ds with rs <= rt.
   */
  function Resolvent(b: BaseFunctions, t: LeadVector, s: LeadVector, ds: int, dt: int, rs: nat, rt: nat): (w: LeadVector)
    requires b.WellFormed() && rs <= rt && |t.vr| == |s.vr|
    ensures |w.vr| == |t.vr| && w.Valid() && Bounded(w.vr, b.m) && 0 <= w.Lentry() < b.m
  {
    var wr := seq(|t.vr|, j requires 0 <= j < |t.vr| => (ds * t.vr[j] - Pow2(rt - rs) * dt * s.vr[j]) % b.m);
    BoundedIntro(wr, b.m);
    LeadVector(wr, LeadIndex(wr))
  }

  lemma ResolventAbove(b: BaseFunctions, t: LeadVector, s: LeadVector, ds: int, dt: int, rs: nat, rt: nat)
    requires b.Valid() && WfVec(b, t) && WfVec(b, s) && t.li == s.li >= 0
    requires Reduction(b, s.Lentry()) == (rs, ds) && Reduction(b, t.Lentry()) == (rt, dt) && rs <= rt
    ensures WfVec(b, Resolvent(b, t, s, ds, dt, rs, rt))
    ensures Resolvent(b, t, s, ds, dt, rs, rt).li == -1 || Resolvent(b, t, s, ds, dt, rs, rt).li > t.li
  {
    var L := t.li;
    ReductionCorrect(b, t.Lentry());
    ReductionCorrect(b, s.Lentry());
    LeadCancels(ds, dt, rs, rt, t.vr[L], s.vr[L]);
    ResolventPrefix(b, t, s, ds, dt, rs, rt, L);
  }

  /** The combination vanishes wherever both vectors vanish, and at L when their terms cancel there. */
  lemma ResolventPrefix(b: BaseFunctions, t: LeadVector, s: LeadVector, ds: int, dt: int, rs: nat, rt: nat, L: nat)
    requires b.WellFormed() && rs <= rt && |t.vr| == |s.vr| && L < |t.vr|
    requires forall k :: 0 <= k < L ==> t.vr[k] == 0 && s.vr[k] == 0
    requires ds * t.vr[L] - Pow2(rt - rs) * dt * s.vr[L] == 0
    ensures forall k :: 0 <= k <= L ==> Resolvent(b, t, s, ds, dt, rs, rt).vr[k] == 0
  {
    var w := Resolvent(b, t, s, ds, dt, rs, rt);
    var x := Pow2(rt - rs) * dt;
    DivMulCancel(b.m, 0);
    forall k | 0 <= k <= L
      ensures w.vr[k] == 0
    {
      var e := ds * t.vr[k] - x * s.vr[k];
      assert w.vr[k] == e % b.m;
      if k < L {
        assert t.vr[k] == 0 && s.vr[k] == 0;
        assert ds * t.vr[k] == 0 && x * s.vr[k] == 0;
      }
      assert e == 0;
    }
  }

  /** With leads a = 2^rt * dt and c = 2^rs * ds, ds * a - 2^(rt - rs) * dt * c vanishes. */
  lemma LeadCancels(ds: int, dt: int, rs: nat, rt: nat, a: int, c: int)
    requires rs <= rt && a == Pow2(rt) * dt && c == Pow2(rs) * ds
    ensures ds * a - Pow2(rt - rs) * dt * c == 0
  {
    var x, y := Pow2(rt - rs), Pow2(rs);
    Pow2Divides(rs, rt);
    assert a == (y * x) * dt;
    CrossCancel(ds, dt, x, y);
  }

  lemma CrossCancel(ds: int, dt: int, x: int, y: int)
    ensures ds * ((y * x) * dt) - x * dt * (y * ds) == 0
  {
    assert ds * ((y * x) * dt) == (x * dt) * (y * ds);
  }

  // ------------------------------------------------------------ AddVector as a function

  /**
   * AddVector(v) on stored list g: the new list and the returned flag.
   * The result is again in echelon form and leaves the vectors before v's
   * leading index alone.
   */
  function Add(b: BaseFunctions, g: seq<LeadVector>, v: LeadVector): (res: (seq<LeadVector>, bool))
    requires b.Valid() && Canonical(b, g) && WfVec(b, v) && v.li >= 0
    ensures Canonical(b, res.0) && Keeps(g, res.0, v.li)
    decreases b.n - v.li, 4
  {
    var i := Position(g, v.li);
    if i == |g| then
      AddAtEnd(b, g, v)
    else if g[i].li == v.li then
      AddSameLead(b, g, v, i)
    else
      assert forall k :: i <= k < |g| ==> g[k].li > v.li by {
        forall k | i < k < |g| ensures g[k].li > v.li { assert g[i].li < g[k].li; }
      }
      InsertCanonical(b, g, i, v);
      assert InsertAt(g, i, v)[..i] == g[..i];
      (InsertAt(g, i, v), true)
  }

  /** The branch where every stored lead index is below v's: AddEven(v), then GArr[i] = v. */
  function AddAtEnd(b: BaseFunctions, g: seq<LeadVector>, v: LeadVector): (res: (seq<LeadVector>, bool))
    requires b.Valid() && Canonical(b, g) && WfVec(b, v) && v.li >= 0 && Position(g, v.li) == |g|
    ensures Canonical(b, res.0) && Keeps(g, res.0, v.li) && res.1
    decreases b.n - v.li, 1
  {
    var g1 := if EvenNonzero(v.Lentry()) then AddEven(b, g, v) else g;
    KeepsSelf(b, g, v.li + 1);
    OverwriteCanonical(b, g, g1, v);
    (Overwrite(g1, |g|, v), true)
  }

  /** AddEven(v): add the companion of v when it is nonzero. */
  function AddEven(b: BaseFunctions, g: seq<LeadVector>, v: LeadVector): (h: seq<LeadVector>)
    requires b.Valid() && Canonical(b, g) && WfVec(b, v) && v.li >= 0 && EvenNonzero(v.Lentry())
    ensures Canonical(b, h) && Keeps(g, h, v.li + 1)
    decreases b.n - v.li, 0
  {
    var c := Companion(b, v);
    CompanionAbove(b, v);
    if c.li >= 0 then
      var r := Add(b, g, c);
      KeepsWeaken(b, g, r.0, c.li, v.li + 1);
      r.0
    else
      KeepsSelf(b, g, v.li + 1);
      g
  }

  /** The branch where the scan meets a stored vector with v's leading index. */
  function AddSameLead(b: BaseFunctions, g: seq<LeadVector>, v: LeadVector, i: nat): (res: (seq<LeadVector>, bool))
    requires b.Valid() && Canonical(b, g) && WfVec(b, v) && v.li >= 0
    requires i == Position(g, v.li) && i < |g| && g[i].li == v.li
    ensures Canonical(b, res.0) && Keeps(g, res.0, v.li)
    decreases b.n - v.li, 3
  {
    if Reduction(b, g[i].Lentry()).0 > Reduction(b, v.Lentry()).0 then
      AddDisplacing(b, g, v, i)
    else
      AddCombined(b, g, v, i)
  }

  /**
   * rg <= rv: the stored vector s stays and the combination
   * dg * v - 2^(rv - rg) * dv * s, whose lead cancels, is added.
   */
  function AddCombined(b: BaseFunctions, g: seq<LeadVector>, v: LeadVector, i: nat): (res: (seq<LeadVector>, bool))
    requires b.Valid() && Canonical(b, g) && WfVec(b, v) && v.li >= 0
    requires i == Position(g, v.li) && i < |g| && g[i].li == v.li
    requires Reduction(b, g[i].Lentry()).0 <= Reduction(b, v.Lentry()).0
    ensures Canonical(b, res.0) && Keeps(g, res.0, v.li)
    decreases b.n - v.li, 2
  {
    var redG := Reduction(b, g[i].Lentry());
    var redV := Reduction(b, v.Lentry());
    var w := Resolvent(b, v, g[i], redG.1, redV.1, redG.0, redV.0);
    ResolventAbove(b, v, g[i], redG.1, redV.1, redG.0, redV.0);
    if w.li >= 0 then
      var r := Add(b, g, w);
      KeepsWeaken(b, g, r.0, w.li, v.li);
      r
    else
      KeepsSelf(b, g, v.li);
      (g, false)
  }

  /**
   * rg > rv: v (smaller valuation) takes the slot of the stored vector s,
   * then s is reduced against v as in AddCombined with the roles swapped.
   */
  function AddDisplacing(b: BaseFunctions, g: seq<LeadVector>, v: LeadVector, i: nat): (res: (seq<LeadVector>, bool))
    requires b.Valid() && Canonical(b, g) && WfVec(b, v) && v.li >= 0
    requires i == Position(g, v.li) && i < |g| && g[i].li == v.li
    requires Reduction(b, g[i].Lentry()).0 > Reduction(b, v.Lentry()).0
    ensures Canonical(b, res.0) && Keeps(g, res.0, v.li) && res.1
    decreases b.n - v.li, 2
  {
    var s := g[i];
    var redG := Reduction(b, s.Lentry());
    var redV := Reduction(b, v.Lentry());
    var g3 := Displace(b, g, v, i);
    var w := Resolvent(b, s, v, redV.1, redG.1, redV.0, redG.0);
    ResolventAbove(b, s, v, redV.1, redG.1, redV.0, redG.0);
    AddAfterDisplace(b, g, g3, v, i, w)
  }

  /** The tail of the displacing branch: add the combination w unless it is zero. */
  function AddAfterDisplace(b: BaseFunctions, g: seq<LeadVector>, g3: seq<LeadVector>, v: LeadVector, i: nat, w: LeadVector): (res: (seq<LeadVector>, bool))
    requires b.Valid() && Canonical(b, g3) && WfVec(b, w) && v.li >= 0 && (w.li == -1 || w.li > v.li)
    requires i == Position(g, v.li) && i < |g3| && g3[..i] == g[..i] && g3[i] == v
    requires forall k :: i < k < |g3| ==> g3[k].li > v.li
    ensures Canonical(b, res.0) && Keeps(g, res.0, v.li) && res.1
    decreases b.n - v.li, 0
  {
    if w.li >= 0 then
      var r := Add(b, g3, w);
      AfterSwapKeeps(g, g3, r.0, v, i, w.li);
      (r.0, true)
    else
      AfterSwapKeeps(g, g3, g3, v, i, v.li + 1);
      (g3, true)
  }

  /** RemoveVector(i); AddEven(v) when v's lead is even; InsertVector(i, v). */
  function Displace(b: BaseFunctions, g: seq<LeadVector>, v: LeadVector, i: nat): (g3: seq<LeadVector>)
    requires b.Valid() && Canonical(b, g) && WfVec(b, v) && v.li >= 0
    requires i == Position(g, v.li) && i < |g| && g[i].li == v.li
    ensures Canonical(b, g3) && i < |g3| && g3[..i] == g[..i] && g3[i] == v
    ensures forall k :: i < k < |g3| ==> g3[k].li > v.li
    decreases b.n - v.li, 1
  {
    var g1 := RemoveAt(g, i);
    RemoveCanonical(b, g, i);
    var g2 := if EvenNonzero(v.Lentry()) then AddEven(b, g1, v) else g1;
    KeepsSelf(b, g1, v.li + 1);
    SwapIn(b, g, g1, g2, v, i)
  }

  /** InsertVector(i, v) after the removal and AddEven: v sits between the kept prefix and the later vectors. */
  function SwapIn(b: BaseFunctions, g: seq<LeadVector>, g1: seq<LeadVector>, g2: seq<LeadVector>, v: LeadVector, i: nat): (g3: seq<LeadVector>)
    requires WfVec(b, v) && v.li >= 0 && i == Position(g, v.li) && i <= |g1| && g1[..i] == g[..i]
    requires Canonical(b, g2) && Position(g1, v.li + 1) == i && Keeps(g1, g2, v.li + 1)
    ensures Canonical(b, g3) && i < |g3| && g3[..i] == g[..i] && g3[i] == v
    ensures forall k :: i < k < |g3| ==> g3[k].li > v.li
  {
    assert g2[..i] == g1[..i];
    assert forall k :: 0 <= k < i ==> g2[k] == g2[..i][k] == g1[..i][k] == g[k];
    InsertCanonical(b, g2, i, v);
    var g3 := InsertAt(g2, i, v);
    assert g3[..i] == g[..i];
    g3
  }

  /** After RemoveVector(i) and AddEven(v), slot i can take v: InsertVector's conditions hold there. */
  lemma SlotAfterRemoval(b: BaseFunctions, g1: seq<LeadVector>, g2: seq<LeadVector>, v: LeadVector, i: nat)
    requires b.Valid() && Canonical(b, g2) && WfVec(b, v) && v.li >= 0 && i <= |g1|
    requires forall k :: 0 <= k < i ==> g1[k].li < v.li
    requires Position(g1, v.li + 1) == i && Keeps(g1, g2, v.li + 1)
    ensures i <= |g2| && |g2| < b.n
    ensures forall k :: 0 <= k < i ==> g2[k].li < v.li
    ensures forall k :: i <= k < |g2| ==> g2[k].li > v.li
  {
    forall k | 0 <= k < i
      ensures g2[k].li < v.li
    {
      assert g2[k] == g2[..i][k] == g1[..i][k] == g1[k];
    }
    CanonicalBound(b, g2, v.li);
  }

  lemma AfterSwapKeeps(g: seq<LeadVector>, g3: seq<LeadVector>, h: seq<LeadVector>, v: LeadVector, i: nat, M: int)
    requires i == Position(g, v.li) && i < |g3| && g3[..i] == g[..i] && g3[i] == v
    requires forall k :: i < k < |g3| ==> g3[k].li > v.li
    requires M > v.li && Keeps(g3, h, M)
    ensures Keeps(g, h, v.li)
  {
    var p := Position(g3, M);
    assert forall k :: 0 <= k < i ==> g3[k].li < v.li by {
      forall k | 0 <= k < i
        ensures g3[k].li < v.li
      {
        assert g3[k] == g3[..i][k] == g[..i][k] == g[k];
      }
    }
    assert p > i;
    assert h[..i] == g[..i] by {
      assert h[..i] == h[..p][..i];
      assert g3[..i] == g3[..p][..i];
    }
    forall j | i <= j < |h|
      ensures h[j].li >= v.li
    {
      if j < p {
        assert h[j] == h[..p][j] == g3[..p][j] == g3[j];
      }
    }
  }

  // ------------------------------------------------------------ properties of Add

  /** Adding a vector whose leading index lies beyond every stored one appends exactly that vector: its companion is overwritten. */
  lemma {:induction false} AddAppend(b: BaseFunctions, g: seq<LeadVector>, v: LeadVector)
    requires b.Valid() && Canonical(b, g) && WfVec(b, v) && v.li >= 0 && Position(g, v.li) == |g|
    ensures Add(b, g, v) == (g + [v], true)
    decreases b.n - v.li, 1
  {
    assert Add(b, g, v) == AddAtEnd(b, g, v);
    if EvenNonzero(v.Lentry()) {
      CompanionAppend(b, g, v);
    } else {
      assert Overwrite(g, |g|, v) == g + [v];
    }
  }

  /** AddEven on a list whose leading indices all lie below v's appends at most v's companion, which v then overwrites. */
  lemma {:induction false} CompanionAppend(b: BaseFunctions, g: seq<LeadVector>, v: LeadVector)
    requires b.Valid() && Canonical(b, g) && WfVec(b, v) && v.li >= 0 && Position(g, v.li) == |g|
    requires EvenNonzero(v.Lentry())
    ensures Overwrite(AddEven(b, g, v), |g|, v) == g + [v]
    decreases b.n - v.li, 0
  {
    var c := Companion(b, v);
    CompanionAbove(b, v);
    if c.li >= 0 {
      assert AddEven(b, g, v) == g + [c] by {
        PositionAt(g, c.li, |g|);
        AddAppend(b, g, c);
      }
      assert (g + [c])[|g| := v] == g + [v];
    } else {
      assert AddEven(b, g, v) == g;
      assert Overwrite(g, |g|, v) == g + [v];
    }
  }

  /** Adding a vector that is already stored changes nothing and reports no change. */
  lemma AddExisting(b: BaseFunctions, g: seq<LeadVector>, k: nat)
    requires b.Valid() && Canonical(b, g) && k < |g|
    ensures Add(b, g, g[k]) == (g, false)
  {
    var v := g[k];
    forall j | 0 <= j < k
      ensures g[j].li < v.li
    {
    }
    PositionAt(g, v.li, k);
    assert Add(b, g, v) == AddSameLead(b, g, v, k) == AddCombined(b, g, v, k);
    var red := Reduction(b, v.Lentry());
    var w := Resolvent(b, v, v, red.1, red.1, red.0, red.0);
    DivMulCancel(b.m, 0);
    forall j | 0 <= j < |w.vr|
      ensures w.vr[j] == 0
    {
      assert Pow2(red.0 - red.0) == 1;
      assert red.1 * v.vr[j] - 1 * red.1 * v.vr[j] == 0;
    }
  }

  /** The valuation of a vector's leading entry (0 for the zero vector). */
  function Valuation(v: LeadVector): nat
  {
    if v.Lentry() > 0 then TrailingZeros(v.Lentry()) else 0
  }

  function SumValuations(g: seq<LeadVector>): nat
  {
    if |g| == 0 then 0 else Valuation(g[0]) + SumValuations(g[1..])
  }

  lemma {:induction false} SumValuationsConcat(a: seq<LeadVector>, c: seq<LeadVector>)
    ensures SumValuations(a + c) == SumValuations(a) + SumValuations(c)
  {
    if |a| > 0 {
      assert (a + c)[1..] == a[1..] + c;
      SumValuationsConcat(a[1..], c);
    } else {
      assert a + c == c;
    }
  }

  /**
   * A measure every reported change lowers: the stored leads' valuations plus
   * w for every free slot. It is never negative, which bounds the number of
   * changes the analysis can make to one generator set.
   */
  function Rank(b: BaseFunctions, g: seq<LeadVector>): int
  {
    SumValuations(g) + b.w * (b.n - |g|)
  }

  lemma ValuationBelow(b: BaseFunctions, v: LeadVector)
    requires b.WellFormed() && WfVec(b, v) && v.li >= 0
    ensures Valuation(v) < b.w
  {
    TrailingZerosBelow(v.Lentry(), b.w);
  }

  lemma RankNonNegative(b: BaseFunctions, g: seq<LeadVector>)
    requires Canonical(b, g)
    ensures Rank(b, g) >= 0
  {
    CanonicalBound(b, g, -1);
  }

  lemma SumValuationsAround(a: seq<LeadVector>, v: LeadVector, c: seq<LeadVector>)
    ensures SumValuations(a + [v] + c) == SumValuations(a) + Valuation(v) + SumValuations(c)
  {
    SumValuationsConcat(a + [v], c);
    SumValuationsConcat(a, [v]);
    assert [v][1..] == [];
  }

  lemma RankInsert(b: BaseFunctions, g: seq<LeadVector>, i: nat, v: LeadVector)
    requires i <= |g|
    ensures Rank(b, InsertAt(g, i, v)) == Rank(b, g) + Valuation(v) - b.w
  {
    SumValuationsAround(g[..i], v, g[i..]);
    SumValuationsConcat(g[..i], g[i..]);
    assert g[..i] + g[i..] == g;
    MulPred(b.w, b.n - |g|);
  }

  lemma MulPred(a: int, x: int)
    ensures a * (x - 1) == a * x - a
  {
  }

  lemma RankRemove(b: BaseFunctions, g: seq<LeadVector>, i: nat)
    requires i < |g|
    ensures Rank(b, RemoveAt(g, i)) == Rank(b, g) - Valuation(g[i]) + b.w
  {
    SumValuationsAround(g[..i], g[i], g[i + 1..]);
    SumValuationsConcat(g[..i], g[i + 1..]);
    assert g[..i] + [g[i]] + g[i + 1..] == g;
    MulPred(b.w, b.n - |g| + 1);
  }

  /** What AddVector's flag promises: true only with a strictly smaller rank, false only with nothing changed. */
  ghost predicate Progress(b: BaseFunctions, g: seq<LeadVector>, res: (seq<LeadVector>, bool))
  {
    (res.1 ==> Rank(b, res.0) < Rank(b, g)) && (!res.1 ==> res.0 == g)
  }

  lemma {:induction false} AddProgress(b: BaseFunctions, g: seq<LeadVector>, v: LeadVector)
    requires b.Valid() && Canonical(b, g) && WfVec(b, v) && v.li >= 0
    ensures Progress(b, g, Add(b, g, v))
    decreases b.n - v.li, 2
  {
    ValuationBelow(b, v);
    var i := Position(g, v.li);
    if i == |g| {
      AddAppend(b, g, v);
      RankInsert(b, g, |g|, v);
      assert InsertAt(g, |g|, v) == g + [v];
    } else if g[i].li == v.li {
      if Reduction(b, g[i].Lentry()).0 > Reduction(b, v.Lentry()).0 {
        assert Add(b, g, v) == AddSameLead(b, g, v, i) == AddDisplacing(b, g, v, i);
        DisplacingProgress(b, g, v, i);
      } else {
        assert Add(b, g, v) == AddSameLead(b, g, v, i) == AddCombined(b, g, v, i);
        CombinedProgress(b, g, v, i);
      }
    } else {
      RankInsert(b, g, i, v);
    }
  }

  lemma {:induction false} CombinedProgress(b: BaseFunctions, g: seq<LeadVector>, v: LeadVector, i: nat)
    requires b.Valid() && Canonical(b, g) && WfVec(b, v) && v.li >= 0
    requires i == Position(g, v.li) && i < |g| && g[i].li == v.li
    requires Reduction(b, g[i].Lentry()).0 <= Reduction(b, v.Lentry()).0
    ensures Progress(b, g, AddCombined(b, g, v, i))
    decreases b.n - v.li, 1
  {
    var redG := Reduction(b, g[i].Lentry());
    var redV := Reduction(b, v.Lentry());
    var w := Resolvent(b, v, g[i], redG.1, redV.1, redG.0, redV.0);
    ResolventAbove(b, v, g[i], redG.1, redV.1, redG.0, redV.0);
    if w.li >= 0 {
      AddProgress(b, g, w);
    }
  }

  lemma {:induction false} DisplacingProgress(b: BaseFunctions, g: seq<LeadVector>, v: LeadVector, i: nat)
    requires b.Valid() && Canonical(b, g) && WfVec(b, v) && v.li >= 0
    requires i == Position(g, v.li) && i < |g| && g[i].li == v.li
    requires Reduction(b, g[i].Lentry()).0 > Reduction(b, v.Lentry()).0
    ensures Progress(b, g, AddDisplacing(b, g, v, i))
    decreases b.n - v.li, 1
  {
    var s := g[i];
    ReductionCorrect(b, s.Lentry());
    ReductionCorrect(b, v.Lentry());
    var g1 := RemoveAt(g, i);
    RemoveCanonical(b, g, i);
    RankRemove(b, g, i);
    var g2 := if EvenNonzero(v.Lentry()) then AddEven(b, g1, v) else g1;
    if EvenNonzero(v.Lentry()) {
      AddEvenProgress(b, g1, v);
    }
    KeepsSelf(b, g1, v.li + 1);
    var g3 := Displace(b, g, v, i);
    assert g3 == InsertAt(g2, i, v);
    RankInsert(b, g2, i, v);
    var redG := Reduction(b, s.Lentry());
    var redV := Reduction(b, v.Lentry());
    var w := Resolvent(b, s, v, redV.1, redG.1, redV.0, redG.0);
    ResolventAbove(b, s, v, redV.1, redG.1, redV.0, redG.0);
    if w.li >= 0 {
      AddProgress(b, g3, w);
    }
  }

  /** AddEven never raises the rank. */
  lemma {:induction false} AddEvenProgress(b: BaseFunctions, g: seq<LeadVector>, v: LeadVector)
    requires b.Valid() && Canonical(b, g) && WfVec(b, v) && v.li >= 0 && EvenNonzero(v.Lentry())
    ensures Rank(b, AddEven(b, g, v)) <= Rank(b, g)
    decreases b.n - v.li, 0
  {
    var c := Companion(b, v);
    CompanionAbove(b, v);
    if c.li >= 0 {
      AddProgress(b, g, c);
    }
  }

  /** AddVector returns true exactly when the stored list changed. */
  lemma AddReportsChange(b: BaseFunctions, g: seq<LeadVector>, v: LeadVector)
    requires b.Valid() && Canonical(b, g) && WfVec(b, v) && v.li >= 0
    ensures Add(b, g, v).1 <==> Add(b, g, v).0 != g
  {
    AddProgress(b, g, v);
  }
}
