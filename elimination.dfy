// The value-level meaning of TestLR's steps: which entry is the pivot, what
// clearing a slice and exchanging two slices do to a matrix, and the
// properties of each. Matrices keep the source's indexing M[i][j].

module Elimination {
  import opened Arith
  import opened Ring

  /** Every entry of M is a ring element, i.e. lies in [0, m). */
  ghost predicate Residues(M: Matrix, m: nat)
  {
    forall i, j :: 0 <= i < |M| && 0 <= j < |M[i]| ==> 0 <= M[i][j] < m
  }

  ghost predicate Square(M: Matrix)
  {
    Rectangular(M, |M|)
  }

  /**
   * One entry of a slice combination, reduced with the source's idiom
   * ((x * pd - y * alpha) % m + m) % m; whatever the signs it is the
   * Euclidean residue of x * pd - y * alpha.
   */
  function Combine(x: int, y: int, pd: int, alpha: int, m: nat): (z: int)
    requires m > 0
    ensures z == (x * pd - y * alpha) % m
    ensures 0 <= z < m
  {
    RemNormalises(x * pd - y * alpha, m);
    Rem(Rem(x * pd - y * alpha, m) + m, m)
  }

  // ------------------------------------------------------------ the pivot

  /** Position (i1, j1) is visited before (i2, j2) by a scan with j outer and i inner. */
  predicate ScannedBefore(i1: int, j1: int, i2: int, j2: int)
  {
    j1 < j2 || (j1 == j2 && i1 < i2)
  }

  /**
   * What GetPivot promises about the trailing square M[di..][di..]: either
   * it has no positive entry and the result is the initial (-1, -1, 0,
   * int.MaxValue), or (pi, pj) holds a positive entry whose Reduction is
   * (pr, pd), no positive entry has a smaller r, and every positive entry
   * the scan meets earlier has a larger r.
   */
  ghost predicate IsPivot(b: BaseFunctions, M: Matrix, di: nat, pi: int, pj: int, pd: int, pr: int)
    requires b.WellFormed() && Square(M)
  {
    var n := |M|;
    if pi == -1 then
      && pj == -1 && pd == 0 && pr == IntMaxValue
      && forall i, j :: di <= i < n && di <= j < n ==> M[i][j] <= 0
    else
      && di <= pi < n && di <= pj < n && M[pi][pj] > 0
      && (pr, pd) == Reduction(b, M[pi][pj])
      && (forall i, j :: di <= i < n && di <= j < n && M[i][j] > 0 ==> pr <= Reduction(b, M[i][j]).0)
      && (forall i, j :: di <= i < n && di <= j < n && M[i][j] > 0 && ScannedBefore(i, j, pi, pj) ==>
            pr < Reduction(b, M[i][j]).0)
  }

  /** Reduction of every positive entry ((0, 0) elsewhere): what GetPivot compares. */
  ghost function Reductions(b: BaseFunctions, M: Matrix): (V: seq<seq<(nat, int)>>)
    requires b.WellFormed() && Square(M)
    ensures |V| == |M| && forall i :: 0 <= i < |M| ==> |V[i]| == |M|
    ensures forall i, j :: 0 <= i < |M| && 0 <= j < |M| && M[i][j] > 0 ==> V[i][j] == Reduction(b, M[i][j])
  {
    seq(|M|, i requires 0 <= i < |M| =>
      seq(|M|, j requires 0 <= j < |M| => if M[i][j] > 0 then Reduction(b, M[i][j]) else (0, 0)))
  }

  ghost predicate Matches(M: Matrix, V: seq<seq<(nat, int)>>)
  {
    Square(M) && |V| == |M| && forall i :: 0 <= i < |M| ==> |V[i]| == |M|
  }

  /**
   * The scan's state once every position of M[di..][di..] visited before
   * (i, j) has been looked at, with V the Reduction of each entry: the
   * promise of IsPivot over the visited positions only.
   */
  ghost predicate PivotSoFar(M: Matrix, V: seq<seq<(nat, int)>>, di: nat, i: int, j: int, pi: int, pj: int, pd: int, pr: int)
    requires Matches(M, V)
  {
    var n := |M|;
    && (pi == -1 ==> pj == -1 && pd == 0 && pr == IntMaxValue)
    && (pi == -1 <==> forall i', j' :: di <= i' < n && di <= j' < n && ScannedBefore(i', j', i, j) ==> M[i'][j'] <= 0)
    && (pi != -1 ==> di <= pi < n && di <= pj < n && ScannedBefore(pi, pj, i, j) && M[pi][pj] > 0 && (pr, pd) == V[pi][pj])
    && (forall i', j' :: di <= i' < n && di <= j' < n && ScannedBefore(i', j', i, j) && M[i'][j'] > 0 ==>
          pr <= V[i'][j'].0 && (ScannedBefore(i', j', pi, pj) ==> pr < V[i'][j'].0))
  }

  /** Moving past an entry that is not positive, or whose r is not below pr, keeps the pivot. */
  lemma ScanKeep(M: Matrix, V: seq<seq<(nat, int)>>, di: nat, i: nat, j: nat, pi: int, pj: int, pd: int, pr: int)
    requires Matches(M, V) && di <= i < |M| && di <= j < |M|
    requires PivotSoFar(M, V, di, i, j, pi, pj, pd, pr)
    requires M[i][j] > 0 ==> pi != -1 && pr <= V[i][j].0
    ensures PivotSoFar(M, V, di, i + 1, j, pi, pj, pd, pr)
  {
    var n := |M|;
    forall i', j' | di <= i' < n && di <= j' < n && ScannedBefore(i', j', i + 1, j)
      ensures ScannedBefore(i', j', i, j) || (i', j') == (i, j)
    {
    }
    if pi != -1 {
      assert !ScannedBefore(i, j, pi, pj);
    }
  }

  /** An entry whose r is below pr becomes the new pivot. */
  lemma ScanTake(M: Matrix, V: seq<seq<(nat, int)>>, di: nat, i: nat, j: nat, pi: int, pj: int, pd: int, pr: int)
    requires Matches(M, V) && di <= i < |M| && di <= j < |M|
    requires PivotSoFar(M, V, di, i, j, pi, pj, pd, pr)
    requires M[i][j] > 0 && V[i][j].0 < pr
    ensures PivotSoFar(M, V, di, i + 1, j, i, j, V[i][j].1, V[i][j].0)
  {
    var n := |M|;
    var r := V[i][j].0;
    forall i', j' | di <= i' < n && di <= j' < n && ScannedBefore(i', j', i + 1, j) && M[i'][j'] > 0
      ensures r <= V[i'][j'].0
      ensures ScannedBefore(i', j', i, j) ==> r < V[i'][j'].0
    {
      if (i', j') != (i, j) {
        assert ScannedBefore(i', j', i, j);
      }
    }
    assert ScannedBefore(i, j, i + 1, j);
  }

  /** Finishing slice position j of the scan is the same as starting position j + 1. */
  lemma ScanNextColumn(M: Matrix, V: seq<seq<(nat, int)>>, di: nat, j: int, pi: int, pj: int, pd: int, pr: int)
    requires Matches(M, V)
    requires PivotSoFar(M, V, di, |M|, j, pi, pj, pd, pr)
    ensures PivotSoFar(M, V, di, di, j + 1, pi, pj, pd, pr)
  {
    var n := |M|;
    assert forall i', j' :: di <= i' < n && di <= j' < n ==>
      (ScannedBefore(i', j', n, j) <==> ScannedBefore(i', j', di, j + 1));
  }

  /** A scan that has passed the whole trailing square has found the pivot IsPivot describes. */
  lemma ScanComplete(b: BaseFunctions, M: Matrix, di: nat, j: int, pi: int, pj: int, pd: int, pr: int)
    requires b.WellFormed() && Square(M) && j >= |M|
    requires PivotSoFar(M, Reductions(b, M), di, di, j, pi, pj, pd, pr)
    ensures IsPivot(b, M, di, pi, pj, pd, pr)
  {
    var n := |M|;
    assert forall i', j' :: di <= i' < n && di <= j' < n ==> ScannedBefore(i', j', di, j);
  }

  /** The pivot is fully determined by the matrix: ties are broken by scan order. */
  lemma PivotUnique(b: BaseFunctions, M: Matrix, di: nat, pi: int, pj: int, pd: int, pr: int,
                    qi: int, qj: int, qd: int, qr: int)
    requires b.WellFormed() && Square(M)
    requires IsPivot(b, M, di, pi, pj, pd, pr) && IsPivot(b, M, di, qi, qj, qd, qr)
    ensures (pi, pj, pd, pr) == (qi, qj, qd, qr)
  {
  }

  /**
   * With a valid table the pivot is an entry of least 2-adic valuation in
   * the trailing square, pr is that valuation and pd the odd cofactor.
   */
  lemma PivotLeastValuation(b: BaseFunctions, M: Matrix, di: nat, pi: int, pj: int, pd: int, pr: int)
    requires b.Valid() && Square(M) && Residues(M, b.m)
    requires IsPivot(b, M, di, pi, pj, pd, pr) && pi != -1
    ensures pr == TrailingZeros(M[pi][pj]) && pd == OddPart(M[pi][pj])
    ensures M[pi][pj] == Pow2(pr) * pd && pd % 2 == 1
    ensures forall i, j :: di <= i < |M| && di <= j < |M| && M[i][j] > 0 ==> pr <= TrailingZeros(M[i][j])
  {
    ReductionCorrect(b, M[pi][pj]);
    forall i, j | di <= i < |M| && di <= j < |M| && M[i][j] > 0
      ensures pr <= TrailingZeros(M[i][j])
    {
      ReductionCorrect(b, M[i][j]);
    }
  }

  // ------------------------------------------------------ slice clearing

  /** The entry ClearColumn leaves at [i][j]: slice j is combined with slice pj when M[pi][j] > 0. */
  function ClearColumnEntry(M: Matrix, pi: nat, pj: nat, pd: int, pr: nat, m: nat, i: nat, j: nat): int
    requires m > 0 && Square(M) && pi < |M| && pj < |M| && i < |M| && j < |M|
  {
    if j != pj && M[pi][j] > 0 then Combine(M[i][j], M[i][pj], pd, ShiftRight(M[pi][j], pr), m)
    else M[i][j]
  }

  /**
   * ClearColumn's effect on A: for every j != pj with A[pi][j] > 0, the
   * positions [.][j] become pd * A[.][j] - alpha * A[.][pj] mod m with
   * alpha = A[pi][j] >> pr.
   */
  function ColumnsCleared(M: Matrix, pi: nat, pj: nat, pd: int, pr: nat, m: nat): (R: Matrix)
    requires m > 0 && Square(M) && pi < |M| && pj < |M|
    ensures |R| == |M| && Square(R)
    ensures forall i :: 0 <= i < |M| ==> R[i][pj] == M[i][pj]
    ensures forall i, j :: 0 <= i < |M| && 0 <= j < |M| ==> R[i][j] == M[i][j] || 0 <= R[i][j] < m
  {
    seq(|M|, i requires 0 <= i < |M| =>
      seq(|M|, j requires 0 <= j < |M| => ClearColumnEntry(M, pi, pj, pd, pr, m, i, j)))
  }

  /**
   * The entry ClearRow leaves at [i][j] of X, with the guard and alpha read
   * from G (A's value before the call): slice i is combined with slice pi
   * when G[i][pj] > 0.
   */
  function ClearRowEntry(G: Matrix, X: Matrix, pi: nat, pj: nat, pd: int, pr: nat, m: nat, i: nat, j: nat): int
    requires m > 0 && Square(G) && Square(X) && |X| == |G| && pi < |G| && pj < |G| && i < |G| && j < |G|
  {
    if i != pi && G[i][pj] > 0 then Combine(X[i][j], X[pi][j], pd, ShiftRight(G[i][pj], pr), m)
    else X[i][j]
  }

  /**
   * ClearRow's effect on a matrix X (A itself or T): for every i != pi with
   * A[i][pj] > 0 the slice X[i] becomes pd * X[i] - alpha * X[pi] mod m with
   * alpha = A[i][pj] >> pr.
   */
  function RowsCleared(G: Matrix, X: Matrix, pi: nat, pj: nat, pd: int, pr: nat, m: nat): (R: Matrix)
    requires m > 0 && Square(G) && Square(X) && |X| == |G| && pi < |G| && pj < |G|
    ensures |R| == |X| && Square(R)
    ensures R[pi] == X[pi]
    ensures forall i, j :: 0 <= i < |X| && 0 <= j < |X| ==> R[i][j] == X[i][j] || 0 <= R[i][j] < m
  {
    seq(|X|, i requires 0 <= i < |X| =>
      seq(|X|, j requires 0 <= j < |X| => ClearRowEntry(G, X, pi, pj, pd, pr, m, i, j)))
  }

  /** Both clearings map ring matrices to ring matrices. */
  lemma ClearingKeepsResidues(M: Matrix, N: Matrix, pi: nat, pj: nat, pd: int, pr: nat, m: nat)
    requires m > 0 && Square(M) && Square(N) && |N| == |M| && pi < |M| && pj < |M|
    requires Residues(M, m) && Residues(N, m)
    ensures Residues(ColumnsCleared(M, pi, pj, pd, pr, m), m)
    ensures Residues(RowsCleared(M, N, pi, pj, pd, pr, m), m)
  {
    var C := ColumnsCleared(M, pi, pj, pd, pr, m);
    var R := RowsCleared(M, N, pi, pj, pd, pr, m);
    forall i, j | 0 <= i < |M| && 0 <= j < |M|
      ensures 0 <= C[i][j] < m && 0 <= R[i][j] < m
    {
      assert C[i][j] == M[i][j] || 0 <= C[i][j] < m;
      assert R[i][j] == N[i][j] || 0 <= R[i][j] < m;
    }
  }

  /**
   * With an odd pivot (pr = 0) already reduced to pd, ClearColumn zeroes
   * every other position of the pivot's slice A[pi].
   */
  lemma ClearColumnZeroesPivotSlice(M: Matrix, pi: nat, pj: nat, pd: int, m: nat)
    requires m > 0 && Square(M) && pi < |M| && pj < |M| && Residues(M, m)
    requires M[pi][pj] == pd
    ensures forall j :: 0 <= j < |M| && j != pj ==> ColumnsCleared(M, pi, pj, pd, 0, m)[pi][j] == 0
  {
    var C := ColumnsCleared(M, pi, pj, pd, 0, m);
    forall j | 0 <= j < |M| && j != pj
      ensures C[pi][j] == 0
    {
      if M[pi][j] > 0 {
        assert C[pi][j] == (M[pi][j] * pd - pd * M[pi][j]) % m;
      }
    }
  }

  /**
   * With an odd pivot (pr = 0) already reduced to pd, ClearRow zeroes every
   * other entry of position pj.
   */
  lemma ClearRowZeroesPivotPosition(M: Matrix, pi: nat, pj: nat, pd: int, m: nat)
    requires m > 0 && Square(M) && pi < |M| && pj < |M| && Residues(M, m)
    requires M[pi][pj] == pd
    ensures forall i :: 0 <= i < |M| && i != pi ==> RowsCleared(M, M, pi, pj, pd, 0, m)[i][pj] == 0
  {
    var R := RowsCleared(M, M, pi, pj, pd, 0, m);
    forall i | 0 <= i < |M| && i != pi
      ensures R[i][pj] == 0
    {
      if M[i][pj] > 0 {
        assert R[i][pj] == (M[i][pj] * pd - pd * M[i][pj]) % m;
      }
    }
  }

  /**
   * The zeroing needs pr = 0: a pivot 2 (pr = 1) overwritten with its odd
   * cofactor 1 leaves the entry 2 beside it as 1, not 0.
   */
  lemma EvenPivotNotCleared()
    ensures ColumnsCleared([[1, 2], [0, 4]], 0, 0, 1, 1, 256)[0][1] == 1
  {
    var M: Matrix := [[1, 2], [0, 4]];
    assert ShiftRight(2, 1) == 1;
    assert ColumnsCleared(M, 0, 0, 1, 1, 256)[0][1] == Combine(2, 1, 1, 1, 256);
  }

  // ------------------------------------------------------------ exchanges

  /** M with first-index slices x and y swapped. */
  function SwapFirst(M: Matrix, x: nat, y: nat): (R: Matrix)
    requires x < |M| && y < |M|
    ensures |R| == |M| && R[x] == M[y] && R[y] == M[x]
    ensures forall i :: 0 <= i < |M| && i != x && i != y ==> R[i] == M[i]
  {
    M[x := M[y]][y := M[x]]
  }

  /** Where an exchange of x and y takes index k from. */
  function Swapped(k: nat, x: nat, y: nat): (r: nat)
    ensures r == k || r == x || r == y
  {
    if k == x then y else if k == y then x else k
  }

  /** M with second-index positions x and y swapped in every slice. */
  function SwapSecond(M: Matrix, x: nat, y: nat): (R: Matrix)
    requires Square(M) && x < |M| && y < |M|
    ensures |R| == |M| && Square(R)
    ensures forall i, j :: 0 <= i < |M| && 0 <= j < |M| ==> R[i][j] == M[i][Swapped(j, x, y)]
  {
    seq(|M|, i requires 0 <= i < |M| => M[i][x := M[i][y]][y := M[i][x]])
  }

  /** Swapping a slice with itself changes nothing; swapping twice restores M. */
  lemma SwapFirstInvolution(M: Matrix, x: nat, y: nat)
    requires x < |M| && y < |M|
    ensures SwapFirst(M, x, x) == M
    ensures SwapFirst(SwapFirst(M, x, y), x, y) == M
  {
    var R := SwapFirst(SwapFirst(M, x, y), x, y);
    assert forall i :: 0 <= i < |M| ==> R[i] == M[i];
  }

  /** Swapping a position with itself changes nothing; swapping twice restores M. */
  lemma SwapSecondInvolution(M: Matrix, x: nat, y: nat)
    requires Square(M) && x < |M| && y < |M|
    ensures SwapSecond(M, x, x) == M
    ensures SwapSecond(SwapSecond(M, x, y), x, y) == M
  {
    var S := SwapSecond(M, x, x);
    var R := SwapSecond(SwapSecond(M, x, y), x, y);
    forall i | 0 <= i < |M|
      ensures S[i] == M[i] && R[i] == M[i]
    {
      assert forall j :: 0 <= j < |M| ==> S[i][j] == M[i][j] && R[i][j] == M[i][j];
    }
  }

  /** Swaps move entries without changing them. */
  lemma SwapsKeepResidues(M: Matrix, x: nat, y: nat, m: nat)
    requires Square(M) && x < |M| && y < |M| && Residues(M, m)
    ensures Residues(SwapFirst(M, x, y), m) && Residues(SwapSecond(M, x, y), m)
  {
    var R := SwapFirst(M, x, y);
    forall i, j | 0 <= i < |R| && 0 <= j < |R[i]|
      ensures 0 <= R[i][j] < m
    {
      if i == x {
        assert R[i] == M[y];
      } else if i == y {
        assert R[i] == M[x];
      } else {
        assert R[i] == M[i];
      }
    }
  }

  /** Writing one ring element into a ring matrix keeps it a ring matrix. */
  lemma ResiduesAfterWrite(M: Matrix, i: nat, j: nat, v: int, m: nat)
    requires Square(M) && i < |M| && j < |M| && Residues(M, m) && 0 <= v < m
    ensures Residues(M[i := M[i][j := v]], m)
  {
    var R := M[i := M[i][j := v]];
    forall i', j' | 0 <= i' < |R| && 0 <= j' < |R[i']|
      ensures 0 <= R[i'][j'] < m
    {
      if i' != i || j' != j {
        assert R[i'][j'] == M[i'][j'];
      }
    }
  }

  // ------------------------------------------------------------ the run

  /**
   * One diagonal step of Testuj on values, once the pivot is known: the
   * pivot entry becomes pd, ClearColumn runs on A alone, ClearRow on A and
   * T with A's cleared value as guide, then the exchange of slices di, pi
   * and of positions di, pj in both.
   */
  function StepResult(M: Matrix, N: Matrix, di: nat, pi: nat, pj: nat, pd: int, pr: nat, m: nat): (r: (Matrix, Matrix))
    requires m > 0 && Square(M) && Square(N) && |N| == |M| && di < |M| && pi < |M| && pj < |M|
    ensures |r.0| == |M| && Square(r.0) && |r.1| == |M| && Square(r.1)
  {
    var P := M[pi := M[pi][pj := pd]];
    assert Square(P);
    var Q := ColumnsCleared(P, pi, pj, pd, pr, m);
    var A1 := SwapFirst(RowsCleared(Q, Q, pi, pj, pd, pr, m), di, pi);
    var T1 := SwapFirst(RowsCleared(Q, N, pi, pj, pd, pr, m), di, pi);
    assert Square(A1) && Square(T1);
    (SwapSecond(A1, di, pj), SwapSecond(T1, di, pj))
  }

  /**
   * Testuj from diagonal index di on: with A = M and T = N it ends with
   * A = Mf and T = Nf, done telling whether every step up to var_n - 2 found
   * a pivot. Each step takes the pivot IsPivot describes; a trailing square
   * without a positive entry stops the run.
   */
  ghost predicate Reaches(b: BaseFunctions, M: Matrix, N: Matrix, di: nat, Mf: Matrix, Nf: Matrix, done: bool)
    requires b.WellFormed() && b.m > 0 && Square(M) && Square(N) && |N| == |M|
    decreases |M| - di, 1
  {
    if di + 1 >= |M| then (Mf, Nf, done) == (M, N, true)
    else exists pi, pj, pd, pr :: PivotThen(b, M, N, di, pi, pj, pd, pr, Mf, Nf, done)
  }

  /** Step di takes pivot (pi, pj, pd, pr), and the run goes on from its result (or stops, when there is none). */
  ghost predicate PivotThen(b: BaseFunctions, M: Matrix, N: Matrix, di: nat, pi: int, pj: int, pd: int, pr: int,
                            Mf: Matrix, Nf: Matrix, done: bool)
    requires b.WellFormed() && b.m > 0 && Square(M) && Square(N) && |N| == |M| && di + 1 < |M|
    decreases |M| - di, 0
  {
    && IsPivot(b, M, di, pi, pj, pd, pr)
    && if pi == -1 then (Mf, Nf, done) == (M, N, false)
       else
         var S := StepResult(M, N, di, pi, pj, pd, pr, b.m);
         Reaches(b, S.0, S.1, di + 1, Mf, Nf, done)
  }

  /** A step that found its pivot continues the run from the step's result. */
  lemma ReachesStep(b: BaseFunctions, M: Matrix, N: Matrix, di: nat, pi: int, pj: int, pd: int, pr: int,
                    Mf: Matrix, Nf: Matrix, done: bool)
    requires b.WellFormed() && b.m > 0 && Square(M) && Square(N) && |N| == |M| && di + 1 < |M|
    requires IsPivot(b, M, di, pi, pj, pd, pr) && pi != -1
    requires var S := StepResult(M, N, di, pi, pj, pd, pr, b.m); Reaches(b, S.0, S.1, di + 1, Mf, Nf, done)
    ensures Reaches(b, M, N, di, Mf, Nf, done)
  {
    assert PivotThen(b, M, N, di, pi, pj, pd, pr, Mf, Nf, done);
  }

  /** A step that finds no positive entry ends the run where it is, unfinished. */
  lemma ReachesStop(b: BaseFunctions, M: Matrix, N: Matrix, di: nat)
    requires b.WellFormed() && b.m > 0 && Square(M) && Square(N) && |N| == |M| && di + 1 < |M|
    requires IsPivot(b, M, di, -1, -1, 0, IntMaxValue)
    ensures Reaches(b, M, N, di, M, N, false)
  {
    assert PivotThen(b, M, N, di, -1, -1, 0, IntMaxValue, M, N, false);
  }

  /** Every outcome of the run from step di on (at M, N) is an outcome of the run from step 0 at M0, N0. */
  ghost predicate RunsOn(b: BaseFunctions, M0: Matrix, N0: Matrix, M: Matrix, N: Matrix, di: nat)
    requires b.WellFormed() && b.m > 0 && Square(M0) && Square(N0) && |N0| == |M0|
    requires Square(M) && Square(N) && |N| == |M|
  {
    forall Mf, Nf, done {:trigger Reaches(b, M, N, di, Mf, Nf, done)} ::
      Reaches(b, M, N, di, Mf, Nf, done) ==> Reaches(b, M0, N0, 0, Mf, Nf, done)
  }

  /** A step that found its pivot keeps the loop on the run. */
  lemma RunsOnStep(b: BaseFunctions, M0: Matrix, N0: Matrix, M: Matrix, N: Matrix, di: nat,
                   pi: int, pj: int, pd: int, pr: int)
    requires b.WellFormed() && b.m > 0 && Square(M0) && Square(N0) && |N0| == |M0|
    requires Square(M) && Square(N) && |N| == |M| && di + 1 < |M|
    requires RunsOn(b, M0, N0, M, N, di)
    requires IsPivot(b, M, di, pi, pj, pd, pr) && pi != -1
    ensures var S := StepResult(M, N, di, pi, pj, pd, pr, b.m); RunsOn(b, M0, N0, S.0, S.1, di + 1)
  {
    var S := StepResult(M, N, di, pi, pj, pd, pr, b.m);
    forall Mf, Nf, done | Reaches(b, S.0, S.1, di + 1, Mf, Nf, done)
      ensures Reaches(b, M0, N0, 0, Mf, Nf, done)
    {
      ReachesStep(b, M, N, di, pi, pj, pd, pr, Mf, Nf, done);
    }
  }

  /** A run with no pivot at step di ends there, unfinished. */
  lemma RunsOnStop(b: BaseFunctions, M0: Matrix, N0: Matrix, M: Matrix, N: Matrix, di: nat)
    requires b.WellFormed() && b.m > 0 && Square(M0) && Square(N0) && |N0| == |M0|
    requires Square(M) && Square(N) && |N| == |M| && di + 1 < |M|
    requires RunsOn(b, M0, N0, M, N, di) && IsPivot(b, M, di, -1, -1, 0, IntMaxValue)
    ensures Reaches(b, M0, N0, 0, M, N, false)
  {
    ReachesStop(b, M, N, di);
  }

  /** A run past step var_n - 2 is complete. */
  lemma RunsOnEnd(b: BaseFunctions, M0: Matrix, N0: Matrix, M: Matrix, N: Matrix, di: nat)
    requires b.WellFormed() && b.m > 0 && Square(M0) && Square(N0) && |N0| == |M0|
    requires Square(M) && Square(N) && |N| == |M| && di + 1 >= |M|
    requires RunsOn(b, M0, N0, M, N, di)
    ensures Reaches(b, M0, N0, 0, M, N, true)
  {
    assert Reaches(b, M, N, di, M, N, true);
  }

  /** The run has one outcome: the pivot of every step is determined by the matrix. */
  lemma {:induction false} ReachesDeterministic(b: BaseFunctions, M: Matrix, N: Matrix, di: nat,
                                                Mf: Matrix, Nf: Matrix, done: bool, Mg: Matrix, Ng: Matrix, done': bool)
    requires b.WellFormed() && b.m > 0 && Square(M) && Square(N) && |N| == |M|
    requires Reaches(b, M, N, di, Mf, Nf, done) && Reaches(b, M, N, di, Mg, Ng, done')
    ensures (Mf, Nf, done) == (Mg, Ng, done')
    decreases |M| - di
  {
    if di + 1 < |M| {
      var pi, pj, pd, pr :| PivotThen(b, M, N, di, pi, pj, pd, pr, Mf, Nf, done);
      var qi, qj, qd, qr :| PivotThen(b, M, N, di, qi, qj, qd, qr, Mg, Ng, done');
      PivotUnique(b, M, di, pi, pj, pd, pr, qi, qj, qd, qr);
      if pi != -1 {
        var S := StepResult(M, N, di, pi, pj, pd, pr, b.m);
        ReachesDeterministic(b, S.0, S.1, di + 1, Mf, Nf, done, Mg, Ng, done');
      }
    }
  }

  // ------------------------------------------------------------ arrays

  /** The entries of array X are those of the matrix value M. */
  ghost predicate Holds(X: array2<int>, M: Matrix)
    reads X
  {
    && |M| == X.Length0 && Rectangular(M, X.Length1)
    && forall i, j :: 0 <= i < X.Length0 && 0 <= j < X.Length1 ==> X[i, j] == M[i][j]
  }
}
