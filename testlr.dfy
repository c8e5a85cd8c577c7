// TestLR: a diagonalisation experiment over Z/2^w. Starting from a fixed
// 3 x 3 matrix A and T = identity it repeatedly picks a pivot of least
// 2-adic valuation, clears the pivot's slices with ring combinations,
// applies the same slice-combinations to T, and moves the pivot onto the
// diagonal by swapping slices.
//
// The model's arrays are array2<int> with A[i, j] for the source's
// A[i][j]. The ghost fields Av and Tv hold their contents as values, and
// the effect of each step on them is stated with the functions of module
// Elimination.

module LRTest {
  import opened Arith
  import opened Ring
  import opened Elimination

  /** The matrix Default() starts from. */
  const DefaultA: Matrix := [[1, 4, 2], [0, 6, 7], [0, 0, 3]]

  class TestLR {
    const b: BaseFunctions
    const n: nat
    const m: nat
    const A: array2<int>
    const T: array2<int>
    /** The contents of A and T. */
    ghost var Av: Matrix
    ghost var Tv: Matrix

    /** Square n x n arrays over Z/m, A and T distinct, Av and Tv their contents. */
    ghost predicate Stored()
      reads this, A, T
    {
      && m > 0 && A != T && A.Length0 == n && A.Length1 == n && T.Length0 == n && T.Length1 == n
      && Holds(A, Av) && Holds(T, Tv) && Residues(Av, m) && Residues(Tv, m)
    }

    /** Stored, over the ring of a valid BaseFunctions with n = var_n and m = var_m. */
    ghost predicate Valid()
      reads this, A, T
    {
      b.Valid() && b.w <= IntMaxValue && n == b.n && m == b.m && Stored()
    }

    /** Default: the ring Z/2^8 over 2 variables (n = 3), the fixed matrix A and T = identity. */
    constructor Default()
      ensures Valid() && fresh(A) && fresh(T)
      ensures b.w == 8 && n == 3 && m == 256
      ensures Av == DefaultA && Tv == IdentityMatrix(3)
    {
      var res := CreateBase(8, 2);
      b := res.value;
      n, m := res.value.n, res.value.m;
      assert Pow2(8) == 256;
      A := new int[3, 3]((i, j) requires 0 <= i < 3 && 0 <= j < 3 => DefaultA[i][j]);
      var id := GetIdentity(3);
      T := id;
      Av, Tv := DefaultA, IdentityMatrix(3);
    }

    /** GetPivot: scan A[di..][di..] with j outer and i inner for the positive entry of least r. */
    method GetPivot(di: nat) returns (pi: int, pj: int, pd: int, pr: int)
      requires Valid()
      ensures IsPivot(b, Av, di, pi, pj, pd, pr)
    {
      ghost var V := Reductions(b, Av);
      pr, pd, pi, pj := IntMaxValue, 0, -1, -1;
      var j := di;
      while j < n
        invariant di <= j
        invariant PivotSoFar(Av, V, di, di, j, pi, pj, pd, pr)
      {
        pi, pj, pd, pr := ScanSlice(V, di, j, pi, pj, pd, pr);
        j := j + 1;
      }
      ScanComplete(b, Av, di, j, pi, pj, pd, pr);
    }

    /** The inner loop of GetPivot: positions [di..][j] in turn. */
    method ScanSlice(ghost V: seq<seq<(nat, int)>>, di: nat, j: nat, pi0: int, pj0: int, pd0: int, pr0: int)
      returns (pi: int, pj: int, pd: int, pr: int)
      requires b.WellFormed() && b.w <= IntMaxValue && Holds(A, Av) && n == A.Length0 == A.Length1 && Matches(Av, V) && di <= j < n
      requires forall i :: 0 <= i < n && Av[i][j] > 0 ==> V[i][j] == Reduction(b, Av[i][j])
      requires PivotSoFar(Av, V, di, di, j, pi0, pj0, pd0, pr0)
      ensures PivotSoFar(Av, V, di, di, j + 1, pi, pj, pd, pr)
    {
      pi, pj, pd, pr := pi0, pj0, pd0, pr0;
      var i := di;
      while i < n
        invariant di <= i <= n
        invariant PivotSoFar(Av, V, di, i, j, pi, pj, pd, pr)
      {
        if A[i, j] > 0 {
          var rd := Reduction(b, A[i, j]);
          assert rd == V[i][j];
          if rd.0 < pr {
            ScanTake(Av, V, di, i, j, pi, pj, pd, pr);
            pi, pj, pd, pr := i, j, rd.1, rd.0;
          } else {
            ScanKeep(Av, V, di, i, j, pi, pj, pd, pr);
          }
        } else {
          ScanKeep(Av, V, di, i, j, pi, pj, pd, pr);
        }
        i := i + 1;
      }
      ScanNextColumn(Av, V, di, j, pi, pj, pd, pr);
    }

    /** ClearColumn: combine, inside A only, every position j != pj whose entry in slice pi is positive. */
    method ClearColumn(pi: nat, pj: nat, pd: int, pr: nat)
      requires Stored() && pi < n && pj < n
      modifies this, A
      ensures Stored()
      ensures Av == ColumnsCleared(old(Av), pi, pj, pd, pr, m) && Tv == old(Tv)
    {
      ghost var M := Av;
      for j := 0 to n
        modifies A
        invariant forall i', j' :: 0 <= i' < n && 0 <= j' < n ==>
                    A[i', j'] == if j' < j then ClearColumnEntry(M, pi, pj, pd, pr, m, i', j') else M[i'][j']
      {
        if j != pj && A[pi, j] > 0 {
          var alpha := ShiftRight(A[pi, j], pr);
          for i := 0 to n
            modifies A
            invariant forall i', j' :: 0 <= i' < n && 0 <= j' < n ==>
                        A[i', j'] == if j' < j || (j' == j && i' < i) then ClearColumnEntry(M, pi, pj, pd, pr, m, i', j')
                                     else M[i'][j']
          {
            A[i, j] := Combine(A[i, j], A[i, pj], pd, alpha, m);
          }
        }
      }
      Av := ColumnsCleared(M, pi, pj, pd, pr, m);
      ClearingKeepsResidues(M, Tv, pi, pj, pd, pr, m);
    }

    /** ClearRow: combine every slice i != pi with A[i][pj] > 0 with slice pi, in A and the same way in T. */
    method ClearRow(pi: nat, pj: nat, pd: int, pr: nat)
      requires Stored() && pi < n && pj < n
      modifies this, A, T
      ensures Stored()
      ensures Av == RowsCleared(old(Av), old(Av), pi, pj, pd, pr, m)
      ensures Tv == RowsCleared(old(Av), old(Tv), pi, pj, pd, pr, m)
    {
      ghost var M, N := Av, Tv;
      for i := 0 to n
        modifies A, T
        invariant forall i', j' :: 0 <= i' < n && 0 <= j' < n ==>
                    A[i', j'] == if i' < i then ClearRowEntry(M, M, pi, pj, pd, pr, m, i', j') else M[i'][j']
        invariant forall i', j' :: 0 <= i' < n && 0 <= j' < n ==>
                    T[i', j'] == if i' < i then ClearRowEntry(M, N, pi, pj, pd, pr, m, i', j') else N[i'][j']
      {
        if i != pi && A[i, pj] > 0 {
          var alpha := ShiftRight(A[i, pj], pr);
          for j := 0 to n
            modifies A, T
            invariant forall i', j' :: 0 <= i' < n && 0 <= j' < n ==>
                        A[i', j'] == if i' < i || (i' == i && j' < j) then ClearRowEntry(M, M, pi, pj, pd, pr, m, i', j')
                                     else M[i'][j']
            invariant forall i', j' :: 0 <= i' < n && 0 <= j' < n ==>
                        T[i', j'] == if i' < i || (i' == i && j' < j) then ClearRowEntry(M, N, pi, pj, pd, pr, m, i', j')
                                     else N[i'][j']
          {
            A[i, j] := Combine(A[i, j], A[pi, j], pd, alpha, m);
            T[i, j] := Combine(T[i, j], T[pi, j], pd, alpha, m);
          }
        }
      }
      Av, Tv := RowsCleared(M, M, pi, pj, pd, pr, m), RowsCleared(M, N, pi, pj, pd, pr, m);
      ClearingKeepsResidues(M, N, pi, pj, pd, pr, m);
      ClearingKeepsResidues(M, M, pi, pj, pd, pr, m);
    }

    /** ExchangeColumns: swap first-index slices di and pi of A and of T (nothing to do when equal). */
    method ExchangeColumns(di: nat, pi: nat)
      requires Stored() && di < n && pi < n
      modifies this, A, T
      ensures Stored()
      ensures Av == SwapFirst(old(Av), di, pi) && Tv == SwapFirst(old(Tv), di, pi)
    {
      ghost var M, N := Av, Tv;
      SwapsKeepResidues(M, di, pi, m);
      SwapsKeepResidues(N, di, pi, m);
      if di == pi {
        SwapFirstInvolution(M, di, pi);
        SwapFirstInvolution(N, di, pi);
        Av, Tv := SwapFirst(M, di, pi), SwapFirst(N, di, pi);
        return;
      }
      SwapSlices(A, T, M, N, di, pi);
      Av, Tv := SwapFirst(M, di, pi), SwapFirst(N, di, pi);
    }

    /** ExchangeRows: swap second-index positions di and pj in every slice of A and of T (nothing to do when equal). */
    method ExchangeRows(di: nat, pj: nat)
      requires Stored() && di < n && pj < n
      modifies this, A, T
      ensures Stored()
      ensures Av == SwapSecond(old(Av), di, pj) && Tv == SwapSecond(old(Tv), di, pj)
    {
      ghost var M, N := Av, Tv;
      SwapsKeepResidues(M, di, pj, m);
      SwapsKeepResidues(N, di, pj, m);
      if di == pj {
        SwapSecondInvolution(M, di, pj);
        SwapSecondInvolution(N, di, pj);
        Av, Tv := SwapSecond(M, di, pj), SwapSecond(N, di, pj);
        return;
      }
      SwapPositions(A, T, M, N, di, pj);
      Av, Tv := SwapSecond(M, di, pj), SwapSecond(N, di, pj);
    }

    /** The loop of ExchangeColumns: entry by entry along the second index, slices x and y trade places in A and T. */
    static method SwapSlices(A: array2<int>, T: array2<int>, ghost M: Matrix, ghost N: Matrix, x: nat, y: nat)
      requires A != T && Holds(A, M) && Holds(T, N)
      requires A.Length1 == T.Length1 && |M| == |N| && x < |M| && y < |M| && x != y
      modifies A, T
      ensures Holds(A, SwapFirst(M, x, y)) && Holds(T, SwapFirst(N, x, y))
    {
      for j := 0 to A.Length1
        modifies A, T
        invariant forall i', j' :: 0 <= i' < |M| && 0 <= j' < j ==> A[i', j'] == M[Swapped(i', x, y)][j']
        invariant forall i', j' :: 0 <= i' < |M| && j <= j' < A.Length1 ==> A[i', j'] == M[i'][j']
        invariant forall i', j' :: 0 <= i' < |M| && 0 <= j' < j ==> T[i', j'] == N[Swapped(i', x, y)][j']
        invariant forall i', j' :: 0 <= i' < |M| && j <= j' < A.Length1 ==> T[i', j'] == N[i'][j']
      {
        SwapEntries(A, y, j, x, j);
        SwapEntries(T, y, j, x, j);
      }
    }

    /** The loop of ExchangeRows: slice by slice, second-index positions x and y trade places in A and T. */
    static method SwapPositions(A: array2<int>, T: array2<int>, ghost M: Matrix, ghost N: Matrix, x: nat, y: nat)
      requires A != T && Holds(A, M) && Holds(T, N) && A.Length0 == A.Length1 && T.Length0 == T.Length1
      requires |M| == |N| && x < |M| && y < |M| && x != y
      modifies A, T
      ensures Holds(A, SwapSecond(M, x, y)) && Holds(T, SwapSecond(N, x, y))
    {
      for i := 0 to A.Length0
        modifies A, T
        invariant forall i', j' :: 0 <= i' < i && 0 <= j' < |M| ==> A[i', j'] == M[i'][Swapped(j', x, y)]
        invariant forall i', j' :: i <= i' < |M| && 0 <= j' < |M| ==> A[i', j'] == M[i'][j']
        invariant forall i', j' :: 0 <= i' < i && 0 <= j' < |M| ==> T[i', j'] == N[i'][Swapped(j', x, y)]
        invariant forall i', j' :: i <= i' < |M| && 0 <= j' < |M| ==> T[i', j'] == N[i'][j']
      {
        SwapEntries(A, i, y, i, x);
        SwapEntries(T, i, y, i, x);
      }
    }

    /** The three-assignment exchange through a temporary that both exchange loops perform. */
    static method SwapEntries(X: array2<int>, i1: nat, j1: nat, i2: nat, j2: nat)
      requires i1 < X.Length0 && i2 < X.Length0 && j1 < X.Length1 && j2 < X.Length1
      modifies X
      ensures X[i1, j1] == old(X[i2, j2]) && X[i2, j2] == old(X[i1, j1])
      ensures forall i, j :: 0 <= i < X.Length0 && 0 <= j < X.Length1 && (i != i1 || j != j1) && (i != i2 || j != j2) ==>
                X[i, j] == old(X[i, j])
    {
      var t := X[i1, j1];
      X[i1, j1] := X[i2, j2];
      X[i2, j2] := t;
    }

    /**
     * The rest of one diagonal step once the pivot is known: the pivot entry
     * is overwritten with pd, then ClearColumn, ClearRow and the two
     * exchanges run in turn.
     */
    method DiagonalStep(di: nat, pi: nat, pj: nat, pd: int, pr: nat)
      requires Valid() && di < n && pi < n && pj < n
      requires Av[pi][pj] > 0 && (pr, pd) == Reduction(b, Av[pi][pj])
      modifies this, A, T
      ensures Valid()
      ensures (Av, Tv) == StepResult(old(Av), old(Tv), di, pi, pj, pd, pr, m)
    {
      ghost var M := Av;
      ReductionCorrect(b, M[pi][pj]);
      MulAtLeast(pd, Pow2(pr));
      A[pi, pj] := pd;
      ResiduesAfterWrite(M, pi, pj, pd, m);
      Av := M[pi := M[pi][pj := pd]];
      ClearColumn(pi, pj, pd, pr);
      ClearRow(pi, pj, pd, pr);
      ExchangeColumns(di, pi);
      ExchangeRows(di, pj);
    }

    /**
     * The loop of Testuj: var_n - 1 diagonal steps, each finding the pivot,
     * overwriting it with pd, clearing, and exchanging; the run Reaches
     * describes from the matrices it starts with. Where the source would
     * index A[-1] (no positive entry left in the trailing square) the model
     * stops and returns false.
     */
    method Diagonalise() returns (completed: bool)
      requires Valid()
      modifies this, A, T
      ensures Valid()
      ensures Reaches(b, old(Av), old(Tv), 0, Av, Tv, completed)
    {
      ghost var A0, T0 := Av, Tv;
      var di := 0;
      while di < n - 1
        invariant Valid() && di < n
        invariant RunsOn(b, A0, T0, Av, Tv, di)
      {
        var pi, pj, pd, pr := GetPivot(di);
        if pi == -1 {
          RunsOnStop(b, A0, T0, Av, Tv, di);
          return false;
        }
        RunsOnStep(b, A0, T0, Av, Tv, di, pi, pj, pd, pr);
        DiagonalStep(di, pi, pj, pd, pr);
        di := di + 1;
      }
      RunsOnEnd(b, A0, T0, Av, Tv, di);
      return true;
    }

    /** Testuj: Default(), then the diagonal steps, from the fixed A and T = identity. */
    static method Testuj() returns (lr: TestLR, completed: bool)
      ensures fresh(lr) && lr.Valid()
      ensures lr.b.w == 8 && lr.n == 3 && lr.m == 256
      ensures Reaches(lr.b, DefaultA, IdentityMatrix(3), 0, lr.Av, lr.Tv, completed)
    {
      lr := new TestLR.Default();
      completed := lr.Diagonalise();
    }
  }
}
