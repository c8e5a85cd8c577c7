// TransitionMatrixSet: the matrices of one edge. An edge assigning
// x_vi = c_0 + c_1 * x_1 + ... (terms in any order) becomes the identity
// with column vi (entries M[a][vi]) replaced by the coefficients; an
// assignment it cannot read becomes the pair x_vi := 0, x_vi := 1.

module Transition {
  import opened Arith
  import opened Options
  import opened Ring

  datatype Token = Plus | Minus | Multi | Equals | OtherToken

  /** The expression nodes an edge carries: literals, variable names and binary operators. */
  datatype Ast =
    | Number(value: nat)
    | Variable(name: string)
    | Op(token: Token, left: Ast, right: Ast)

  /** One recognised term: coefficient c of slot index (0 for the constant). */
  datatype Term = Term(index: nat, coeff: nat)

  /** List<string>.IndexOf: the first position of x, or -1. */
  function IndexOf(vars: seq<string>, x: string): (i: int)
    ensures -1 <= i < |vars|
    ensures i == -1 <==> x !in vars
    ensures i >= 0 ==> vars[i] == x && forall k :: 0 <= k < i ==> vars[k] != x
  {
    if |vars| == 0 then -1
    else if vars[0] == x then 0
    else
      var rest := IndexOf(vars[1..], x);
      if rest == -1 then -1 else rest + 1
  }

  /** The slot of a variable: its position in vars plus one, 0 (the constant slot) when undeclared. */
  function Slot(vars: seq<string>, x: string): (s: nat)
    ensures s <= |vars|
    ensures s == 0 <==> x !in vars
    ensures s > 0 ==> vars[s - 1] == x
  {
    IndexOf(vars, x) + 1
  }

  /** Nodes the walk treats as a single term: a number, a variable, a product. */
  predicate IsTermNode(node: Ast)
  {
    node.Number? || node.Variable? || (node.Op? && node.token == Multi)
  }

  predicate IsAddSub(node: Ast)
  {
    node.Op? && (node.token == Plus || node.token == Minus)
  }

  /**
   * GetConst: the term a node stands for. A number is a constant, a
   * variable has coefficient 1, and a product needs a number on one side
   * and a variable on the other, in either order; its coefficient is the
   * number reduced mod m. Any other product fails, two numbers included
   * (the right one is taken as the number, and the left is then no variable).
   */
  function GetConst(m: nat, node: Ast, vars: seq<string>): (t: Option<Term>)
    requires m > 0
    ensures t.Some? ==> IsTermNode(node) && t.value.index <= |vars|
    ensures node.Number? ==> t == Some(Term(0, node.value))
    ensures node.Variable? ==> t == Some(Term(Slot(vars, node.name), 1))
    ensures t.Some? && node.Op? ==> t.value.coeff < m
    ensures node.Op? ==>
      (t.Some? <==> node.token == Multi && ((node.left.Variable? && node.right.Number?) || (node.left.Number? && node.right.Variable?)))
    ensures node.Op? && node.token == Multi && node.left.Variable? && node.right.Number?
      ==> t == Some(Term(Slot(vars, node.left.name), node.right.value % m))
    ensures node.Op? && node.token == Multi && node.left.Number? && node.right.Variable?
      ==> t == Some(Term(Slot(vars, node.right.name), node.left.value % m))
    ensures node.Op? && node.left.Number? && node.right.Number? ==> t == None
  {
    match node
    case Number(c) => Some(Term(0, c))
    case Variable(x) => Some(Term(Slot(vars, x), 1))
    case Op(tok, l, r) =>
      if tok != Multi then None
      else
        var (num, v) := if r.Number? then (r, l) else (l, r);
        if num.Number? && v.Variable? then
          ModAddModulus(num.value, m);
          Some(Term(Slot(vars, v.name), (num.value + m) % m))
        else None
  }

  /**
   * The walk ProceedExpr performs, as a value: the terms it adds to the
   * matrix, in order, and whether it reached the end without an error. A
   * Plus or Minus node contributes its term operand and continues with the
   * other one (the operands are swapped when the left one is itself a Plus
   * or Minus); Minus is read as Plus.
   */
  function Walk(m: nat, node: Ast, vars: seq<string>): (res: (seq<Term>, bool))
    requires m > 0
    ensures IndicesBelow(res.0, |vars| + 1)
    decreases node
  {
    if IsTermNode(node) then
      match GetConst(m, node, vars)
      case None => ([], false)
      case Some(t) => ([t], true)
    else if IsAddSub(node) then
      var (l, r) := if IsAddSub(node.left) then (node.right, node.left) else (node.left, node.right);
      if !IsTermNode(l) then ([], false)
      else
        match GetConst(m, l, vars)
        case None => ([], false)
        case Some(t) =>
          var rest := Walk(m, r, vars);
          ([t] + rest.0, rest.1)
    else ([], false)
  }

  /** Every term addresses a slot below bound. */
  predicate IndicesBelow(ts: seq<Term>, bound: nat)
  {
    forall k :: 0 <= k < |ts| ==> ts[k].index < bound
  }

  /** One step of ProceedExpr: mtx[index][vi] = (mtx[index][vi] + c) % m, on column vi as a value. */
  function AddTerm(col: seq<int>, t: Term, m: nat): (r: seq<int>)
    requires m > 0 && t.index < |col|
    ensures |r| == |col|
  {
    col[t.index := (col[t.index] + t.coeff) % m]
  }

  /** The terms added one after another. */
  function AddTerms(col: seq<int>, ts: seq<Term>, m: nat): (r: seq<int>)
    requires m > 0 && IndicesBelow(ts, |col|)
    ensures |r| == |col|
  {
    if |ts| == 0 then col else AddTerm(AddTerms(col, ts[..|ts| - 1], m), ts[|ts| - 1], m)
  }

  /** The sum of the coefficients of the terms for slot s. */
  function CoeffSum(ts: seq<Term>, s: nat): int
  {
    if |ts| == 0 then 0
    else CoeffSum(ts[..|ts| - 1], s) + (if ts[|ts| - 1].index == s then ts[|ts| - 1].coeff else 0)
  }

  /**
   * Reducing after every step is reducing once: each slot ends with its
   * start value plus all coefficients addressed to it, mod m.
   */
  lemma {:induction false} AddTermsSums(col: seq<int>, ts: seq<Term>, m: nat, s: nat)
    requires m > 0 && IndicesBelow(ts, |col|)
    requires s < |col| && 0 <= col[s] < m
    ensures AddTerms(col, ts, m)[s] == (col[s] + CoeffSum(ts, s)) % m
  {
    if |ts| == 0 {
      ModUnique(col[s], m, 0, col[s]);
    } else {
      var init := ts[..|ts| - 1];
      var t := ts[|ts| - 1];
      AddTermsSums(col, init, m, s);
      if t.index == s {
        ModAddLeft(col[s] + CoeffSum(init, s), t.coeff, m);
      }
    }
  }

  /** Every slot of the column stays in [0, m) when it starts there. */
  lemma {:induction false} AddTermsInRange(col: seq<int>, ts: seq<Term>, m: nat)
    requires m > 0 && IndicesBelow(ts, |col|)
    requires forall s :: 0 <= s < |col| ==> 0 <= col[s] < m
    ensures forall s :: 0 <= s < |col| ==> 0 <= AddTerms(col, ts, m)[s] < m
  {
    if |ts| > 0 {
      AddTermsInRange(col, ts[..|ts| - 1], m);
    }
  }

  /** Column j of an array-built matrix, top to bottom over the first index. */
  function Column(mtx: array2<int>, j: nat): (c: seq<int>)
    reads mtx
    requires j < mtx.Length1
    ensures |c| == mtx.Length0 && forall r :: 0 <= r < mtx.Length0 ==> c[r] == mtx[r, j]
  {
    seq(mtx.Length0, r requires 0 <= r < mtx.Length0 reads mtx => mtx[r, j])
  }

  /**
   * The walk applied straight to column col, as ProceedExpr's loop does it:
   * each term is added as soon as it is read.
   */
  function Run(m: nat, node: Ast, vars: seq<string>, col: seq<int>): (res: (seq<int>, bool))
    requires m > 0 && |vars| < |col|
    ensures |res.0| == |col|
    decreases node
  {
    if IsTermNode(node) then
      match GetConst(m, node, vars)
      case None => (col, false)
      case Some(t) => (AddTerm(col, t, m), true)
    else if IsAddSub(node) then
      var (l, r) := if IsAddSub(node.left) then (node.right, node.left) else (node.left, node.right);
      if !IsTermNode(l) then (col, false)
      else
        match GetConst(m, l, vars)
        case None => (col, false)
        case Some(t) => Run(m, r, vars, AddTerm(col, t, m))
    else (col, false)
  }

  /** Adding t first and then ts is adding [t] + ts. */
  lemma {:induction false} AddTermsCons(col: seq<int>, t: Term, ts: seq<Term>, m: nat)
    requires m > 0 && t.index < |col| && IndicesBelow(ts, |col|)
    ensures IndicesBelow([t] + ts, |col|)
    ensures AddTerms(col, [t] + ts, m) == AddTerms(AddTerm(col, t, m), ts, m)
    decreases |ts|
  {
    if |ts| > 0 {
      var init := ts[..|ts| - 1];
      assert ([t] + ts)[..|ts|] == [t] + init;
      AddTermsCons(col, t, init, m);
    }
  }

  /** Running the walk on a column adds Walk's terms to it and reports Walk's verdict. */
  lemma {:induction false} RunAddsWalk(m: nat, node: Ast, vars: seq<string>, col: seq<int>)
    requires m > 0 && |vars| < |col|
    ensures Run(m, node, vars, col) == (AddTerms(col, Walk(m, node, vars).0, m), Walk(m, node, vars).1)
    decreases node
  {
    if !IsTermNode(node) && IsAddSub(node) {
      var (l, r) := if IsAddSub(node.left) then (node.right, node.left) else (node.left, node.right);
      if IsTermNode(l) && GetConst(m, l, vars).Some? {
        var t := GetConst(m, l, vars).value;
        var col1 := AddTerm(col, t, m);
        RunAddsWalk(m, r, vars, col1);
        AddTermsCons(col, t, Walk(m, r, vars).0, m);
      }
    } else if IsTermNode(node) && GetConst(m, node, vars).Some? {
      assert AddTerms(col, [GetConst(m, node, vars).value], m) == AddTerm(col, GetConst(m, node, vars).value, m);
    }
  }

  /**
   * ProceedExpr: walk the right-hand side, adding every term's coefficient
   * into mtx[index][vi]. Reports Walk's verdict; the terms met before an
   * error have been added all the same.
   */
  method ProceedExpr(m: nat, top: Ast, mtx: array2<int>, vi: nat, vars: seq<string>) returns (ok: bool)
    requires m > 0 && |vars| < mtx.Length0 && vi < mtx.Length1
    requires forall r :: 0 <= r < mtx.Length0 ==> mtx[r, vi] >= 0
    modifies mtx
    ensures (Column(mtx, vi), ok) == Run(m, top, vars, old(Column(mtx, vi)))
    ensures forall r, j :: 0 <= r < mtx.Length0 && 0 <= j < mtx.Length1 && j != vi ==> mtx[r, j] == old(mtx[r, j])
  {
    ghost var col0 := Column(mtx, vi);
    var node := top;
    while true
      invariant Run(m, node, vars, Column(mtx, vi)) == Run(m, top, vars, col0)
      invariant forall r :: 0 <= r < mtx.Length0 ==> mtx[r, vi] >= 0
      invariant forall r, j :: 0 <= r < mtx.Length0 && 0 <= j < mtx.Length1 && j != vi ==> mtx[r, j] == old(mtx[r, j])
      decreases node
    {
      if IsTermNode(node) {
        var t := GetConst(m, node, vars);
        if t.Some? {
          AddTermAt(m, mtx, t.value, vi);
        }
        return t.Some?;
      }
      if !IsAddSub(node) {
        return false;
      }
      // the operator's term operand is the left one, unless the left one is itself a Plus or Minus
      var (left, right) := if IsAddSub(node.left) then (node.right, node.left) else (node.left, node.right);
      var t := if IsTermNode(left) then GetConst(m, left, vars) else None;
      if t.None? {
        return false;
      }
      AddTermAt(m, mtx, t.value, vi);
      node := right;
    }
  }

  /** mtx[t.index][vi] = (mtx[t.index][vi] + c) % m: one more term on column vi. */
  method AddTermAt(m: nat, mtx: array2<int>, t: Term, vi: nat)
    requires m > 0 && t.index < mtx.Length0 && vi < mtx.Length1
    requires forall r :: 0 <= r < mtx.Length0 ==> mtx[r, vi] >= 0
    modifies mtx
    ensures Column(mtx, vi) == AddTerm(old(Column(mtx, vi)), t, m)
    ensures forall r :: 0 <= r < mtx.Length0 ==> mtx[r, vi] >= 0
    ensures forall r, j :: 0 <= r < mtx.Length0 && 0 <= j < mtx.Length1 && j != vi ==> mtx[r, j] == old(mtx[r, j])
  {
    mtx[t.index, vi] := (mtx[t.index, vi] + t.coeff) % m;
  }

  // --------------------------------------------------------- GetMatrix

  /** The identity with slot vi of every slice replaced by col: x_vi := sum_a col[a] * x_a. */
  function AssignMatrix(n: nat, vi: nat, col: seq<int>): (mx: Matrix)
    requires vi < n && |col| == n
    ensures |mx| == n && Rectangular(mx, n)
  {
    seq(n, a requires 0 <= a < n => seq(n, j requires 0 <= j < n => if j == vi then col[a] else if a == j then 1 else 0))
  }

  /** The identity's column vi with its diagonal 1 cleared: all zeros. */
  function ZeroColumn(n: nat): seq<int>
  {
    seq(n, _ => 0)
  }

  /** x_vi := c for a constant c in {0, 1}: column vi holds c in the constant slot. */
  function ConstColumn(n: nat, c: int): (col: seq<int>)
    requires n >= 1
    ensures |col| == n
  {
    ZeroColumn(n)[0 := c]
  }

  /**
   * The matrices GetMatrix appends for an edge: the identity when the edge
   * is not an assignment, none when the assigned name is not declared, the
   * assignment's matrix when the right-hand side is read, and x := 0,
   * x := 1 otherwise.
   */
  function MatricesFor(b: BaseFunctions, ast: Ast, vars: seq<string>): seq<Matrix>
    requires b.m > 0 && |vars| < b.n
  {
    if !(ast.Op? && ast.token == Equals) then [IdentityMatrix(b.n)]
    else if !ast.left.Variable? || ast.left.name !in vars then []
    else
      var vi := Slot(vars, ast.left.name);
      var walk := Walk(b.m, ast.right, vars);
      if walk.1 then [AssignMatrix(b.n, vi, AddTerms(ZeroColumn(b.n), walk.0, b.m))]
      else [AssignMatrix(b.n, vi, ConstColumn(b.n, 0)), AssignMatrix(b.n, vi, ConstColumn(b.n, 1))]
  }

  /**
   * The matrix set of an edge, built once by GetMatrix. The source keeps
   * the arrays in a list and never writes them again, so each is stored as
   * a value once complete.
   */
  class TransitionMatrixSet {
    const b: BaseFunctions
    const ast: Ast
    var TMatrixes: seq<Matrix>

    constructor (ast: Ast, b: BaseFunctions)
      ensures this.b == b && this.ast == ast && TMatrixes == []
    {
      this.b := b;
      this.ast := ast;
      TMatrixes := [];
    }

    /** GetMatrix: append the matrices of this edge's statement. */
    method GetMatrix(vars: seq<string>)
      requires b.m > 0 && |vars| < b.n
      modifies this
      ensures TMatrixes == old(TMatrixes) + MatricesFor(b, ast, vars)
    {
      if ast.Op? && ast.token == Equals {
        if ast.left.Variable? {
          var vi := IndexOf(vars, ast.left.name) + 1;
          if vi > 0 && vi <= |vars| {
            var ms := AssignmentMatrices(b, ast.right, vi, vars);
            TMatrixes := TMatrixes + ms;
          }
        }
      } else {
        var id := GetIdentity(b.n);
        IdentityFrozen(id);
        TMatrixes := TMatrixes + [Freeze(id)];
      }
    }
  }

  /**
   * The matrices of x_vi := rhs: the one ProceedExpr builds when it reads
   * the whole right-hand side, else x_vi := 0 and x_vi := 1.
   */
  method AssignmentMatrices(b: BaseFunctions, rhs: Ast, vi: nat, vars: seq<string>) returns (ms: seq<Matrix>)
    requires b.m > 0 && |vars| < b.n && 0 < vi <= |vars|
    ensures var walk := Walk(b.m, rhs, vars);
      ms == if walk.1 then [AssignMatrix(b.n, vi, AddTerms(ZeroColumn(b.n), walk.0, b.m))]
            else [AssignMatrix(b.n, vi, ConstColumn(b.n, 0)), AssignMatrix(b.n, vi, ConstColumn(b.n, 1))]
  {
    var mtx := ClearedIdentity(b.n, vi);
    var ok := ProceedExpr(b.m, rhs, mtx, vi, vars);
    RunAddsWalk(b.m, rhs, vars, ZeroColumn(b.n));
    if ok {
      AssignFrozen(mtx, vi, Column(mtx, vi));
      ms := [Freeze(mtx)];
    } else {
      var zero := ClearedIdentity(b.n, vi);
      AssignFrozen(zero, vi, ConstColumn(b.n, 0));
      var one := ClearedIdentity(b.n, vi);
      one[0, vi] := 1;
      AssignFrozen(one, vi, ConstColumn(b.n, 1));
      ms := [Freeze(zero), Freeze(one)];
    }
  }

  /** The identity of size n with the 1 of slot vi cleared: column vi is all zeros. */
  method ClearedIdentity(n: nat, vi: nat) returns (mtx: array2<int>)
    requires vi < n
    ensures fresh(mtx) && mtx.Length0 == n && mtx.Length1 == n
    ensures Column(mtx, vi) == ZeroColumn(n)
    ensures forall r, j :: 0 <= r < n && 0 <= j < n && j != vi ==> mtx[r, j] == if r == j then 1 else 0
  {
    mtx := GetIdentity(n);
    mtx[vi, vi] := 0;
  }

  /** An identity array whose column vi was overwritten with col freezes to AssignMatrix. */
  lemma AssignFrozen(mtx: array2<int>, vi: nat, col: seq<int>)
    requires vi < mtx.Length0 == mtx.Length1 && |col| == mtx.Length0
    requires forall r :: 0 <= r < mtx.Length0 ==> mtx[r, vi] == col[r]
    requires forall r, j :: 0 <= r < mtx.Length0 && 0 <= j < mtx.Length1 && j != vi ==> mtx[r, j] == if r == j then 1 else 0
    ensures Freeze(mtx) == AssignMatrix(mtx.Length0, vi, col)
  {
    var f, a := Freeze(mtx), AssignMatrix(mtx.Length0, vi, col);
    forall r | 0 <= r < mtx.Length0
      ensures f[r] == a[r]
    {
    }
  }

  lemma IdentityFrozen(mtx: array2<int>)
    requires mtx.Length0 == mtx.Length1
    requires forall r, j :: 0 <= r < mtx.Length0 && 0 <= j < mtx.Length1 ==> mtx[r, j] == if r == j then 1 else 0
    ensures Freeze(mtx) == IdentityMatrix(mtx.Length0)
  {
    var f, a := Freeze(mtx), IdentityMatrix(mtx.Length0);
    forall r | 0 <= r < mtx.Length0
      ensures f[r] == a[r]
    {
    }
  }

  /** sum over a < k of col[a] * v[a]: the value the assignment stores. */
  function Combination(col: seq<int>, v: seq<int>, k: nat): int
    requires k <= |col| && k <= |v|
  {
    if k == 0 then 0 else Combination(col, v, k - 1) + col[k - 1] * v[k - 1]
  }

  lemma {:induction false} AssignDot(n: nat, vi: nat, col: seq<int>, v: seq<int>, j: nat, k: nat)
    requires vi < n && |col| == n && |v| == n && j < n && k <= n
    ensures Dot(AssignMatrix(n, vi, col), v, j, k) == if j == vi then Combination(col, v, k) else if j < k then v[j] else 0
  {
    if k > 0 {
      AssignDot(n, vi, col, v, j, k - 1);
    }
  }

  /**
   * The assignment's matrix applied to a state v of ring elements changes
   * only x_vi, which becomes sum_a col[a] * v[a] mod m.
   */
  lemma AssignMatVec(n: nat, vi: nat, col: seq<int>, v: seq<int>, m: nat)
    requires m > 0 && vi < n && |col| == n && |v| == n
    requires forall a :: 0 <= a < n ==> 0 <= v[a] < m
    ensures MatVec(AssignMatrix(n, vi, col), v, n, m) == v[vi := Combination(col, v, n) % m]
  {
    var r := MatVec(AssignMatrix(n, vi, col), v, n, m);
    forall j | 0 <= j < n
      ensures r[j] == v[vi := Combination(col, v, n) % m][j]
    {
      AssignDot(n, vi, col, v, j, n);
      if j != vi {
        ModUnique(v[j], m, 0, v[j]);
      }
    }
  }

  /** An n x n matrix of non-negative entries: what MatrixMultiVector accepts with a vector of length n. */
  ghost predicate Shaped(n: nat, mx: Matrix)
  {
    |mx| == n && Rectangular(mx, n) && forall a :: 0 <= a < n ==> NonNegative(mx[a])
  }

  /** Every matrix an edge gets is (n+1) x (n+1) with entries in the ring. */
  lemma MatricesShaped(b: BaseFunctions, ast: Ast, vars: seq<string>)
    requires b.WellFormed() && |vars| < b.n
    ensures forall k :: 0 <= k < |MatricesFor(b, ast, vars)| ==> Shaped(b.n, MatricesFor(b, ast, vars)[k])
  {
    if ast.Op? && ast.token == Equals && ast.left.Variable? && ast.left.name in vars {
      var walk := Walk(b.m, ast.right, vars);
      if walk.1 {
        AddTermsInRange(ZeroColumn(b.n), walk.0, b.m);
      }
    }
  }
}
