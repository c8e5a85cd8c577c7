# Affine relation analysis over Z/2^w — a Dafny model

This project models the core of InterproceduralAnalysis, a C# implementation of
affine relation analysis. The analysis finds the linear equalities among program
variables that hold at each point of a flow graph. Arithmetic is modulo 2^w, the
word size of the machine. The model has two parts:

- The analysis (`InterproceduralAnalyzer.cs`):
  - `BaseFunctions`: the ring helpers. Its Reduction splits a value into 2^r · d
    with d odd, using a lookup table keyed by a prime.
  - `TransitionMatrixSet`: turns an edge's assignment `x_vi = c_0 + Σ c_k·x_k` into
    an (n+1)×(n+1) matrix. When the right-hand side cannot be read, it gives the
    pair x := 0, x := 1.
  - `LeadVector`: a vector with its leading index.
  - `GeneratorSet`: an echelon-form array of vectors, extended by `AddVector`.
  - `InterproceduralAnalyzer`: the driver. It builds matrix sets, attaches
    generator sets and runs the worklist.
- `TestLR.cs`: pivoted elimination of a 3×3 matrix `A` modulo 2^8, tracking a
  transform `T`.

Modules, one file each:

| file | module | what it holds |
|---|---|---|
| arith.dfy | Options, Arith | Option; powers of two, trailing zeros and odd part, C#'s `%`, primes |
| ring.dfy | Ring, RingFindings | BaseFunctions as a value, the prime and table, Reduction, identity, matrix × vector; the GetPrime finding |
| lead.dfy | Lead | LeadVector |
| transition.dfy | Transition | expression datatype, GetConst, the ProceedExpr walk on an `array2`, GetMatrix on a class |
| generator_spec.dfy | GeneratorSpec | AddVector/AddEven as functions on the stored list, echelon invariant, rank measure |
| generator_span.dfy | GeneratorSpan | the span of a generator set over Z/2^w; AddVector keeps it; the redundant-vector example |
| generator_set.dfy | GeneratorSets | the GeneratorSet class over its `GArr` array, proved to compute GeneratorSpec's values |
| analyzer.dfy | Analyzer | flow graph, matrix-set BFS, generator-set attachment, the worklist as a function on values (Iterate) and as methods proved to compute it, with a termination proof |
| closure.dfy | Closure | what the worklist's result spans: closure under every edge matrix, and the images of everything at main |
| elimination.dfy | Elimination | value-level meaning of TestLR's steps (pivot, column and row clearing, exchanges) and of the whole run (Reaches) |
| testlr.dfy | LRTest | the TestLR class over `array2` fields `A` and `T` |

Main design points:

- BaseFunctions never changes after construction, so it is a datatype.
- GeneratorSet and TestLR update arrays in place, so they are classes over arrays.
  Each tracks its contents in ghost fields (`Contents`; `Av`, `Tv`) that predicates
  tie to the arrays.
- Every in-place method's `ensures` ties its new state to a function of the old
  state: GeneratorSpec.Add for AddVector, StepResult and Reaches for TestLR,
  OfferStep, OfferFold, PropagateFold and Iterate for the worklist. The properties
  the source relies on are lemmas about those functions.
- A matrix, once complete, is never written again by the source. It is therefore
  kept as a `seq<seq<int>>`.
- The source's index convention is kept: `M[a][j]` multiplies `v[a]` into
  `result[j]`.

The model follows the code where the design description says otherwise:

- `CreateEmptyG` runs its BFS from every node of the graph (the outer `foreach`
  over `Graph.Values`, InterproceduralAnalyzer.cs:80). So every node, not only the
  reachable ones, receives an empty generator set. `Analyzer.CreateSets` and
  `Analyzer.AttachOrder` state exactly that.
- GetPrime does not make the table's powers distinct; see Findings.
- AddVector's append branch (InterproceduralAnalyzer.cs:629-637) overwrites the
  companion that AddEven just wrote at slot i. So a vector that the set already
  spans can be stored and reported as a change: over Z/4, (0, 2) = 2 · (2, 1) is
  added after (2, 1) and AddVector answers true (GeneratorSpan.RedundantVectorReported).
  The span and the termination measure are unaffected; only the worklist may do
  extra rounds.

## Model

| member | source | states |
|---|---|---|
| Arith.Factorisation | InterproceduralAnalysis/InterproceduralAnalyzer.cs:194-205 | every positive x is 2^TrailingZeros(x) · OddPart(x), and the odd part is odd: the split Reduction is meant to return |
| Arith.ShiftOutTrailingZeros | InterproceduralAnalysis/InterproceduralAnalyzer.cs:203 | `nr >> r` with r the number of trailing zeros is the odd part |
| Arith.TrailingZerosBelow | InterproceduralAnalysis/InterproceduralAnalyzer.cs:186-189 | a positive value below 2^w has fewer than w trailing zeros, so its power is one the table was filled with |
| Arith.Rem | InterproceduralAnalysis/InterproceduralAnalyzer.cs:676 | C#'s `%` truncates: its result lies strictly between -m and m and agrees with the mathematical residue on non-negative operands |
| Arith.RemNormalises | InterproceduralAnalysis/InterproceduralAnalyzer.cs:676 | the double remainder `((a % m) + m) % m` is the residue of a in [0, m) for every sign of a |
| Arith.PrimeAbove | InterproceduralAnalysis/InterproceduralAnalyzer.cs:162-168 | above every number there is a prime, so GetPrime's upward search ends |
| Arith.LargeModulusDistinct | InterproceduralAnalysis/InterproceduralAnalyzer.cs:183-192 | a modulus above 2^(w-1) keeps 2^1 .. 2^(w-1) in distinct table slots |
| Ring.CreateBase | InterproceduralAnalysis/InterproceduralAnalyzer.cs:149-160 | fails exactly when w <= 0 or n < 0; otherwise w is kept, var_n = n + 1, var_m = 2^w, and the table is one Reduction can rely on |
| Ring.IsPrime | InterproceduralAnalysis/InterproceduralAnalyzer.cs:170-181 | the answer is true exactly when n is prime (1 excluded, 2 and 3 accepted, even numbers and odd divisors up to the square root rejected) |
| Ring.GetPrime | InterproceduralAnalysis/InterproceduralAnalyzer.cs:162-168 | the result is the least prime at or above w |
| Ring.GetTablePrime | InterproceduralAnalysis/InterproceduralAnalyzer.cs:158 | the least prime at or above w whose table keeps the powers 2^1 .. 2^(w-1) apart (corrected GetPrime) |
| Ring.GetRArray | InterproceduralAnalysis/InterproceduralAnalyzer.cs:183-192 | a new p-slot array holding, for i = 0 .. w-1 in order, i at slot 2^i mod p, later writes winning |
| Ring.RTableUpTo | InterproceduralAnalysis/InterproceduralAnalyzer.cs:185-190 | the table has p slots, and each holds 0 or an exponent written so far |
| Ring.TableLookup | InterproceduralAnalysis/InterproceduralAnalyzer.cs:183-192 | with distinct powers the table inverts i ↦ 2^i mod p on 1 .. w-1 |
| Ring.ReductionOdd | InterproceduralAnalysis/InterproceduralAnalyzer.cs:196-200 | an odd nr gives r = 0 and d = nr |
| Ring.ReductionCorrect | InterproceduralAnalysis/InterproceduralAnalyzer.cs:194-205 | for 0 < nr < 2^w and a table with distinct powers, Reduction returns r = trailing zeros of nr and d = its odd part, with d odd and nr = 2^r · d |
| Ring.Reduction | InterproceduralAnalysis/InterproceduralAnalyzer.cs:202 | the valuation read from the table is below w |
| Ring.GetIdentity | InterproceduralAnalysis/InterproceduralAnalyzer.cs:216-222 | a new k×k array with 1 on the diagonal and 0 elsewhere |
| Ring.MatVec | InterproceduralAnalysis/InterproceduralAnalyzer.cs:232-234 | every coordinate of the product is reduced into [0, mod) |
| Ring.MatrixMultiVector | InterproceduralAnalysis/InterproceduralAnalyzer.cs:224-237 | fails exactly when the matrix and vector lengths differ or the matrix is empty; otherwise result[j] = (Σ_a matrix[a][j] · vector[a]) mod `mod`, accumulated as the nested loops do |
| Ring.IdentityMatVec | InterproceduralAnalysis/InterproceduralAnalyzer.cs:216-237 | the identity times a vector with entries in [0, m) is that vector |
| RingFindings.TableCollisionAtSeven | InterproceduralAnalysis/InterproceduralAnalyzer.cs:162-205 | GetPrime's contract forces p = 7 for w = 7; 2^1 and 2^4 collide mod 7, and Reduction(2) answers r = 4, d = 0 where 2 has one trailing zero |
| Lead.LeadIndex | InterproceduralAnalysis/InterproceduralAnalyzer.cs:510-520 | -1 exactly for the zero vector; otherwise the least index of a nonzero entry |
| Lead.GetLeadIndex | InterproceduralAnalysis/InterproceduralAnalyzer.cs:510-520 | the scanning loop returns LeadIndex |
| Lead.NewLeadVector | InterproceduralAnalysis/InterproceduralAnalyzer.cs:504-508 | the vector is kept and its leading index is LeadIndex of it |
| Lead.LeadVector.Lentry | InterproceduralAnalysis/InterproceduralAnalyzer.cs:532-540 | nonzero exactly when the leading index is at least 0, and then it is vr[Lidx] |
| Transition.IndexOf | InterproceduralAnalysis/InterproceduralAnalyzer.cs:335 | List.IndexOf: -1 exactly when the name is absent, else its first position |
| Transition.Slot | InterproceduralAnalysis/InterproceduralAnalyzer.cs:335 | `IndexOf + 1`: 0 (the constant slot) exactly for an undeclared name, else the name's 1-based position |
| Transition.GetConst | InterproceduralAnalysis/InterproceduralAnalyzer.cs:324-373 | a number c gives (0, c); a variable gives (its slot, 1); a Multi of a variable and a number, in either order, gives (the variable's slot, the number mod m); a Multi of two numbers, any other operator, or any other operand shape gives nothing, and a product gives something exactly in those two Multi cases |
| Transition.Walk | InterproceduralAnalysis/InterproceduralAnalyzer.cs:375-428 | every slot the walk's terms address is within the matrix |
| Transition.AddTermsSums | InterproceduralAnalysis/InterproceduralAnalyzer.cs:388-411 | after the terms are added, slot s holds (its old value + the sum of the coefficients addressed to s) mod m: Plus and Minus both add |
| Transition.AddTermsInRange | InterproceduralAnalysis/InterproceduralAnalyzer.cs:388-411 | adding terms keeps every slot in [0, m) |
| Transition.RunAddsWalk | InterproceduralAnalysis/InterproceduralAnalyzer.cs:375-428 | the step-by-step walk that writes as it goes ends in the same column and verdict as collecting the terms first and adding them after |
| Transition.ProceedExpr | InterproceduralAnalysis/InterproceduralAnalyzer.cs:375-428 | the in-place loop leaves column vi and the verdict equal to Run from the old column, and no other column changes |
| Transition.AddTermAt | InterproceduralAnalysis/InterproceduralAnalyzer.cs:390 | one `mtx[vii][vi] = (mtx[vii][vi] + c) % var_m` changes only column vi, as AddTerm says |
| Transition.ClearedIdentity | InterproceduralAnalysis/InterproceduralAnalyzer.cs:442-444 | the identity with its entry [vi][vi] cleared: column vi is all zero, every other column is the identity's |
| Transition.AssignFrozen | InterproceduralAnalysis/InterproceduralAnalyzer.cs:442-446 | a cleared identity whose column vi holds col is the assignment matrix of x_vi := Σ col[a]·x_a |
| Transition.AssignmentMatrices | InterproceduralAnalysis/InterproceduralAnalyzer.cs:436-458 | a recognised right-hand side gives its one matrix; otherwise the two matrices x_vi := 0 and x_vi := 1 |
| Transition.TransitionMatrixSet.constructor | InterproceduralAnalysis/InterproceduralAnalyzer.cs:311-320 | an empty TMatrixes list for the edge's statement |
| Transition.TransitionMatrixSet.GetMatrix | InterproceduralAnalysis/InterproceduralAnalyzer.cs:430-465 | TMatrixes grows by MatricesFor: the identity for a non-assignment, nothing for an undeclared target, one matrix for a recognised right-hand side, x := 0 and x := 1 otherwise |
| Transition.AssignMatVec | InterproceduralAnalysis/InterproceduralAnalyzer.cs:430-465 | applied to a vector with entries in [0, m), an assignment matrix replaces coordinate vi by the affine combination mod m and keeps the rest |
| Transition.MatricesShaped | InterproceduralAnalysis/InterproceduralAnalyzer.cs:430-465 | every matrix GetMatrix produces is (n+1)×(n+1) with non-negative entries, as MatrixMultiVector needs |
| GeneratorSpec.Add | InterproceduralAnalysis/InterproceduralAnalyzer.cs:618-691 | AddVector on the stored list: the result stays in echelon form (nonzero vectors, strictly ascending leading index), and stored vectors leading below the new one are kept; what the result spans is stated by GeneratorSpan.AddKeepsSpan |
| GeneratorSpec.AddEven | InterproceduralAnalysis/InterproceduralAnalyzer.cs:600-616 | adding the companion keeps the echelon form and every stored vector leading at or below tvr's lead |
| GeneratorSpec.AddAtEnd | InterproceduralAnalysis/InterproceduralAnalyzer.cs:629-637 | the append branch keeps the echelon form and answers true |
| GeneratorSpec.AddSameLead | InterproceduralAnalysis/InterproceduralAnalyzer.cs:638-683 | the same-lead branch keeps the echelon form and the lower part of the list |
| GeneratorSpec.AddCombined | InterproceduralAnalysis/InterproceduralAnalyzer.cs:670-682 | with no swap (rg <= rv) the resolvent's insertion keeps the echelon form |
| GeneratorSpec.AddDisplacing | InterproceduralAnalysis/InterproceduralAnalyzer.cs:647-682 | with a swap (rg > rv) tvr takes the slot, the old vector is combined further on, and the answer is true |
| GeneratorSpec.Displace | InterproceduralAnalysis/InterproceduralAnalyzer.cs:649-656 | RemoveVector, AddEven and InsertVector leave tvr at slot i, the prefix before it unchanged and only later leads after it |
| GeneratorSpec.CanonicalBound | InterproceduralAnalysis/InterproceduralAnalyzer.cs:560-627 | an echelon list holds at most var_n vectors, and fewer when a leading index is free, so the scan for a slot stays inside GArr |
| GeneratorSpec.InsertAt | InterproceduralAnalysis/InterproceduralAnalyzer.cs:582-588 | the shift right: entries before ii kept, the vector at ii, the rest moved up by one |
| GeneratorSpec.RemoveAt | InterproceduralAnalysis/InterproceduralAnalyzer.cs:567-573 | the shift left: entries before ri kept, the rest moved down by one |
| GeneratorSpec.Overwrite | InterproceduralAnalysis/InterproceduralAnalyzer.cs:634 | `GArr[i] = tvr`: slot i replaced or, at the end, the list extended |
| GeneratorSpec.InsertCanonical | InterproceduralAnalysis/InterproceduralAnalyzer.cs:684-687 | inserting before the first larger lead keeps the echelon form |
| GeneratorSpec.RemoveCanonical | InterproceduralAnalysis/InterproceduralAnalyzer.cs:650 | removing a vector keeps the echelon form and leaves the slot of its lead at i |
| GeneratorSpec.OverwriteCanonical | InterproceduralAnalysis/InterproceduralAnalyzer.cs:631-634 | after AddEven only stored leads above tvr's follow slot i, so writing tvr there keeps the echelon form |
| GeneratorSpec.AppendShape | InterproceduralAnalysis/InterproceduralAnalyzer.cs:629-637 | the write at slot i keeps the old list as a prefix and stays in echelon form |
| GeneratorSpec.CompanionAbove | InterproceduralAnalysis/InterproceduralAnalyzer.cs:604-613 | 2^(w-r)·tvr mod m is zero or leads strictly after tvr, so AddEven's recursive call is on a larger lead |
| GeneratorSpec.PowerKills | InterproceduralAnalysis/InterproceduralAnalyzer.cs:606-611 | 2^(w-r) times a multiple of 2^r vanishes mod 2^w |
| GeneratorSpec.Resolvent | InterproceduralAnalysis/InterproceduralAnalyzer.cs:671-678 | the combination dg·tvr − 2^(rv−rg)·dv·GArr[i] has entries in [0, m) and its leading index recorded |
| GeneratorSpec.ResolventAbove | InterproceduralAnalysis/InterproceduralAnalyzer.cs:644-678 | with a correct Reduction and rg <= rv the resolvent is zero or leads strictly after tvr: the leading coordinate cancels |
| GeneratorSpec.ResolventPrefix | InterproceduralAnalysis/InterproceduralAnalyzer.cs:676 | the resolvent is zero wherever both vectors are zero and where the lead terms cancel |
| GeneratorSpec.LeadCancels | InterproceduralAnalysis/InterproceduralAnalyzer.cs:671-676 | with leads 2^rv·dv and 2^rg·dg the two products at the lead are equal |
| GeneratorSpec.AddAppend | InterproceduralAnalysis/InterproceduralAnalyzer.cs:629-637 | appending gives exactly the old list plus tvr and true: the companion AddEven wrote into slot i is overwritten |
| GeneratorSpec.CompanionAppend | InterproceduralAnalysis/InterproceduralAnalyzer.cs:631-634 | whatever AddEven adds lands beyond slot i and is replaced there by tvr |
| GeneratorSpec.AddExisting | InterproceduralAnalysis/InterproceduralAnalyzer.cs:638-682 | adding a vector already stored changes nothing and returns false |
| GeneratorSpec.AddProgress | InterproceduralAnalysis/InterproceduralAnalyzer.cs:618-691 | a call answering true strictly lowers the rank (Σ valuations of the stored leads + w·(var_n − count)); a false one keeps the list |
| GeneratorSpec.AddEvenProgress | InterproceduralAnalysis/InterproceduralAnalyzer.cs:600-616 | AddEven never raises the rank |
| GeneratorSpec.CombinedProgress | InterproceduralAnalysis/InterproceduralAnalyzer.cs:670-682 | the no-swap branch lowers the rank when it answers true and keeps the list otherwise |
| GeneratorSpec.DisplacingProgress | InterproceduralAnalysis/InterproceduralAnalyzer.cs:647-682 | the swap branch strictly lowers the rank |
| GeneratorSpec.AddReportsChange | InterproceduralAnalysis/InterproceduralAnalyzer.cs:618-691 | AddVector answers true exactly when the stored list changed |
| GeneratorSpec.RankInsert | InterproceduralAnalysis/InterproceduralAnalyzer.cs:576-598 | inserting a vector changes the rank by its valuation minus w |
| GeneratorSpec.RankRemove | InterproceduralAnalysis/InterproceduralAnalyzer.cs:565-574 | removing a vector changes the rank by w minus its valuation |
| GeneratorSpec.RankNonNegative | InterproceduralAnalysis/InterproceduralAnalyzer.cs:560 | an echelon list within var_n slots has a non-negative rank |
| GeneratorSpec.ValuationBelow | InterproceduralAnalysis/InterproceduralAnalyzer.cs:644-645 | the valuation of a stored lead is below w |
| GeneratorSets.GeneratorSet.constructor | InterproceduralAnalysis/InterproceduralAnalyzer.cs:551-561 | a fresh var_n-slot array, all null: the empty set |
| GeneratorSets.GeneratorSet.RemoveVector | InterproceduralAnalysis/InterproceduralAnalyzer.cs:565-574 | the array's stored list becomes RemoveAt of the old one, null after it |
| GeneratorSets.GeneratorSet.InsertVector | InterproceduralAnalysis/InterproceduralAnalyzer.cs:576-598 | the stored list becomes InsertAt of the old one (shift right when slot ii is taken, plain write at the end) |
| GeneratorSets.GeneratorSet.StoreAt | InterproceduralAnalysis/InterproceduralAnalyzer.cs:634 | the write `GArr[i] = tvr` as Overwrite of the stored list |
| GeneratorSets.GeneratorSet.AddEven | InterproceduralAnalysis/InterproceduralAnalyzer.cs:600-616 | the array afterwards holds GeneratorSpec.AddEven of the old list, and the set stays valid |
| GeneratorSets.GeneratorSet.AddVector | InterproceduralAnalysis/InterproceduralAnalyzer.cs:618-691 | the array afterwards holds GeneratorSpec.Add of the old list and the answer is Add's, so the set stays in echelon form, spans exactly the old vectors and tvr (GeneratorSpan.AddKeepsSpan), and answers true exactly when it changed |
| GeneratorSets.GeneratorSet.FindSlot | InterproceduralAnalysis/InterproceduralAnalyzer.cs:620-627 | the scan stops at the first stored vector whose lead is not below tvr's, always inside the array |
| GeneratorSets.GeneratorSet.AppendLast | InterproceduralAnalysis/InterproceduralAnalyzer.cs:629-637 | the append branch computes AddAtEnd |
| GeneratorSets.GeneratorSet.MergeSameLead | InterproceduralAnalysis/InterproceduralAnalyzer.cs:638-683 | the same-lead branch computes AddSameLead |
| GeneratorSets.GeneratorSet.MergeCombined | InterproceduralAnalysis/InterproceduralAnalyzer.cs:670-682 | the branch without the swap computes AddCombined |
| GeneratorSets.GeneratorSet.MergeDisplacing | InterproceduralAnalysis/InterproceduralAnalyzer.cs:647-682 | the branch with the swap computes AddDisplacing |
| GeneratorSets.GeneratorSet.DisplaceAt | InterproceduralAnalysis/InterproceduralAnalyzer.cs:649-656 | RemoveVector, AddEven and InsertVector compute Displace |
| GeneratorSets.CombineVectors | InterproceduralAnalysis/InterproceduralAnalyzer.cs:673-678 | the loop with the double remainder builds exactly the resolvent |
| GeneratorSpan.SpanMix | InterproceduralAnalysis/InterproceduralAnalyzer.cs:671-678 | the span of a list is closed under a·u + c·v mod 2^w |
| GeneratorSpan.SpanTrans | InterproceduralAnalysis/InterproceduralAnalyzer.cs:618-691 | a vector spanned by h is spanned by any g that spans every vector of h |
| GeneratorSpan.OddInverse | InterproceduralAnalysis/InterproceduralAnalyzer.cs:644-678 | an odd d has an inverse modulo 2^k |
| GeneratorSpan.OddCofactor | InterproceduralAnalysis/InterproceduralAnalyzer.cs:194-205 | the d Reduction returns for a nonzero ring element is odd, so invertible |
| GeneratorSpan.CompanionSpanned | InterproceduralAnalysis/InterproceduralAnalyzer.cs:604-611 | the companion 2^(w−r)·v lies in every span holding v |
| GeneratorSpan.ResolventSpanned | InterproceduralAnalysis/InterproceduralAnalyzer.cs:671-678 | the combination dg·tvr − 2^(rv−rg)·dv·GArr[i] lies in every span holding both vectors |
| GeneratorSpan.ResolventRecovers | InterproceduralAnalysis/InterproceduralAnalyzer.cs:670-682 | with dg odd, tvr lies in every span holding GArr[i] and the combination: no information is lost when tvr is replaced by the combination |
| GeneratorSpan.AddEvenSpan | InterproceduralAnalysis/InterproceduralAnalyzer.cs:600-616 | AddEven's list spans the old list, and the old list with v spans AddEven's list |
| GeneratorSpan.CombinedSpan | InterproceduralAnalysis/InterproceduralAnalyzer.cs:670-682 | the no-swap branch's list spans the old list and v, and is spanned by them |
| GeneratorSpan.DisplacingSpan | InterproceduralAnalysis/InterproceduralAnalyzer.cs:647-682 | the swap branch's list spans the old list and v, and is spanned by them |
| GeneratorSpan.AddSpan | InterproceduralAnalysis/InterproceduralAnalyzer.cs:618-691 | AddVector's list spans the old list and v, and is spanned by them, in every branch |
| GeneratorSpan.AddKeepsSpan | InterproceduralAnalysis/InterproceduralAnalyzer.cs:618-691 | a vector is in the span after AddVector(v) exactly when it is in the span of the old list and v |
| GeneratorSpan.AddAll | InterproceduralAnalysis/InterproceduralAnalyzer.cs:618-691 | successive AddVector calls from the empty set give an echelon list |
| GeneratorSpan.AddAllSpans | InterproceduralAnalysis/InterproceduralAnalyzer.cs:618-691 | that list and the vectors added span each other |
| GeneratorSpan.AddAllKeepsSpan | InterproceduralAnalysis/InterproceduralAnalyzer.cs:618-691 | a vector is in that list's span exactly when it is a combination of the vectors added |
| GeneratorSpan.RedundantVectorReported | InterproceduralAnalysis/InterproceduralAnalyzer.cs:629-637 | over Z/4, after (2, 1) is stored, AddVector((0, 2)) appends and answers true although (0, 2) = 2·(2, 1) is spanned |
| Analyzer.NewAnalyzer | InterproceduralAnalysis/InterproceduralAnalyzer.cs:20-34 | fails exactly when w <= 0 or n < 0; otherwise a fresh analyzer with var_n = n + 1, var_m = 2^w and nothing built |
| Analyzer.InterproceduralAnalyzer.constructor | InterproceduralAnalysis/InterproceduralAnalyzer.cs:20-34 | empty queue, no matrix sets and no generator sets |
| Analyzer.VisitEdges | InterproceduralAnalysis/InterproceduralAnalyzer.cs:49-62 | each edge of the node that had no matrix set gets GetMatrix's set, its target is queued, and sets already there are kept |
| Analyzer.BuildMatrixSets | InterproceduralAnalysis/InterproceduralAnalyzer.cs:38-65 | when the BFS ends every set edge holds GetMatrix's set for its statement, and main and every set edge's target have all their edges set |
| Analyzer.EdgeMatrices | InterproceduralAnalysis/InterproceduralAnalyzer.cs:53-55 | a new TransitionMatrixSet plus GetMatrix gives MatricesFor |
| Analyzer.InterproceduralAnalyzer.CreateTransitionMatrixes | InterproceduralAnalysis/InterproceduralAnalyzer.cs:38-65 | the matrix sets of everything reachable from main are built, each as GetMatrix makes it; generator sets and queue untouched |
| Analyzer.AttachFrom | InterproceduralAnalysis/InterproceduralAnalyzer.cs:82-94 | the BFS from one node attaches that node, keeps those attached before, and never attaches a node twice |
| Analyzer.AttachNext | InterproceduralAnalysis/InterproceduralAnalyzer.cs:86-93 | one dequeue: a node without a set gets one and queues its targets without one; either fewer nodes lack a set or the queue shrank |
| Analyzer.QueueUnattached | InterproceduralAnalysis/InterproceduralAnalyzer.cs:90-92 | the targets without a set are queued in edge order |
| Analyzer.Unattached | InterproceduralAnalysis/InterproceduralAnalyzer.cs:90-92 | the queued targets are exactly those still without a set |
| Analyzer.AttachOrder | InterproceduralAnalysis/InterproceduralAnalyzer.cs:78-96 | the outer loop over all nodes attaches every node of the graph exactly once |
| Analyzer.Attach | InterproceduralAnalysis/InterproceduralAnalyzer.cs:89 | `n.GeneratorSet = new GeneratorSet(n, b)`: one new empty set owned by n alone |
| Analyzer.CreateSets | InterproceduralAnalysis/InterproceduralAnalyzer.cs:78-96 | every node of the graph ends with its own empty, valid generator set |
| Analyzer.InterproceduralAnalyzer.CreateEmptyG | InterproceduralAnalysis/InterproceduralAnalyzer.cs:78-96 | the same on the analyzer's fields |
| Analyzer.InterproceduralAnalyzer.AddIdentityVectors | InterproceduralAnalysis/InterproceduralAnalyzer.cs:71-76 | the var_n identity rows are queued at the node in order, each with its lead, and nothing else changes |
| Analyzer.IdentityRowLead | InterproceduralAnalysis/InterproceduralAnalyzer.cs:73-75 | identity row i leads at i |
| Analyzer.AddAt | InterproceduralAnalysis/InterproceduralAnalyzer.cs:120 | `to.GeneratorSet.AddVector(x)` changes only to's set, as Add says; the total rank drops exactly when it answers true |
| Analyzer.Image | InterproceduralAnalysis/InterproceduralAnalyzer.cs:116-117 | x is ImageVector: M·v reduced mod m, with its leading index |
| Analyzer.Offer | InterproceduralAnalysis/InterproceduralAnalyzer.cs:116-126 | x = M·v; a zero x changes nothing; otherwise the target's set becomes Add's result and x is queued exactly when AddVector answered true; the sets and queue become OfferStep of the old ones |
| Analyzer.OfferAll | InterproceduralAnalysis/InterproceduralAnalyzer.cs:114-128 | the sets and queue become OfferFold of the old ones: one OfferStep per matrix of the edge, in order |
| Analyzer.Propagate | InterproceduralAnalysis/InterproceduralAnalyzer.cs:108-129 | the sets and queue become PropagateFold of the old ones: OfferFold along every edge of the dequeued node, in edge order |
| Analyzer.Worklist | InterproceduralAnalysis/InterproceduralAnalyzer.cs:104-130 | the loop ends with an empty queue, and the sets are Iterate of the old sets and queue, which the Closure lemmas characterise |
| Analyzer.RankSumUpdate | InterproceduralAnalysis/InterproceduralAnalyzer.cs:120 | changing one node's set moves the total rank by that set's change |
| Analyzer.SnapshotRank | InterproceduralAnalysis/InterproceduralAnalyzer.cs:104 | the total rank over all nodes is never negative, so it bounds the worklist |
| Analyzer.EmptySets | InterproceduralAnalysis/InterproceduralAnalyzer.cs:78-96 | one empty list per node |
| Analyzer.IdentitySeeds | InterproceduralAnalysis/InterproceduralAnalyzer.cs:71-76 | var_n work items at the node, item i the identity row i with lead i |
| Analyzer.SeedsReady | InterproceduralAnalysis/InterproceduralAnalyzer.cs:71-76 | the identity seeds are well-formed work items of a node whose edges all have matrix sets |
| Analyzer.Snapshot | InterproceduralAnalysis/InterproceduralAnalyzer.cs:98-131 | the stored lists of all nodes, each in echelon form |
| Analyzer.ImageVector | InterproceduralAnalysis/InterproceduralAnalyzer.cs:116-117 | M·v as a well-formed vector: entries MatVec's, lead its LeadIndex |
| Analyzer.OfferStep | InterproceduralAnalysis/InterproceduralAnalyzer.cs:116-126 | one matrix on values: the sets stay in echelon form, and either the total rank drops or sets and queue are unchanged |
| Analyzer.OfferFold | InterproceduralAnalysis/InterproceduralAnalyzer.cs:114-128 | all matrices of one edge: the same rank-or-unchanged promise |
| Analyzer.PropagateFold | InterproceduralAnalysis/InterproceduralAnalyzer.cs:108-129 | all edges of one node: the same promise, with every set in echelon form |
| Analyzer.Iterate | InterproceduralAnalysis/InterproceduralAnalyzer.cs:104-130 | the worklist on values, by well-founded recursion on (total rank, queue length); every set stays in echelon form |
| Closure.ImageOfCombination | InterproceduralAnalysis/InterproceduralAnalyzer.cs:232-234 | M times a combination of g is the same combination of the images of g, mod 2^w |
| Closure.ImagesSpans | InterproceduralAnalysis/InterproceduralAnalyzer.cs:232-234 | when g spans h, the images of g span the images of h |
| Closure.OfferFoldGrows | InterproceduralAnalysis/InterproceduralAnalyzer.cs:114-128 | offering only grows the state: the queue gains items at its end only, every set still spans its old vectors, and every set's new vectors are spanned by its old ones and the vectors newly queued at its node |
| Closure.OfferFoldDelivers | InterproceduralAnalysis/InterproceduralAnalyzer.cs:114-128 | after an edge is offered v, the target's set spans M·v for every matrix M of the edge |
| Closure.PropagateFoldGrows | InterproceduralAnalysis/InterproceduralAnalyzer.cs:108-129 | the same growth over all edges of the dequeued node |
| Closure.PropagateFoldDelivers | InterproceduralAnalysis/InterproceduralAnalyzer.cs:108-129 | after Propagate, every edge of the node has delivered M·v for each of its matrices |
| Closure.CoversStep | InterproceduralAnalysis/InterproceduralAnalyzer.cs:104-130 | one dequeue keeps, for an edge u → t and matrix M, the invariant that t's set together with M applied to the vectors still queued at u spans M applied to u's set and the vectors first queued at u |
| Closure.EdgeStepClosed | InterproceduralAnalysis/InterproceduralAnalyzer.cs:104-130 | that invariant survives one worklist step for every edge, whether or not the edge leaves the dequeued node |
| Closure.StepClosed | InterproceduralAnalysis/InterproceduralAnalyzer.cs:104-130 | the invariant for all edges and matrices survives one worklist step |
| Closure.IterateClosed | InterproceduralAnalysis/InterproceduralAnalyzer.cs:104-130 | the invariant holds of Iterate's result, with the queue empty |
| Closure.ClosedAtStart | InterproceduralAnalysis/InterproceduralAnalyzer.cs:98-104 | with all sets empty the invariant holds of any queue of well-formed items |
| Closure.IterateCovers | InterproceduralAnalysis/InterproceduralAnalyzer.cs:98-130 | Iterate's result, for every edge and matrix, spans M applied to the source's set together with what was first queued there |
| Closure.IdentitySpans | InterproceduralAnalysis/InterproceduralAnalyzer.cs:73-75 | the identity rows span every vector of ring elements |
| Closure.GrowsTrans | InterproceduralAnalysis/InterproceduralAnalyzer.cs:108-129 | that growth composes over successive steps |
| Closure.AnalyzeClosed | InterproceduralAnalysis/InterproceduralAnalyzer.cs:98-139 | after the analysis, for every edge u → t and matrix M of it, M maps every vector in the span of u's set into the span of t's |
| Closure.AnalyzeFromMain | InterproceduralAnalysis/InterproceduralAnalyzer.cs:71-76 | for an edge leaving main, t's set spans M·y for every vector y of ring elements, since main was seeded with the identity |
| Analyzer.InterproceduralAnalyzer.CreateGeneratorSets | InterproceduralAnalysis/InterproceduralAnalyzer.cs:98-131 | every node ends with a valid generator set, the queue is empty, and the sets are Iterate from all-empty sets with main's identity rows queued, so Closure.AnalyzeClosed and Closure.AnalyzeFromMain hold of them |
| Analyzer.InterproceduralAnalyzer.Analyze | InterproceduralAnalysis/InterproceduralAnalyzer.cs:135-139 | the matrix sets of what is reachable are built, then the generator sets are Iterate from all-empty sets with main's identity rows queued, the value the Closure theorems are about |
| Elimination.Combine | InterproceduralAnalysis/TestLR.cs:60-77 | `((x·pd − y·alpha) % var_m + var_m) % var_m` is the residue of x·pd − y·alpha in [0, var_m) |
| Elimination.PivotLeastValuation | InterproceduralAnalysis/TestLR.cs:28-49 | a found pivot is a positive entry with pr its trailing zeros and pd its odd cofactor, and no positive entry of A[di..][di..] has fewer trailing zeros |
| Elimination.PivotUnique | InterproceduralAnalysis/TestLR.cs:36-48 | IsPivot determines the pivot: ties go to the first hit of the scan |
| Elimination.ScanTake | InterproceduralAnalysis/TestLR.cs:41-47 | taking an entry of smaller valuation keeps the scan's promise |
| Elimination.ScanKeep | InterproceduralAnalysis/TestLR.cs:38-41 | skipping a non-positive entry or one of no smaller valuation keeps the scan's promise |
| Elimination.ScanNextColumn | InterproceduralAnalysis/TestLR.cs:36-37 | a finished inner loop is the start of the next j |
| Elimination.ScanComplete | InterproceduralAnalysis/TestLR.cs:36-49 | the promise over the whole scan is IsPivot: least valuation, first such entry in j-outer, i-inner order, or −1, −1 with no positive entry |
| Elimination.ColumnsCleared | InterproceduralAnalysis/TestLR.cs:51-64 | the matrix after ClearColumn: column pj unchanged, every entry either kept or reduced into [0, var_m) |
| Elimination.RowsCleared | InterproceduralAnalysis/TestLR.cs:66-81 | the matrix after ClearRow: slice pi unchanged, every entry either kept or reduced into [0, var_m) |
| Elimination.ClearingKeepsResidues | InterproceduralAnalysis/TestLR.cs:51-81 | clearing keeps every entry of A and T in [0, var_m) |
| Elimination.ClearColumnZeroesPivotSlice | InterproceduralAnalysis/TestLR.cs:51-64 | with pr = 0 and A[pi][pj] = pd, ClearColumn leaves A[pi][j] = 0 for every j ≠ pj |
| Elimination.ClearRowZeroesPivotPosition | InterproceduralAnalysis/TestLR.cs:66-81 | with pr = 0, ClearRow leaves A[i][pj] = 0 for every i ≠ pi |
| Elimination.EvenPivotNotCleared | InterproceduralAnalysis/TestLR.cs:134-136 | with an even pivot (pr = 1) overwritten by its cofactor, ClearColumn leaves a nonzero entry in the pivot slice |
| Elimination.SwapFirst | InterproceduralAnalysis/TestLR.cs:83-99 | slices x and y trade places and every other slice is kept |
| Elimination.SwapSecond | InterproceduralAnalysis/TestLR.cs:101-117 | in every slice positions x and y trade places, all else kept |
| Elimination.SwapFirstInvolution | InterproceduralAnalysis/TestLR.cs:83-99 | exchanging a slice with itself changes nothing, and exchanging twice restores the matrix |
| Elimination.SwapSecondInvolution | InterproceduralAnalysis/TestLR.cs:101-117 | the same for ExchangeRows |
| Elimination.SwapsKeepResidues | InterproceduralAnalysis/TestLR.cs:83-117 | exchanges keep every entry in [0, var_m) |
| Elimination.ResiduesAfterWrite | InterproceduralAnalysis/TestLR.cs:134 | writing a value in [0, var_m) keeps every entry in range |
| Elimination.StepResult | InterproceduralAnalysis/TestLR.cs:134-142 | one step on values keeps both matrices square and of the same size |
| Elimination.ReachesStep | InterproceduralAnalysis/TestLR.cs:119-147 | a step with the pivot IsPivot chooses continues the run from StepResult |
| Elimination.ReachesStop | InterproceduralAnalysis/TestLR.cs:134-136 | a step with no positive entry ends the run there, unfinished |
| Elimination.ReachesDeterministic | InterproceduralAnalysis/TestLR.cs:119-147 | the run has exactly one outcome: two outcomes from the same matrices are equal |
| Elimination.RunsOnStep | InterproceduralAnalysis/TestLR.cs:121-144 | a pivot step keeps the loop's state on the run from the start |
| Elimination.RunsOnStop | InterproceduralAnalysis/TestLR.cs:134-136 | a missing pivot makes the current matrices the run's unfinished outcome |
| Elimination.RunsOnEnd | InterproceduralAnalysis/TestLR.cs:121 | past the last diagonal index the current matrices are the run's completed outcome |
| LRTest.TestLR.Default | InterproceduralAnalysis/TestLR.cs:18-26 | the ring Z/2^8 with var_n = 3, A = [[1,4,2],[0,6,7],[0,0,3]] and T the identity |
| LRTest.TestLR.GetPivot | InterproceduralAnalysis/TestLR.cs:28-49 | the result satisfies IsPivot over A[di..][di..] |
| LRTest.TestLR.ScanSlice | InterproceduralAnalysis/TestLR.cs:37-48 | the inner loop over i extends the scan's promise by one j |
| LRTest.TestLR.ClearColumn | InterproceduralAnalysis/TestLR.cs:51-64 | A becomes ColumnsCleared of the old A and T is untouched |
| LRTest.TestLR.ClearRow | InterproceduralAnalysis/TestLR.cs:66-81 | A and T become RowsCleared of the old matrices, both with the multipliers read from the old A |
| LRTest.TestLR.ExchangeColumns | InterproceduralAnalysis/TestLR.cs:83-99 | A and T become SwapFirst of their old values (a no-op when di = pi) |
| LRTest.TestLR.ExchangeRows | InterproceduralAnalysis/TestLR.cs:101-117 | A and T become SwapSecond of their old values (a no-op when di = pj) |
| LRTest.TestLR.SwapSlices | InterproceduralAnalysis/TestLR.cs:89-98 | the loop of ExchangeColumns leaves A and T as SwapFirst of what they held |
| LRTest.TestLR.SwapPositions | InterproceduralAnalysis/TestLR.cs:107-116 | the loop of ExchangeRows leaves A and T as SwapSecond of what they held |
| LRTest.TestLR.SwapEntries | InterproceduralAnalysis/TestLR.cs:91-93 | the exchange through a temporary swaps two entries and nothing else |
| LRTest.TestLR.DiagonalStep | InterproceduralAnalysis/TestLR.cs:134-142 | the pivot entry is overwritten by pd, then A and T become StepResult of the old matrices: ClearColumn, ClearRow and both exchanges in the source's order; entries stay in [0, var_m) |
| LRTest.TestLR.Diagonalise | InterproceduralAnalysis/TestLR.cs:119-147 | the `di` loop: A and T end at an outcome of Reaches from their old values, and completed is false exactly when the run stopped without a pivot |
| LRTest.TestLR.Testuj | InterproceduralAnalysis/TestLR.cs:119-147 | from Default's A and the identity T, the object ends valid at the unique outcome of Reaches: a pivot step per diagonal index, stopping (answer false) only where no positive entry is left |

## Left out

- Console output: `TransitionMatrixSet.Print`, `GeneratorSet.Print`, `TestLR.PrintMatrix` and the `printM`/`printG` branches only write text, so they are not modelled.
- `MatrixMultiMatrix` and `GetMArray` are not used by the core. They are not modelled. `GetIdentity` is modelled directly as a k×k identity.
- The commented-out code, and the call-edge handling that exists only as a comment, are not part of this model.
- ProgramAst, IaNode and IaEdge are not part of this model. The graph becomes nodes 0 .. N-1 with lists of (target, statement) edges. `Graph["main"]` becomes an index.
- `Graph.Values` is visited in index order. The null checks on nodes become the well-formedness of that graph.
- The expression types are not part of this model. They become the `Ast` datatype (Number, Variable, Op).
- Number literals are natural numbers, so a negative literal is not modelled.
- An assignment whose left-hand side is not a variable node is treated like an undeclared name: no matrix.
- 64-bit and 32-bit arithmetic is not modelled. The long products at InterproceduralAnalyzer.cs:234, 611 and 676, the `(int)` casts at 671, and the shifts `1L << w` and `1L << i` are exact only for small w (about w ≤ 31). The model uses unbounded integers.
- `Math.Sqrt` and `Math.Pow` are replaced by their integer meaning. Ring.IsPrime tests the odd divisors v with v·v ≤ n; the source tests v < ⌊√n⌋ + 1, which is the same set. The power 2^(rv−rg) is Pow2.
- Ring.CreateBase: it uses GetTablePrime, the corrected prime choice, so Reduction is right for every w. GetPrime as written is modelled and its failure is shown under Findings.
- Ring.Reduction: its own contract states only r < w. What it computes is stated by Ring.ReductionCorrect and Ring.ReductionOdd.
- Ring.MatrixMultiVector: it requires non-negative entries, as every caller's entries lie in [0, 2^w). An empty matrix is reported as a failure; the source throws there when reading `matrix[0]`.
- Ring.IsPrime: it requires n ≥ 1, since GetPrime starts its search at w ≥ 1.
- Transition.Walk: its own contract states only the index bound. Its meaning is stated through Transition.RunAddsWalk, Transition.AddTermsSums and Transition.ProceedExpr.
- GeneratorSets.GeneratorSet.InsertVector: the `throw` at InterproceduralAnalyzer.cs:594 cannot be reached from AddVector. The method therefore requires that an occupied slot ii holds a larger lead.
- GeneratorSets.GeneratorSet.AddVector: the callers guarantee a nonzero vector (the `Lidx >= 0` checks at lines 118, 614 and 679). It is therefore a precondition.
- The source swaps its locals in the same-lead branch. The model writes out the two orders of the final combination instead; the values are the same.
- Closure.AnalyzeClosed: it states that the result is closed under every edge's matrices and contains the images of everything at main. That it is the least such family (every stored vector arises from an identity row along a path) is not stated.
- Analyzer.Worklist: AddVector can answer true for a vector its set already spans (GeneratorSpan.RedundantVectorReported), so no lemma claims that a spanned vector is never queued again.
- The worklist's termination is proved: each true answer of AddVector lowers the total rank. So no fuel bound is needed.
- In TestLR, the methods act on the `A` and `T` fields rather than taking them as parameters; the source always passes those fields.
- LRTest.TestLR.GetPivot: its inner loop is the separate method ScanSlice.
- LRTest.TestLR.DiagonalStep: the body of the `di` loop is this method.
- LRTest.TestLR.Testuj: it is a static method that creates the object through Default. When no pivot exists (pi = −1), the source fails with an index error at `A[pi][pj]`. The model instead stops and returns false.

## Findings

| source | as written | input that shows it | evidently intended | confidence | as-written member | corrected member |
|---|---|---|---|---|---|---|
| InterproceduralAnalysis/InterproceduralAnalyzer.cs:162-168 | GetPrime takes the least prime p ≥ w, and the table at 183-192 stores exponent i at slot 2^i mod p | w = 7: p = 7 and 2^1 ≡ 2^4 (mod 7), so slot 2 ends up holding 4, and Reduction(2) returns r = 4, d = 2 >> 4 = 0 instead of r = 1, d = 1 | a prime for which 2^1 .. 2^(w−1) fall into distinct slots, so that Reduction returns the true 2-adic valuation | not executed | RingFindings.TableCollisionAtSeven | Ring.GetTablePrime |
