// InterproceduralAnalyzer: the driver. It builds every reachable edge's
// matrix set once (a BFS from main), attaches an empty generator set to
// every node, seeds main with the identity rows and runs the worklist that
// pushes M * v along the edges until no generator set grows.

module Analyzer {
  import opened Arith
  import opened Options
  import opened Ring
  import opened Lead
  import opened GeneratorSpec
  import opened Transition
  import opened GeneratorSets

  /** An edge of the flow graph: its target node and the statement it carries. */
  datatype Edge = Edge(to: nat, ast: Ast)

  /** The parsed program: nodes 0 .. |graph| - 1 with their outgoing edges, the entry node and the declared variables. */
  datatype Program = Program(graph: seq<seq<Edge>>, main: nat, vars: seq<string>)
  {
    predicate WellFormed()
    {
      && main < |graph|
      && forall u, k :: 0 <= u < |graph| && 0 <= k < |graph[u]| ==> graph[u][k].to < |graph|
    }
  }

  /** Edge k of node u. */
  type EdgeId = (nat, nat)

  predicate IsEdge(prg: Program, e: EdgeId)
  {
    e.0 < |prg.graph| && e.1 < |prg.graph[e.0]|
  }

  /** All edges of the graph. */
  ghost function EdgeIds(prg: Program): set<EdgeId>
  {
    set u, k | 0 <= u < |prg.graph| && 0 <= k < |prg.graph[u]| :: (u, k)
  }

  /** Setting more edges shrinks the set of edges still without a matrix set. */
  lemma SetMore(prg: Program, k0: set<EdgeId>, k1: set<EdgeId>)
    requires k0 < k1 && forall e :: e in k1 ==> IsEdge(prg, e)
    ensures |EdgeIds(prg) - k1| < |EdgeIds(prg) - k0|
  {
    assert k1 - k0 != {} by {
      if k1 - k0 == {} {
        forall x | x in k1
          ensures x in k0
        {
          assert x !in k1 - k0;
        }
      }
    }
    var e :| e in k1 - k0;
    assert e in EdgeIds(prg) by {
      assert e == (e.0, e.1);
    }
    StrictSubsetCard(EdgeIds(prg) - k1, EdgeIds(prg) - k0);
  }

  lemma {:induction false} SubsetCard<T>(a: set<T>, b: set<T>)
    requires a <= b
    ensures |a| <= |b|
    decreases |a|
  {
    if a != {} {
      var x :| x in a;
      SubsetCard(a - {x}, b - {x});
    }
  }

  lemma StrictSubsetCard<T>(a: set<T>, b: set<T>)
    requires a < b
    ensures |a| < |b|
  {
    assert b - a != {} by {
      if b - a == {} {
        forall x | x in b
          ensures x in a
        {
          assert x !in b - a;
        }
      }
    }
    var y :| y in b - a;
    SubsetCard(a, b - {y});
  }

  function Target(prg: Program, e: EdgeId): nat
    requires IsEdge(prg, e)
  {
    prg.graph[e.0][e.1].to
  }

  /** The nodes 0 .. |graph| - 1. */
  ghost function NodeIds(prg: Program): set<nat>
  {
    Elems(seq(|prg.graph|, i requires 0 <= i => i as nat))
  }

  /** Attaching a set to one more node shrinks the set of nodes still without one. */
  lemma AttachShrinks(prg: Program, keys: set<nat>, n: nat)
    requires n < |prg.graph| && n !in keys
    ensures |NodeIds(prg) - (keys + {n})| < |NodeIds(prg) - keys|
  {
    assert seq(|prg.graph|, i requires 0 <= i => i as nat)[n] == n;
    assert n in NodeIds(prg) - keys;
    assert NodeIds(prg) - (keys + {n}) < NodeIds(prg) - keys;
    StrictSubsetCard(NodeIds(prg) - (keys + {n}), NodeIds(prg) - keys);
  }

  /** u is a node and every edge out of it has its matrix set. */
  ghost predicate AllSet(prg: Program, keys: set<EdgeId>, u: nat)
  {
    u < |prg.graph| && forall k :: 0 <= k < |prg.graph[u]| ==> (u, k) in keys
  }

  /**
   * The BFS's promise while it runs: main and the target of every set edge
   * are still to be visited (in live) or have all their edges set.
   */
  ghost predicate Pending(prg: Program, keys: set<EdgeId>, live: set<nat>)
  {
    && (prg.main in live || AllSet(prg, keys, prg.main))
    && forall e :: e in keys ==> IsEdge(prg, e) && (Target(prg, e) in live || AllSet(prg, keys, Target(prg, e)))
  }

  /** Every queued node is a node of the graph. */
  predicate NodesIn(prg: Program, q: seq<nat>)
  {
    forall i :: 0 <= i < |q| ==> q[i] < |prg.graph|
  }

  lemma NodesInRest(prg: Program, q: seq<nat>, add: seq<nat>)
    requires |q| > 0 && NodesIn(prg, q) && NodesIn(prg, add)
    ensures NodesIn(prg, q[1..] + add)
  {
  }

  /** The nodes in a queue. */
  function Elems(q: seq<nat>): set<nat>
  {
    set x | x in q
  }

  lemma ElemsConcat(a: seq<nat>, c: seq<nat>)
    ensures Elems(a + c) == Elems(a) + Elems(c)
  {
    assert forall x :: x in a + c <==> x in a || x in c;
  }

  /** A node whose edges are all set need not stay live. */
  lemma Visited(prg: Program, keys: set<EdgeId>, live: set<nat>, n: nat)
    requires Pending(prg, keys, live + {n}) && AllSet(prg, keys, n)
    ensures Pending(prg, keys, live)
  {
  }

  /** A work item: a vector that has just entered node's generator set (or an identity row at main). */
  datatype QueueItem = QueueItem(node: nat, vector: LeadVector)

  /** The identity row i leads at i with entry 1. */
  lemma IdentityRowLead(n: nat, i: nat)
    requires i < n
    ensures LeadIndex(IdentityMatrix(n)[i]) == i
  {
    var row := IdentityMatrix(n)[i];
    assert row[i] != 0;
    assert forall k :: 0 <= k < n && k != i ==> row[k] == 0;
  }

  // ---------------------------------------------------------------- ranks

  /** The sum of the generator sets' ranks: the measure the worklist lowers. */
  ghost function RankSum(b: BaseFunctions, cs: seq<seq<LeadVector>>): int
  {
    if |cs| == 0 then 0 else RankSum(b, cs[..|cs| - 1]) + Rank(b, cs[|cs| - 1])
  }

  lemma {:induction false} RankSumNonNegative(b: BaseFunctions, cs: seq<seq<LeadVector>>)
    requires forall u :: 0 <= u < |cs| ==> Canonical(b, cs[u])
    ensures RankSum(b, cs) >= 0
  {
    if |cs| > 0 {
      RankSumNonNegative(b, cs[..|cs| - 1]);
      RankNonNegative(b, cs[|cs| - 1]);
    }
  }

  /** Replacing one set changes the sum by the change of that set's rank. */
  lemma {:induction false} RankSumUpdate(b: BaseFunctions, cs: seq<seq<LeadVector>>, i: nat, c: seq<LeadVector>)
    requires i < |cs|
    ensures RankSum(b, cs[i := c]) == RankSum(b, cs) - Rank(b, cs[i]) + Rank(b, c)
  {
    var last := |cs| - 1;
    if i < last {
      assert cs[i := c][..last] == cs[..last][i := c];
      RankSumUpdate(b, cs[..last], i, c);
    } else {
      assert cs[i := c][..last] == cs[..last];
    }
  }

  /** Every set edge's matrix set is the one GetMatrix builds for its statement. */
  ghost predicate Built(b: BaseFunctions, prg: Program, ms: map<EdgeId, seq<Matrix>>)
  {
    && b.Valid() && |prg.vars| < b.n
    && forall e {:trigger EdgeBuilt(b, prg, e, ms[e])} :: e in ms ==> EdgeBuilt(b, prg, e, ms[e])
  }

  /** mats is the matrix set GetMatrix builds for edge e's statement. */
  ghost predicate EdgeBuilt(b: BaseFunctions, prg: Program, e: EdgeId, mats: seq<Matrix>)
  {
    IsEdge(prg, e) && b.m > 0 && |prg.vars| < b.n && mats == MatricesFor(b, prg.graph[e.0][e.1].ast, prg.vars)
  }

  /**
   * The loop over n's edges in CreateTransitionMatrixes: each edge without
   * a matrix set gets one, and its target is queued (returned in add).
   */
  method VisitEdges(b: BaseFunctions, prg: Program, n: nat, ghost live: set<nat>, ms0: map<EdgeId, seq<Matrix>>)
    returns (add: seq<nat>, ms: map<EdgeId, seq<Matrix>>)
    requires Built(b, prg, ms0) && prg.WellFormed() && n < |prg.graph|
    requires Pending(prg, ms0.Keys, live + {n})
    ensures Built(b, prg, ms) && ms0.Keys <= ms.Keys
    ensures NodesIn(prg, add)
    ensures Pending(prg, ms.Keys, live + Elems(add)) && AllSet(prg, ms.Keys, n)
    ensures (ms == ms0 && add == []) || ms0.Keys < ms.Keys
  {
    add, ms := [], ms0;
    var edges := prg.graph[n];
    for k := 0 to |edges|
      invariant Built(b, prg, ms) && ms0.Keys <= ms.Keys
      invariant NodesIn(prg, add)
      invariant Pending(prg, ms.Keys, live + {n} + Elems(add))
      invariant forall k' :: 0 <= k' < k ==> (n, k') in ms
      invariant (ms == ms0 && add == []) || ms0.Keys < ms.Keys
    {
      if (n, k) !in ms {
        var mtx := EdgeMatrices(b, edges[k].ast, prg.vars);
        ms := ms[(n, k) := mtx];
        add := add + [edges[k].to];
      }
    }
    Visited(prg, ms.Keys, live + Elems(add), n);
    assert live + {n} + Elems(add) == live + Elems(add) + {n};
  }

  /** The BFS of CreateTransitionMatrixes, over the matrix sets as a map from edges. */
  method BuildMatrixSets(b: BaseFunctions, prg: Program) returns (ms: map<EdgeId, seq<Matrix>>)
    requires b.Valid() && prg.WellFormed() && |prg.vars| < b.n
    ensures Built(b, prg, ms) && Pending(prg, ms.Keys, {})
  {
    var q: seq<nat> := [prg.main];
    ms := map[];
    while |q| > 0
      invariant Built(b, prg, ms)
      invariant NodesIn(prg, q)
      invariant Pending(prg, ms.Keys, Elems(q))
      decreases |EdgeIds(prg) - ms.Keys|, |q|
    {
      var n := q[0];
      ghost var keys := ms.Keys;
      var add;
      add, ms := VisitEdges(b, prg, n, Elems(q[1..]), ms);
      if keys < ms.Keys {
        SetMore(prg, keys, ms.Keys);
      }
      NodesInRest(prg, q, add);
      ElemsConcat(q[1..], add);
      q := q[1..] + add;
    }
  }

  /** new TransitionMatrixSet(edge, b) followed by GetMatrix: the edge's matrix set. */
  method EdgeMatrices(b: BaseFunctions, ast: Ast, vars: seq<string>) returns (ms: seq<Matrix>)
    requires b.Valid() && |vars| < b.n
    ensures ms == MatricesFor(b, ast, vars)
  {
    var mtx := new TransitionMatrixSet(ast, b);
    mtx.GetMatrix(vars);
    ms := mtx.TMatrixes;
  }

  /** new InterproceduralAnalyzer(w, n, ...): fails when w <= 0 or n < 0. */
  method NewAnalyzer(w: int, n: int) returns (res: Option<InterproceduralAnalyzer>)
    ensures res.None? <==> (w <= 0 || n < 0)
    ensures res.Some? ==> fresh(res.value) && res.value.Fresh()
    ensures res.Some? ==> res.value.b.w == w && res.value.b.n == n + 1 && res.value.b.m == Pow2(w)
  {
    if w <= 0 || n < 0 {
      return None;
    }
    var b := CreateBase(w, n);
    var a := new InterproceduralAnalyzer(b.value);
    return Some(a);
  }

  // ------------------------------------------------------- generator sets

  /** node.GeneratorSet. */
  ghost function SetAt(G: map<nat, GeneratorSet>, u: nat): GeneratorSet
    requires u in G
  {
    G[u]
  }

  /** Each attached node owns its generator set and the set's array: no two nodes share either. */
  ghost predicate Owned(G: map<nat, GeneratorSet>, owner: map<object, nat>)
  {
    forall u :: u in G ==> G[u] in owner && owner[G[u]] == u && G[u].GArr in owner && owner[G[u].GArr] == u
  }

  /** Every attached node's generator set is its own and valid over b. */
  ghost predicate SetsOk(b: BaseFunctions, G: map<nat, GeneratorSet>, owner: map<object, nat>)
    reads owner.Keys
  {
    && Owned(G, owner)
    && forall u {:trigger SetAt(G, u)} :: u in G ==> SetAt(G, u).b == b && SetAt(G, u).Valid()
  }

  /** SetsOk, and exactly the nodes of the graph have a generator set. */
  ghost predicate SetsReady(b: BaseFunctions, prg: Program, G: map<nat, GeneratorSet>, owner: map<object, nat>)
    reads owner.Keys
  {
    b.Valid() && SetsOk(b, G, owner) && forall u: int :: u in G <==> 0 <= u < |prg.graph|
  }

  ghost predicate AllEmpty(G: map<nat, GeneratorSet>, owner: map<object, nat>)
    reads owner.Keys
  {
    forall u {:trigger SetAt(G, u)} :: u in G && SetAt(G, u) in owner ==> SetAt(G, u).Contents == []
  }

  /** n.GeneratorSet = new GeneratorSet(n, b). */
  method Attach(b: BaseFunctions, G0: map<nat, GeneratorSet>, ghost owner0: map<object, nat>, n: nat,
                ghost anchor: object)
    returns (G: map<nat, GeneratorSet>, ghost owner: map<object, nat>)
    requires b.Valid() && SetsOk(b, G0, owner0) && AllEmpty(G0, owner0) && n !in G0 && anchor !in owner0
    ensures SetsOk(b, G, owner) && AllEmpty(G, owner) && anchor !in owner
    ensures G.Keys == G0.Keys + {n}
    ensures owner.Keys == owner0.Keys + {G[n], G[n].GArr} && fresh(G[n]) && fresh(G[n].GArr)
  {
    var s := new GeneratorSet(b);
    G := G0[n := s];
    owner := owner0[s := n][s.GArr := n];
    forall u | u in G
      ensures SetAt(G, u) == if u == n then s else SetAt(G0, u)
    {
    }
  }

  /** No node occurs twice. */
  predicate Distinct(order: seq<nat>)
  {
    forall i, j :: 0 <= i < j < |order| ==> order[i] != order[j]
  }

  /**
   * One round of CreateEmptyG's outer loop: the BFS from node. A node gets
   * its generator set (joins attached, and order) when it is dequeued
   * without one, and then queues its targets that have none.
   */
  method AttachFrom(prg: Program, node: nat, attached0: set<nat>, order0: seq<nat>)
    returns (attached: set<nat>, order: seq<nat>)
    requires prg.WellFormed() && node < |prg.graph|
    requires attached0 == Elems(order0) && Distinct(order0) && NodesIn(prg, order0)
    ensures attached == Elems(order) && Distinct(order) && NodesIn(prg, order)
    ensures attached0 <= attached && node in attached
  {
    attached, order := attached0, order0;
    var q: seq<nat> := [node];
    while |q| > 0
      invariant attached == Elems(order) && Distinct(order) && NodesIn(prg, order)
      invariant attached0 <= attached && NodesIn(prg, q)
      invariant node in attached || (|q| > 0 && q[0] == node)
      decreases |NodeIds(prg) - attached|, |q|
    {
      attached, order, q := AttachNext(prg, attached, order, q);
    }
  }

  /**
   * One turn of that BFS: the head of the queue is dequeued; if it has no
   * generator set it gets one, and its targets without one are queued.
   */
  method AttachNext(prg: Program, attached0: set<nat>, order0: seq<nat>, q0: seq<nat>)
    returns (attached: set<nat>, order: seq<nat>, q: seq<nat>)
    requires prg.WellFormed() && |q0| > 0 && NodesIn(prg, q0)
    requires attached0 == Elems(order0) && Distinct(order0) && NodesIn(prg, order0)
    ensures attached == Elems(order) && Distinct(order) && NodesIn(prg, order)
    ensures attached0 <= attached && q0[0] in attached && NodesIn(prg, q)
    ensures |NodeIds(prg) - attached| < |NodeIds(prg) - attached0| || (attached == attached0 && |q| < |q0|)
  {
    var n := q0[0];
    q := q0[1..];
    attached, order := attached0, order0;
    if n !in attached {
      AttachGrows(prg, attached, order, n);
      attached := attached + {n};
      order := order + [n];
      q := QueueUnattached(prg, n, attached, q);
    }
  }

  /** Attaching a node not yet attached keeps the order in step with the attached set, and shrinks what is left. */
  lemma AttachGrows(prg: Program, attached: set<nat>, order: seq<nat>, n: nat)
    requires attached == Elems(order) && Distinct(order) && NodesIn(prg, order)
    requires n < |prg.graph| && n !in attached
    ensures attached + {n} == Elems(order + [n]) && Distinct(order + [n]) && NodesIn(prg, order + [n])
    ensures |NodeIds(prg) - (attached + {n})| < |NodeIds(prg) - attached|
  {
    AttachShrinks(prg, attached, n);
    ElemsConcat(order, [n]);
    assert Elems([n]) == {n};
  }

  /** The nodes in the order in which CreateEmptyG gives them their generator sets: each node exactly once. */
  method AttachOrder(prg: Program) returns (order: seq<nat>)
    requires prg.WellFormed()
    ensures Distinct(order)
    ensures forall u: int :: u in order <==> 0 <= u < |prg.graph|
  {
    order := [];
    var attached: set<nat> := {};
    for node := 0 to |prg.graph|
      invariant attached == Elems(order) && Distinct(order) && NodesIn(prg, order)
      invariant forall u :: 0 <= u < node ==> u in attached
    {
      attached, order := AttachFrom(prg, node, attached, order);
    }
    forall u: int
      ensures u in order <==> 0 <= u < |prg.graph|
    {
      if 0 <= u < |prg.graph| {
        assert u in attached;
      }
      if u in order {
        var i :| 0 <= i < |order| && order[i] == u;
      }
    }
  }

  /** CreateEmptyG's allocations, in the order the BFS makes them. */
  method CreateSets(b: BaseFunctions, prg: Program, ghost anchor: object)
    returns (G: map<nat, GeneratorSet>, ghost owner: map<object, nat>)
    requires b.Valid() && prg.WellFormed()
    ensures SetsReady(b, prg, G, owner) && AllEmpty(G, owner) && anchor !in owner
    ensures fresh(owner.Keys)
  {
    var order := AttachOrder(prg);
    G, owner := map[], map[];
    for i := 0 to |order|
      invariant SetsOk(b, G, owner) && AllEmpty(G, owner) && anchor !in owner
      invariant forall u :: u in G <==> u in order[..i]
      invariant fresh(owner.Keys)
    {
      assert order[i] !in order[..i];
      assert order[..i + 1] == order[..i] + [order[i]];
      G, owner := Attach(b, G, owner, order[i], anchor);
    }
    assert order[..|order|] == order;
  }

  /** The edge loop of CreateEmptyG: queue, in edge order, every target of n's edges that has no generator set. */
  method QueueUnattached(prg: Program, n: nat, attached: set<nat>, q0: seq<nat>) returns (q: seq<nat>)
    requires prg.WellFormed() && n < |prg.graph|
    requires NodesIn(prg, q0)
    ensures q == q0 + Unattached(prg.graph[n], attached)
    ensures NodesIn(prg, q)
  {
    q := q0;
    for k := 0 to |prg.graph[n]|
      invariant q == q0 + Unattached(prg.graph[n][..k], attached)
      invariant NodesIn(prg, q)
    {
      assert prg.graph[n][..k + 1][..k] == prg.graph[n][..k];
      if prg.graph[n][k].to !in attached {
        q := q + [prg.graph[n][k].to];
      }
    }
    assert prg.graph[n][..|prg.graph[n]|] == prg.graph[n];
  }

  /** The targets of edges, in order, that have no generator set yet. */
  function Unattached(edges: seq<Edge>, attached: set<nat>): (ts: seq<nat>)
    ensures forall i :: 0 <= i < |ts| ==> ts[i] !in attached
    ensures forall k :: 0 <= k < |edges| && edges[k].to !in attached ==> edges[k].to in ts
  {
    if |edges| == 0 then []
    else
      var init := Unattached(edges[..|edges| - 1], attached);
      var last := edges[|edges| - 1].to;
      if last in attached then init else init + [last]
  }

  // ------------------------------------------------------------- worklist

  /** What SetsReady says about node u's generator set. */
  lemma SetsReadyAt(b: BaseFunctions, prg: Program, G: map<nat, GeneratorSet>, owner: map<object, nat>, u: nat)
    requires SetsReady(b, prg, G, owner) && u < |prg.graph|
    ensures u in G && G[u] in owner && owner[G[u]] == u && G[u].GArr in owner && owner[G[u].GArr] == u
    ensures G[u].b == b && G[u].Valid()
  {
    assert SetAt(G, u) == G[u];
  }

  /** k empty generator sets: what CreateEmptyG leaves at every node. */
  function EmptySets(k: nat): (cs: seq<seq<LeadVector>>)
    ensures |cs| == k && forall u :: 0 <= u < k ==> cs[u] == []
  {
    seq(k, _ => [])
  }

  /** The work items AddIdentityVectors queues at node: identity row i, leading at i. */
  function IdentitySeeds(b: BaseFunctions, node: nat): (q: seq<QueueItem>)
    ensures |q| == b.n && forall i :: 0 <= i < b.n ==> q[i] == QueueItem(node, LeadVector(IdentityMatrix(b.n)[i], i))
  {
    seq(b.n, i requires 0 <= i < b.n => QueueItem(node, LeadVector(IdentityMatrix(b.n)[i], i)))
  }

  /** The seeds are ready work items at a node whose edges are set. */
  lemma SeedsReady(b: BaseFunctions, prg: Program, keys: set<EdgeId>, node: nat)
    requires b.Valid() && AllSet(prg, keys, node)
    ensures QueueReady(b, prg, keys, IdentitySeeds(b, node))
  {
    forall i | 0 <= i < b.n
      ensures ItemReady(b, prg, keys, IdentitySeeds(b, node)[i])
    {
      IdentityRowReady(b, prg, keys, node, i);
    }
  }

  /** The generator sets' contents, node by node. */
  ghost function Snapshot(b: BaseFunctions, prg: Program, G: map<nat, GeneratorSet>, owner: map<object, nat>)
    : (cs: seq<seq<LeadVector>>)
    reads owner.Keys
    requires SetsReady(b, prg, G, owner)
    ensures |cs| == |prg.graph| && AllCanonical(b, cs)
  {
    SetsCanonical(b, prg, G, owner);
    seq(|prg.graph|, u requires 0 <= u < |prg.graph| && u in G && G[u] in owner reads owner.Keys => G[u].Contents)
  }

  /** Every node's set is in echelon form. */
  lemma SetsCanonical(b: BaseFunctions, prg: Program, G: map<nat, GeneratorSet>, owner: map<object, nat>)
    requires SetsReady(b, prg, G, owner)
    ensures forall u :: 0 <= u < |prg.graph| ==> u in G && G[u] in owner && Canonical(b, G[u].Contents)
  {
    forall u | 0 <= u < |prg.graph|
      ensures u in G && G[u] in owner && Canonical(b, G[u].Contents)
    {
      SetsReadyAt(b, prg, G, owner, u);
    }
  }

  /** Every set is in echelon form, so the total rank is never negative. */
  lemma SnapshotRank(b: BaseFunctions, prg: Program, G: map<nat, GeneratorSet>, owner: map<object, nat>)
    requires SetsReady(b, prg, G, owner)
    ensures RankSum(b, Snapshot(b, prg, G, owner)) >= 0
  {
    RankSumNonNegative(b, Snapshot(b, prg, G, owner));
  }

  /** A queued vector is a nonzero ring vector at a node whose edges all have their matrix sets. */
  ghost predicate ItemReady(b: BaseFunctions, prg: Program, keys: set<EdgeId>, item: QueueItem)
  {
    AllSet(prg, keys, item.node) && WfVec(b, item.vector) && item.vector.li >= 0
  }

  ghost predicate QueueReady(b: BaseFunctions, prg: Program, keys: set<EdgeId>, q: seq<QueueItem>)
  {
    forall i :: 0 <= i < |q| ==> ItemReady(b, prg, keys, q[i])
  }

  // ------------------------------------------------- the worklist on values

  /** Every generator set is in echelon form. */
  ghost predicate AllCanonical(b: BaseFunctions, cs: seq<seq<LeadVector>>)
  {
    forall u :: 0 <= u < |cs| ==> Canonical(b, cs[u])
  }

  /** The world the worklist runs in: built matrix sets, and one set per node. */
  ghost predicate Ready(b: BaseFunctions, prg: Program, ms: map<EdgeId, seq<Matrix>>, cs: seq<seq<LeadVector>>)
  {
    && Built(b, prg, ms) && Pending(prg, ms.Keys, {}) && prg.WellFormed()
    && |cs| == |prg.graph| && AllCanonical(b, cs)
  }

  /** M * v as the LeadVector the source builds from it. */
  ghost function ImageVector(b: BaseFunctions, mx: Matrix, v: LeadVector): (x: LeadVector)
    requires b.Valid() && Shaped(b.n, mx) && WfVec(b, v)
    ensures WfVec(b, x) && x.vr == MatVec(mx, v.vr, b.n, b.m)
  {
    var xr := MatVec(mx, v.vr, b.n, b.m);
    BoundedIntro(xr, b.m);
    LeadVector(xr, LeadIndex(xr))
  }

  /**
   * Pushing v through one matrix to node to, on the sets' contents and the
   * queue: a nonzero image is given to Add on to's set, and queued at to
   * when Add reports a change. Either the total rank drops, or nothing
   * changes at all.
   */
  ghost function OfferStep(b: BaseFunctions, prg: Program, keys: set<EdgeId>, cs: seq<seq<LeadVector>>,
                           q: seq<QueueItem>, to: nat, mx: Matrix, v: LeadVector)
    : (r: (seq<seq<LeadVector>>, seq<QueueItem>))
    requires b.Valid() && AllCanonical(b, cs) && to < |cs| && AllSet(prg, keys, to)
    requires QueueReady(b, prg, keys, q) && Shaped(b.n, mx) && WfVec(b, v)
    ensures |r.0| == |cs| && AllCanonical(b, r.0) && QueueReady(b, prg, keys, r.1)
    ensures RankSum(b, r.0) < RankSum(b, cs) || r == (cs, q)
  {
    var x := ImageVector(b, mx, v);
    if x.li < 0 then (cs, q)
    else
      var (g, added) := Add(b, cs[to], x);
      AddProgress(b, cs[to], x);
      RankSumUpdate(b, cs, to, g);
      assert !added ==> cs[to := g] == cs;
      (cs[to := g], if added then q + [QueueItem(to, x)] else q)
  }

  /** OfferStep for each matrix of mats in turn. */
  ghost function OfferFold(b: BaseFunctions, prg: Program, keys: set<EdgeId>, cs: seq<seq<LeadVector>>,
                           q: seq<QueueItem>, to: nat, mats: seq<Matrix>, v: LeadVector)
    : (r: (seq<seq<LeadVector>>, seq<QueueItem>))
    requires b.Valid() && AllCanonical(b, cs) && to < |cs| && AllSet(prg, keys, to)
    requires QueueReady(b, prg, keys, q) && WfVec(b, v)
    requires forall a :: 0 <= a < |mats| ==> Shaped(b.n, mats[a])
    ensures |r.0| == |cs| && AllCanonical(b, r.0) && QueueReady(b, prg, keys, r.1)
    ensures RankSum(b, r.0) < RankSum(b, cs) || r == (cs, q)
  {
    if |mats| == 0 then (cs, q)
    else
      var r := OfferFold(b, prg, keys, cs, q, to, mats[..|mats| - 1], v);
      OfferStep(b, prg, keys, r.0, r.1, to, mats[|mats| - 1], v)
  }

  /** The first k edges out of from, each pushing v through its matrix set to its target. */
  ghost function PropagateFold(b: BaseFunctions, prg: Program, ms: map<EdgeId, seq<Matrix>>, cs: seq<seq<LeadVector>>,
                               q: seq<QueueItem>, from: nat, k: nat, v: LeadVector)
    : (r: (seq<seq<LeadVector>>, seq<QueueItem>))
    requires Ready(b, prg, ms, cs) && AllSet(prg, ms.Keys, from) && k <= |prg.graph[from]|
    requires QueueReady(b, prg, ms.Keys, q) && WfVec(b, v)
    ensures Ready(b, prg, ms, r.0) && QueueReady(b, prg, ms.Keys, r.1)
    ensures RankSum(b, r.0) < RankSum(b, cs) || r == (cs, q)
  {
    if k == 0 then (cs, q)
    else
      var r := PropagateFold(b, prg, ms, cs, q, from, k - 1, v);
      var e := (from, k - 1);
      assert EdgeBuilt(b, prg, e, ms[e]);
      MatricesShaped(b, prg.graph[from][k - 1].ast, prg.vars);
      assert AllSet(prg, ms.Keys, Target(prg, e));
      OfferFold(b, prg, ms.Keys, r.0, r.1, Target(prg, e), ms[e], v)
  }

  /**
   * The worklist loop on values: the head item pushed along every edge out
   * of its node, until the queue is empty. It ends because every change to
   * a set lowers the total rank.
   */
  ghost function Iterate(b: BaseFunctions, prg: Program, ms: map<EdgeId, seq<Matrix>>, cs: seq<seq<LeadVector>>,
                         q: seq<QueueItem>): (r: seq<seq<LeadVector>>)
    requires Ready(b, prg, ms, cs) && QueueReady(b, prg, ms.Keys, q)
    ensures Ready(b, prg, ms, r)
    decreases RankSum(b, cs), |q|
  {
    if |q| == 0 then cs
    else
      RankSumNonNegative(b, cs);
      var r := PropagateFold(b, prg, ms, cs, q[1..], q[0].node, |prg.graph[q[0].node]|, q[0].vector);
      Iterate(b, prg, ms, r.0, r.1)
  }

  /**
   * to.GeneratorSet.AddVector(x): the set at to becomes what Add makes of it,
   * every other set is untouched, and the total rank drops exactly when the
   * call returns true.
   */
  method AddAt(b: BaseFunctions, prg: Program, G: map<nat, GeneratorSet>, ghost owner: map<object, nat>,
               to: nat, x: LeadVector)
    returns (added: bool)
    requires SetsReady(b, prg, G, owner) && to < |prg.graph| && WfVec(b, x) && x.li >= 0
    requires G[to].b == b && G[to].Valid()
    modifies G[to], G[to].GArr
    ensures SetsReady(b, prg, G, owner)
    ensures (G[to].Contents, added) == GeneratorSpec.Add(b, old(G[to].Contents), x)
    ensures Snapshot(b, prg, G, owner) == old(Snapshot(b, prg, G, owner))[to := G[to].Contents]
    ensures added ==> RankSum(b, Snapshot(b, prg, G, owner)) < old(RankSum(b, Snapshot(b, prg, G, owner)))
    ensures !added ==> RankSum(b, Snapshot(b, prg, G, owner)) == old(RankSum(b, Snapshot(b, prg, G, owner)))
  {
    ghost var before := Snapshot(b, prg, G, owner);
    var gs := G[to];
    ghost var g0 := gs.Contents;
    added := gs.AddVector(x);
    AddProgress(b, g0, x);
    assert SetsReady(b, prg, G, owner);
    forall u | 0 <= u < |prg.graph|
      ensures Snapshot(b, prg, G, owner)[u] == before[to := gs.Contents][u]
    {
      if u != to {
        assert G[u] != gs;
      }
    }
    assert Snapshot(b, prg, G, owner) == before[to := gs.Contents];
    RankSumUpdate(b, before, to, gs.Contents);
  }

  /** xi = b.MatrixMultiVector(M, v.Vr, var_m); x = new LeadVector(xi): the image of a ring vector is one. */
  method Image(b: BaseFunctions, mx: Matrix, v: LeadVector) returns (x: LeadVector)
    requires b.Valid() && Shaped(b.n, mx) && WfVec(b, v)
    ensures x == ImageVector(b, mx, v)
  {
    forall k | 0 <= k < |v.vr|
      ensures v.vr[k] >= 0
    {
      BoundedAt(v.vr, b.m, k);
    }
    var xi := MatrixMultiVector(mx, v.vr, b.m);
    assert xi.Some?;
    x := NewLeadVector(xi.value);
    BoundedIntro(x.vr, b.m);
  }

  /**
   * x = M * v; when x is nonzero, to.GeneratorSet.AddVector(x), and x is
   * queued at to when that returned true. The total rank drops exactly then.
   */
  method Offer(b: BaseFunctions, prg: Program, keys: set<EdgeId>, G: map<nat, GeneratorSet>, ghost owner: map<object, nat>,
               q0: seq<QueueItem>, to: nat, mx: Matrix, v: LeadVector)
    returns (q: seq<QueueItem>, x: LeadVector, added: bool)
    requires SetsReady(b, prg, G, owner) && QueueReady(b, prg, keys, q0) && AllSet(prg, keys, to)
    requires Shaped(b.n, mx) && WfVec(b, v) && G[to].b == b && G[to].Valid()
    modifies G[to], G[to].GArr
    ensures SetsReady(b, prg, G, owner) && QueueReady(b, prg, keys, q)
    ensures x.vr == MatVec(mx, v.vr, b.n, b.m) && WfVec(b, x)
    ensures x.li < 0 ==> !added && G[to].Contents == old(G[to].Contents)
    ensures x.li >= 0 ==> (G[to].Contents, added) == GeneratorSpec.Add(b, old(G[to].Contents), x)
    ensures q == q0 + (if added then [QueueItem(to, x)] else [])
    ensures (Snapshot(b, prg, G, owner), q) == OfferStep(b, prg, keys, old(Snapshot(b, prg, G, owner)), q0, to, mx, v)
  {
    x := Image(b, mx, v);
    added := false;
    q := q0;
    if x.li >= 0 {
      added := AddAt(b, prg, G, owner, to, x);
      if added {
        q := q + [QueueItem(to, x)];
      }
    }
  }

  /** The loop over one edge's matrices: v pushed through each of them to the edge's target. */
  method OfferAll(b: BaseFunctions, prg: Program, keys: set<EdgeId>, G: map<nat, GeneratorSet>,
                  ghost owner: map<object, nat>, q0: seq<QueueItem>, to: nat, mats: seq<Matrix>, v: LeadVector)
    returns (q: seq<QueueItem>)
    requires SetsReady(b, prg, G, owner) && QueueReady(b, prg, keys, q0) && AllSet(prg, keys, to)
    requires forall a :: 0 <= a < |mats| ==> Shaped(b.n, mats[a])
    requires WfVec(b, v)
    modifies G[to], G[to].GArr
    ensures SetsReady(b, prg, G, owner) && QueueReady(b, prg, keys, q)
    ensures (Snapshot(b, prg, G, owner), q) == OfferFold(b, prg, keys, old(Snapshot(b, prg, G, owner)), q0, to, mats, v)
  {
    ghost var cs0 := Snapshot(b, prg, G, owner);
    q := q0;
    for a := 0 to |mats|
      invariant SetsReady(b, prg, G, owner) && QueueReady(b, prg, keys, q)
      invariant (Snapshot(b, prg, G, owner), q) == OfferFold(b, prg, keys, cs0, q0, to, mats[..a], v)
    {
      SetsReadyAt(b, prg, G, owner, to);
      assert mats[..a + 1][..a] == mats[..a];
      var x, added;
      q, x, added := Offer(b, prg, keys, G, owner, q, to, mats[a], v);
    }
    assert mats[..|mats|] == mats;
  }

  /** One worklist step: the dequeued pair pushed along every edge out of its node. */
  method Propagate(b: BaseFunctions, prg: Program, ms: map<EdgeId, seq<Matrix>>, G: map<nat, GeneratorSet>,
                   ghost owner: map<object, nat>, q0: seq<QueueItem>, pair: QueueItem)
    returns (q: seq<QueueItem>)
    requires SetsReady(b, prg, G, owner) && QueueReady(b, prg, ms.Keys, q0) && ItemReady(b, prg, ms.Keys, pair)
    requires Built(b, prg, ms) && Pending(prg, ms.Keys, {}) && prg.WellFormed()
    modifies owner.Keys
    ensures SetsReady(b, prg, G, owner) && QueueReady(b, prg, ms.Keys, q)
    ensures (Snapshot(b, prg, G, owner), q)
      == PropagateFold(b, prg, ms, old(Snapshot(b, prg, G, owner)), q0, pair.node, |prg.graph[pair.node]|, pair.vector)
  {
    ghost var cs0 := Snapshot(b, prg, G, owner);
    q := q0;
    var from := pair.node;
    var edges := prg.graph[from];
    for k := 0 to |edges|
      invariant SetsReady(b, prg, G, owner) && QueueReady(b, prg, ms.Keys, q)
      invariant (Snapshot(b, prg, G, owner), q) == PropagateFold(b, prg, ms, cs0, q0, from, k, pair.vector)
    {
      var to := edges[k].to;
      assert (from, k) in ms;
      var mats := ms[(from, k)];
      assert EdgeBuilt(b, prg, (from, k), mats);
      assert AllSet(prg, ms.Keys, to) by {
        assert Target(prg, (from, k)) == to;
      }
      MatricesShaped(b, edges[k].ast, prg.vars);
      SetsReadyAt(b, prg, G, owner, to);
      q := OfferAll(b, prg, ms.Keys, G, owner, q, to, mats, pair.vector);
    }
  }

  /** The worklist loop of CreateGeneratorSets: it ends when no generator set grows any more. */
  method Worklist(b: BaseFunctions, prg: Program, ms: map<EdgeId, seq<Matrix>>, G: map<nat, GeneratorSet>,
                  ghost owner: map<object, nat>, q0: seq<QueueItem>)
    returns (q: seq<QueueItem>)
    requires SetsReady(b, prg, G, owner) && QueueReady(b, prg, ms.Keys, q0)
    requires Built(b, prg, ms) && Pending(prg, ms.Keys, {}) && prg.WellFormed()
    modifies owner.Keys
    ensures SetsReady(b, prg, G, owner) && q == []
    ensures Snapshot(b, prg, G, owner) == Iterate(b, prg, ms, old(Snapshot(b, prg, G, owner)), q0)
  {
    ghost var cs0 := Snapshot(b, prg, G, owner);
    q := q0;
    SnapshotRank(b, prg, G, owner);
    while |q| > 0
      invariant SetsReady(b, prg, G, owner) && QueueReady(b, prg, ms.Keys, q)
      invariant RankSum(b, Snapshot(b, prg, G, owner)) >= 0
      invariant Iterate(b, prg, ms, Snapshot(b, prg, G, owner), q) == Iterate(b, prg, ms, cs0, q0)
      decreases RankSum(b, Snapshot(b, prg, G, owner)), |q|
    {
      var pair := q[0];
      q := Propagate(b, prg, ms, G, owner, q[1..], pair);
      SnapshotRank(b, prg, G, owner);
    }
  }

  class InterproceduralAnalyzer {
    const b: BaseFunctions
    var w_queue: seq<QueueItem>
    /** edge.MatrixSet, by edge: the matrices of the edge's TransitionMatrixSet. */
    var MatrixSets: map<EdgeId, seq<Matrix>>
    /** node.GeneratorSet, by node. */
    var G: map<nat, GeneratorSet>
    /** Which node owns each generator set and its array: no two nodes share either. */
    ghost var Owner: map<object, nat>

    constructor (b: BaseFunctions)
      requires b.Valid()
      ensures this.b == b && Fresh()
    {
      this.b := b;
      w_queue := [];
      MatrixSets := map[];
      G := map[];
      Owner := map[];
    }

    /** Nothing built yet. */
    ghost predicate Fresh()
      reads this
    {
      b.Valid() && w_queue == [] && MatrixSets == map[] && G == map[] && Owner == map[]
    }

    /** Every edge's matrix set is the one GetMatrix builds for its statement. */
    ghost predicate MatricesBuilt(prg: Program)
      reads this
    {
      Built(b, prg, MatrixSets)
    }

    /** Main and the target of every set edge have all their edges set: what is reachable from main is set. */
    ghost predicate MatricesClosed(prg: Program)
      reads this
    {
      Pending(prg, MatrixSets.Keys, {})
    }

    /** Every node has its own valid generator set. */
    ghost predicate SetsDone(prg: Program)
      reads this, Owner.Keys
    {
      SetsReady(b, prg, G, Owner)
    }

    /**
     * CreateTransitionMatrixes: a BFS from main that gives every edge it
     * meets, and only while the edge has none, its matrix set, and queues
     * the edge's target.
     */
    method CreateTransitionMatrixes(prg: Program)
      requires Fresh() && prg.WellFormed() && |prg.vars| < b.n
      modifies this
      ensures MatricesBuilt(prg) && MatricesClosed(prg)
      ensures G == old(G) && Owner == old(Owner) && w_queue == old(w_queue)
    {
      MatrixSets := BuildMatrixSets(b, prg);
    }

    /** AddIdentityVectors: queue the n identity rows at node, leaving every generator set alone. */
    method AddIdentityVectors(node: nat)
      requires b.Valid()
      modifies this
      ensures G == old(G) && Owner == old(Owner) && MatrixSets == old(MatrixSets)
      ensures |w_queue| == |old(w_queue)| + b.n && w_queue[..|old(w_queue)|] == old(w_queue)
      ensures forall i :: 0 <= i < b.n ==> w_queue[|old(w_queue)| + i] == QueueItem(node, LeadVector(IdentityMatrix(b.n)[i], i))
    {
      var id := GetIdentity(b.n);
      IdentityFrozen(id);
      var rows := Freeze(id);
      for i := 0 to b.n
        invariant G == old(G) && Owner == old(Owner) && MatrixSets == old(MatrixSets)
        invariant |w_queue| == |old(w_queue)| + i && w_queue[..|old(w_queue)|] == old(w_queue)
        invariant forall i' :: 0 <= i' < i ==> w_queue[|old(w_queue)| + i'] == QueueItem(node, LeadVector(IdentityMatrix(b.n)[i'], i'))
      {
        var lv := NewLeadVector(rows[i]);
        IdentityRowLead(b.n, i);
        w_queue := w_queue + [QueueItem(node, lv)];
      }
    }

    /** CreateEmptyG: every node gets its own new, empty generator set. */
    method CreateEmptyG(prg: Program)
      requires b.Valid() && prg.WellFormed() && G == map[] && Owner == map[]
      modifies this
      ensures SetsDone(prg) && AllEmpty(G, Owner) && this !in Owner && fresh(Owner.Keys)
      ensures MatrixSets == old(MatrixSets) && w_queue == old(w_queue)
    {
      var sets;
      ghost var owner;
      sets, owner := CreateSets(b, prg, this);
      G := sets;
      Owner := owner;
    }

    /**
     * CreateGeneratorSets: empty sets everywhere, the identity rows queued at
     * main, then the worklist: every queued vector v at a node is pushed
     * through every matrix M of every edge out of it, and M * v is queued at
     * the edge's target when it is nonzero and AddVector changed the
     * target's set. Terminates because each change lowers the total rank.
     */
    method CreateGeneratorSets(prg: Program)
      requires MatricesBuilt(prg) && MatricesClosed(prg) && prg.WellFormed()
      requires G == map[] && Owner == map[] && w_queue == []
      modifies this
      ensures SetsDone(prg) && w_queue == [] && MatrixSets == old(MatrixSets)
      ensures (SeedsReady(b, prg, MatrixSets.Keys, prg.main);
               Snapshot(b, prg, G, Owner) == Iterate(b, prg, MatrixSets, EmptySets(|prg.graph|), IdentitySeeds(b, prg.main)))
    {
      CreateEmptyG(prg);
      AddIdentityVectors(prg.main);
      assert w_queue == IdentitySeeds(b, prg.main);
      SeedsReady(b, prg, MatrixSets.Keys, prg.main);
      forall u | 0 <= u < |prg.graph|
        ensures Snapshot(b, prg, G, Owner)[u] == []
      {
        assert SetAt(G, u) in Owner;
      }
      assert Snapshot(b, prg, G, Owner) == EmptySets(|prg.graph|);
      w_queue := Worklist(b, prg, MatrixSets, G, Owner, w_queue);
    }

    /** Analyze: the matrix sets first, then the generator sets. */
    method Analyze(prg: Program)
      requires Fresh() && prg.WellFormed() && |prg.vars| < b.n
      modifies this
      ensures MatricesBuilt(prg) && MatricesClosed(prg)
      ensures SetsDone(prg) && w_queue == []
      ensures (SeedsReady(b, prg, MatrixSets.Keys, prg.main);
               Snapshot(b, prg, G, Owner) == Iterate(b, prg, MatrixSets, EmptySets(|prg.graph|), IdentitySeeds(b, prg.main)))
    {
      CreateTransitionMatrixes(prg);
      CreateGeneratorSets(prg);
    }
  }

  /** The identity rows are nonzero ring vectors. */
  lemma IdentityRowReady(b: BaseFunctions, prg: Program, keys: set<EdgeId>, node: nat, i: nat)
    requires b.Valid() && AllSet(prg, keys, node) && i < b.n
    ensures ItemReady(b, prg, keys, QueueItem(node, LeadVector(IdentityMatrix(b.n)[i], i)))
  {
    IdentityRowLead(b.n, i);
    BoundedIntro(IdentityMatrix(b.n)[i], b.m);
  }
}
