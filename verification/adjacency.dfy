/**
 * Value-level model of the adjacency list behind DWGraph: each vertex is a
 * key mapped to its ordered list of outgoing edges. The functions here are the
 * specifications the methods of class DWGraph are proved against.
 */
module Adjacency {

  datatype Option<T> = None | Some(value: T)

  /** An outgoing edge: its weight and the vertex it points to (`nextVertex`). */
  datatype Edge<V> = Edge(weight: int, target: V)

  /** The adjacency list: every vertex mapped to its outgoing edges, in order. */
  type AdjMap<V> = map<V, seq<Edge<V>>>

  /** Some edge of `es` points to `t` (the private `isEdge` scan). */
  ghost predicate HasTarget<V>(es: seq<Edge<V>>, t: V)
  {
    exists i :: 0 <= i < |es| && es[i].target == t
  }

  /** No two edges of `es` point to the same vertex. */
  ghost predicate UniqueTargets<V>(es: seq<Edge<V>>)
  {
    forall i, j :: 0 <= i < j < |es| ==> es[i].target != es[j].target
  }

  /**
   * The invariant the graph keeps: every edge target is a vertex, no weight
   * is negative, and there is at most one edge per (source, target).
   */
  ghost predicate WellFormed<V>(g: AdjMap<V>)
  {
    forall u | u in g ::
      && UniqueTargets(g[u])
      && forall e | e in g[u] :: e.weight >= 0 && e.target in g
  }

  /** The targets of `es`, in list order (adjacentVertices). */
  ghost function Targets<V>(es: seq<Edge<V>>): (ts: seq<V>)
    ensures forall t | t in ts :: HasTarget(es, t)
    ensures forall i | 0 <= i < |es| :: es[i].target in ts
  {
    var ts := seq(|es|, i requires 0 <= i < |es| => es[i].target);
    assert forall i | 0 <= i < |es| :: ts[i] == es[i].target;
    ts
  }

  /** The edges of `es` whose target is not in `X`, in their original order. */
  ghost function Drop<V>(es: seq<Edge<V>>, X: set<V>): (r: seq<Edge<V>>)
    ensures |r| <= |es|
    ensures forall e | e in r :: e in es && e.target !in X
    ensures forall e | e in es && e.target !in X :: e in r
  {
    if es == [] then []
    else (if es[0].target in X then [] else [es[0]]) + Drop(es[1..], X)
  }

  /**
   * The list left by removeEdge's index loop: a matching edge is removed and,
   * because the index still advances, the edge that slid into its place is
   * kept without being looked at.
   */
  ghost function Skim<V>(es: seq<Edge<V>>, t: V): seq<Edge<V>>
  {
    if es == [] then []
    else if es[0].target == t then (if |es| == 1 then [] else [es[1]] + Skim(es[2..], t))
    else [es[0]] + Skim(es[1..], t)
  }

  /** `es` with the weight of every edge to `t` set to `w`. */
  ghost function Reweigh<V>(es: seq<Edge<V>>, t: V, w: int): (r: seq<Edge<V>>)
    ensures |r| == |es|
    ensures UniqueTargets(es) ==> forall k | 0 <= k < |es| && es[k].target == t :: r == es[k := Edge(w, t)]
  {
    seq(|es|, i requires 0 <= i < |es| => if es[i].target == t then Edge(w, t) else es[i])
  }

  /** Insert-or-overwrite of the edge to `t` in a source's list. */
  ghost function Upsert<V>(es: seq<Edge<V>>, t: V, w: int): seq<Edge<V>>
  {
    if HasTarget(es, t) then Reweigh(es, t, w) else es + [Edge(w, t)]
  }

  /** The weight of the last edge of `es` to `t`, or -1 when there is none. */
  ghost function CostIn<V>(es: seq<Edge<V>>, t: V): (c: int)
    ensures (forall e | e in es :: e.weight >= 0) ==> (c == -1 <==> !HasTarget(es, t))
    ensures UniqueTargets(es) ==> forall k | 0 <= k < |es| && es[k].target == t :: c == es[k].weight
  {
    if es == [] then -1
    else if es[|es| - 1].target == t then es[|es| - 1].weight
    else
      assert forall e | e in es[..|es| - 1] :: e in es;
      CostIn(es[..|es| - 1], t)
  }

  /** The number of edges of `es` that point to `t`. */
  ghost function CountTo<V>(es: seq<Edge<V>>, t: V): (n: nat)
    ensures n > 0 <==> HasTarget(es, t)
    ensures UniqueTargets(es) ==> n <= 1
  {
    if es == [] then 0
    else CountTo(es[..|es| - 1], t) + (if es[|es| - 1].target == t then 1 else 0)
  }

  /** edgeCost: the stored weight of s -> t, or -1. */
  ghost function Cost<V>(g: AdjMap<V>, s: V, t: V): int
  {
    if s in g then CostIn(g[s], t) else -1
  }

  /** How many times `u` is listed among the predecessors of `t`. */
  ghost function PredCount<V>(g: AdjMap<V>, u: V, t: V): nat
  {
    if u in g then CountTo(g[u], t) else 0
  }

  /** createVertex: `v` becomes a key with an empty list unless it already is one. */
  ghost function WithVertex<V>(g: AdjMap<V>, v: V): AdjMap<V>
  {
    if v in g then g else g[v := []]
  }

  /** createEdge: rejected for a negative weight; otherwise both endpoints exist and the edge is upserted. */
  ghost function WithEdge<V>(g: AdjMap<V>, s: V, t: V, w: int): AdjMap<V>
  {
    if w < 0 then g
    else
      var g1 := WithVertex(WithVertex(g, s), t);
      g1[s := Upsert(g1[s], t, w)]
  }

  /** removeEdge as written: only a present source with an edge to `t` is touched. */
  ghost function WithoutEdge<V>(g: AdjMap<V>, s: V, t: V): AdjMap<V>
  {
    if s in g && HasTarget(g[s], t) then g[s := Skim(g[s], t)] else g
  }

  /** The vertices of `X` removed, together with every edge pointing into `X`. */
  ghost function Restrict<V>(g: AdjMap<V>, X: set<V>): (r: AdjMap<V>)
    ensures r.Keys == g.Keys - X
    ensures forall u, e | u in r && e in r[u] :: e.target !in X && e in g[u]
    ensures forall u, e | u in r && e in g[u] && e.target !in X :: e in r[u]
  {
    map u | u in g && u !in X :: Drop(g[u], X)
  }

  /** Partway through removeVertex: the lists of the vertices not in `todo` have lost their edges to `v`. */
  ghost function Cleaned<V>(g: AdjMap<V>, todo: set<V>, v: V): (r: AdjMap<V>)
    ensures forall u, e | u in r && u !in todo && e in r[u] :: e.target != v
  {
    map u | u in g :: if u in todo then g[u] else Drop(g[u], {v})
  }

  /** removeVertex: the vertex and all edges to it are removed. */
  ghost function WithoutVertex<V>(g: AdjMap<V>, v: V): AdjMap<V>
  {
    if v in g then Restrict(g, {v}) else g
  }

  // ---------------------------------------------------------------------------
  // Lemmas about edge lists
  // ---------------------------------------------------------------------------

  /** Map extensionality, spelled out for the solver. */
  lemma MapsEqual<K, W>(a: map<K, W>, b: map<K, W>)
    requires a.Keys == b.Keys
    requires forall k | k in a :: a[k] == b[k]
    ensures a == b
  {
  }

  /** One unfolding of Skim at position `j`. */
  lemma SkimFrom<V>(es: seq<Edge<V>>, j: int, t: V)
    requires 0 <= j < |es|
    ensures Skim(es[j..], t) ==
      if es[j].target != t then [es[j]] + Skim(es[j + 1..], t)
      else if j + 1 == |es| then []
      else [es[j + 1]] + Skim(es[j + 2..], t)
  {
    assert es[j..][0] == es[j];
    assert es[j..][1..] == es[j + 1..];
    if j + 1 < |es| {
      assert es[j..][1] == es[j + 1];
      assert es[j..][2..] == es[j + 2..];
    }
  }

  lemma {:induction false} DropNothing<V>(es: seq<Edge<V>>, X: set<V>)
    requires forall e | e in es :: e.target !in X
    ensures Drop(es, X) == es
  {
    if es != [] {
      assert es[0] in es;
      DropNothing(es[1..], X);
      assert es == [es[0]] + es[1..];
    }
  }

  /** Dropping targets in two steps is dropping their union. */
  lemma {:induction false} DropDrop<V>(es: seq<Edge<V>>, X: set<V>, Y: set<V>)
    ensures Drop(Drop(es, X), Y) == Drop(es, X + Y)
  {
    if es != [] {
      DropDrop(es[1..], X, Y);
      var a := es[0];
      if a.target in X {
        assert Drop(es, X) == Drop(es[1..], X);
        assert Drop(es, X + Y) == Drop(es[1..], X + Y);
      } else {
        var d := Drop(es, X);
        assert d == [a] + Drop(es[1..], X);
        assert d[0] == a && d[1..] == Drop(es[1..], X);
        assert Drop(d, Y) == (if a.target in Y then [] else [a]) + Drop(d[1..], Y);
        assert Drop(es, X + Y) == (if a.target in Y then [] else [a]) + Drop(es[1..], X + Y);
      }
    }
  }

  /** Dropping a target no edge points to changes nothing. */
  lemma {:induction false} DropIrrelevant<V>(es: seq<Edge<V>>, X: set<V>, v: V)
    requires forall e | e in es :: e.target != v
    ensures Drop(es, X + {v}) == Drop(es, X)
  {
    if es != [] {
      assert es[0] in es;
      DropIrrelevant(es[1..], X, v);
    }
  }

  lemma {:induction false} DropUnique<V>(es: seq<Edge<V>>, X: set<V>)
    requires UniqueTargets(es)
    ensures UniqueTargets(Drop(es, X))
  {
    if es != [] {
      DropUnique(es[1..], X);
      var r := Drop(es[1..], X);
      forall e | e in r ensures e.target != es[0].target {
        var j :| 0 <= j < |es[1..]| && es[1..][j] == e;
        assert es[j + 1] == e;
      }
    }
  }

  /**
   * The loop of removeEdge at index `i` of the current list `L`, which agrees
   * from `i` on with the original list `es0` from `j` on: removing a matching
   * edge at `i` (or passing a non-matching one) keeps the bookkeeping that
   * ties the list to Skim(es0, t).
   */
  ghost predicate SkimAt<V>(es0: seq<Edge<V>>, L: seq<Edge<V>>, i: int, j: int, t: V)
  {
    && 0 <= i <= |L| + 1
    && (i <= |L| ==> 0 <= j <= |es0| && L[i..] == es0[j..] && Skim(es0, t) == L[..i] + Skim(es0[j..], t))
    && (i == |L| + 1 ==> Skim(es0, t) == L)
  }

  lemma SkimAtStep<V>(es0: seq<Edge<V>>, L: seq<Edge<V>>, i: int, j: int, t: V)
    requires SkimAt(es0, L, i, j, t) && i < |L|
    ensures L[i].target == t ==> SkimAt(es0, L[..i] + L[i + 1..], i + 1, j + 2, t)
    ensures L[i].target != t ==> SkimAt(es0, L, i + 1, j + 1, t)
  {
    assert es0[j] == L[i];
    SkimFrom(es0, j, t);
    var L' := L[..i] + L[i + 1..];
    if L[i].target == t {
      if i + 1 < |L| {
        assert es0[j + 1] == L[i + 1];
        assert L'[..i + 1] == L[..i] + [L[i + 1]];
        assert L'[i + 1..] == L[i + 2..];
      } else {
        assert L' == L[..i];
      }
    } else {
      assert L[..i + 1] == L[..i] + [L[i]];
    }
  }

  /** When the loop of removeEdge stops, the list is Skim of the original. */
  lemma SkimAtEnd<V>(es0: seq<Edge<V>>, L: seq<Edge<V>>, i: int, j: int, t: V)
    requires SkimAt(es0, L, i, j, t) && i >= |L|
    ensures L == Skim(es0, t)
  {
    if i == |L| {
      assert L[..i] == L && es0[j..] == [];
    }
  }

  /** With one edge per target, the skipping removal loop removes exactly the edges to `t`. */
  lemma {:induction false} SkimIsDrop<V>(es: seq<Edge<V>>, t: V)
    requires UniqueTargets(es)
    ensures Skim(es, t) == Drop(es, {t})
  {
    if es != [] {
      if es[0].target == t {
        if |es| > 1 {
          assert es[1].target != t;
          assert es[1..][1..] == es[2..];
          SkimIsDrop(es[2..], t);
        }
      } else {
        SkimIsDrop(es[1..], t);
      }
    }
  }

  /** With one edge per target, the overwrite touches exactly the one edge to `t`, in place. */
  lemma UpsertAt<V>(es: seq<Edge<V>>, t: V, w: int, k: int)
    requires UniqueTargets(es) && 0 <= k < |es| && es[k].target == t
    ensures Upsert(es, t, w) == es[k := Edge(w, t)]
  {
    assert HasTarget(es, t);
    var r := Reweigh(es, t, w);
    forall i | 0 <= i < |es| ensures r[i] == es[k := Edge(w, t)][i] {
      if i != k {
        assert es[i].target != t by {
          if i < k { assert es[i].target != es[k].target; }
          else { assert es[k].target != es[i].target; }
        }
      }
    }
  }

  // ---------------------------------------------------------------------------
  // Lemmas about the graph operations
  // ---------------------------------------------------------------------------

  /** createVertex keeps the invariant and changes no existing entry. */
  lemma WithVertexEffect<V>(g: AdjMap<V>, v: V)
    requires WellFormed(g)
    ensures var g' := WithVertex(g, v);
      && WellFormed(g')
      && g'.Keys == g.Keys + {v}
      && (forall u | u in g :: g'[u] == g[u])
      && (v !in g ==> g'[v] == [])
  {
  }

  /** Overwriting the one edge to `t` keeps one edge per target and brings in no other edge. */
  lemma OverwriteEffect<V>(es: seq<Edge<V>>, t: V, w: int, k: int)
    requires UniqueTargets(es) && 0 <= k < |es| && es[k].target == t
    ensures var r := es[k := Edge(w, t)];
      && UniqueTargets(r)
      && CostIn(r, t) == w
      && forall e | e in r :: e == Edge(w, t) || e in es
  {
    var r := es[k := Edge(w, t)];
    assert UniqueTargets(r) by {
      forall i, j | 0 <= i < j < |r| ensures r[i].target != r[j].target {
        assert r[i].target == es[i].target && r[j].target == es[j].target;
      }
    }
    forall e | e in r ensures e == Edge(w, t) || e in es {
      var i :| 0 <= i < |r| && r[i] == e;
      if i != k { assert e == es[i]; }
    }
    assert r[k].target == t;
  }

  /** Appending an edge to a target the list does not reach keeps one edge per target. */
  lemma AppendEffect<V>(es: seq<Edge<V>>, t: V, w: int)
    requires UniqueTargets(es) && !HasTarget(es, t)
    ensures UniqueTargets(es + [Edge(w, t)]) && CostIn(es + [Edge(w, t)], t) == w
  {
    var r := es + [Edge(w, t)];
    assert UniqueTargets(r) by {
      forall i, j | 0 <= i < j < |r| ensures r[i].target != r[j].target {
        if j == |es| { assert r[i] == es[i]; }
      }
    }
    assert r[..|r| - 1] == es;
  }

  /**
   * The insert-or-overwrite on one list: the edge to `t` ends with weight `w`,
   * in place when it existed and appended otherwise; targets stay unique.
   */
  lemma UpsertEffect<V>(es: seq<Edge<V>>, t: V, w: int)
    requires UniqueTargets(es)
    ensures var r := Upsert(es, t, w);
      && UniqueTargets(r)
      && CostIn(r, t) == w
      && (forall e | e in r :: e == Edge(w, t) || e in es)
      && (HasTarget(es, t) ==>
            |r| == |es| && forall k | 0 <= k < |es| && es[k].target == t :: r == es[k := Edge(w, t)])
      && (!HasTarget(es, t) ==> r == es + [Edge(w, t)])
  {
    if HasTarget(es, t) {
      var k :| 0 <= k < |es| && es[k].target == t;
      UpsertAt(es, t, w, k);
      OverwriteEffect(es, t, w, k);
      forall k' | 0 <= k' < |es| && es[k'].target == t ensures k' == k {
      }
    } else {
      AppendEffect(es, t, w);
    }
  }

  /**
   * createEdge with a non-negative weight: both endpoints become vertices, the
   * cost of s -> t becomes `w`, an existing s -> t edge is overwritten at its
   * index and otherwise one edge is appended; nothing else changes and the
   * invariant is kept.
   */
  lemma WithEdgeEffect<V>(g: AdjMap<V>, s: V, t: V, w: int)
    requires WellFormed(g) && w >= 0
    ensures var g' := WithEdge(g, s, t, w);
      && WellFormed(g')
      && g'.Keys == g.Keys + {s, t}
      && Cost(g', s, t) == w
      && (forall u | u in g && u != s :: g'[u] == g[u])
      && (t !in g && t != s ==> g'[t] == [])
      && (forall e | e in g'[s] :: e == Edge(w, t) || (s in g && e in g[s]))
      && (s in g && HasTarget(g[s], t) ==>
            |g'[s]| == |g[s]| &&
            forall k | 0 <= k < |g[s]| && g[s][k].target == t :: g'[s] == g[s][k := Edge(w, t)])
      && (!(s in g && HasTarget(g[s], t)) ==>
            g'[s] == (if s in g then g[s] else []) + [Edge(w, t)])
  {
    var g1 := WithVertex(WithVertex(g, s), t);
    WithVertexEffect(g, s);
    WithVertexEffect(WithVertex(g, s), t);
    var es := g1[s];
    assert es == if s in g then g[s] else [];
    UpsertEffect(es, t, w);
    var g' := WithEdge(g, s, t, w);
    assert g' == g1[s := Upsert(es, t, w)];
    forall u | u in g' ensures UniqueTargets(g'[u]) && forall e: Edge<V> | e in g'[u] :: e.weight >= 0 && e.target in g' {
      if u != s {
        assert g'[u] == g1[u];
      }
    }
  }

  /** edgeCost: -1 exactly when there is no s -> t edge, otherwise that edge's weight. */
  lemma CostMeaning<V>(g: AdjMap<V>, s: V, t: V)
    requires WellFormed(g)
    ensures Cost(g, s, t) == -1 <==> !(s in g && HasTarget(g[s], t))
    ensures s in g ==> forall k | 0 <= k < |g[s]| && g[s][k].target == t :: Cost(g, s, t) == g[s][k].weight
  {
  }

  /**
   * removeEdge on a well-formed graph: the source (if present) loses exactly
   * its edge to `t`, everything else is unchanged, the invariant is kept.
   */
  lemma WithoutEdgeEffect<V>(g: AdjMap<V>, s: V, t: V)
    requires WellFormed(g)
    ensures var g' := WithoutEdge(g, s, t);
      && WellFormed(g')
      && g'.Keys == g.Keys
      && (s in g ==> g'[s] == Drop(g[s], {t}) && !HasTarget(g'[s], t))
      && (forall u | u in g && u != s :: g'[u] == g[u])
  {
    if s in g {
      if HasTarget(g[s], t) {
        SkimIsDrop(g[s], t);
        DropUnique(g[s], {t});
      } else {
        DropNothing(g[s], {t});
      }
      var d := Drop(g[s], {t});
      forall i | 0 <= i < |d| ensures d[i].target != t {
        assert d[i] in d;
      }
    }
  }

  /** Removing vertices (with their incoming edges) keeps the invariant. */
  lemma RestrictWellFormed<V>(g: AdjMap<V>, X: set<V>)
    requires WellFormed(g)
    ensures WellFormed(Restrict(g, X))
  {
    forall u | u in Restrict(g, X) ensures UniqueTargets(Drop(g[u], X)) {
      DropUnique(g[u], X);
    }
  }

  /**
   * removeVertex on a well-formed graph: `v` is no longer a key, every other
   * vertex keeps exactly its edges not pointing to `v`, in order, and the
   * invariant is kept. An absent `v` changes nothing.
   */
  lemma WithoutVertexEffect<V>(g: AdjMap<V>, v: V)
    requires WellFormed(g)
    ensures var g' := WithoutVertex(g, v);
      && WellFormed(g')
      && g'.Keys == g.Keys - {v}
      && (forall u | u in g' :: g'[u] == Drop(g[u], {v}))
      && (v !in g ==> g' == g)
  {
    RestrictWellFormed(g, {v});
    if v !in g {
      forall u | u in g ensures Drop(g[u], {v}) == g[u] {
        DropNothing(g[u], {v});
      }
    }
  }

  /** With one edge per target, every predecessor of `t` is listed exactly once. */
  lemma PredecessorOnce<V>(g: AdjMap<V>, u: V, t: V)
    requires WellFormed(g)
    ensures PredCount(g, u, t) == if u in g && HasTarget(g[u], t) then 1 else 0
  {
  }

  /** t is among the successors of u iff u is among the predecessors of t. */
  lemma SuccessorIffPredecessor<V>(g: AdjMap<V>, u: V, t: V)
    requires WellFormed(g)
    ensures (u in g && t in Targets(g[u])) <==> PredCount(g, u, t) > 0
  {
  }
}
