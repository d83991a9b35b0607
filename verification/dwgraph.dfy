/**
 * DWGraph, a directed weighted graph kept as an adjacency list: a map from
 * each vertex to the ordered list of its outgoing edges. Every method follows
 * the loops of the original and is proved against the value-level functions
 * of module Adjacency (and Division for divideGraph).
 */
module DWGraphs {
  import opened Adjacency
  import opened Division

  class DWGraph<V(==)> {
    /** `adjacencyList`: every vertex mapped to its outgoing edges. */
    var adj: AdjMap<V>

    /** The invariant: edge targets are vertices, weights are non-negative, one edge per pair. */
    ghost predicate Valid()
      reads this
    {
      WellFormed(adj)
    }

    constructor ()
      ensures Valid() && adj == map[]
    {
      adj := map[];
    }

    /** createVertex: adds `v` with no edges unless it is already a vertex. */
    method CreateVertex(v: V) returns (added: bool)
      requires Valid()
      modifies this
      ensures Valid()
      ensures added == (v !in old(adj))
      ensures adj == WithVertex(old(adj), v)
      ensures adj.Keys == old(adj).Keys + {v}
      ensures added ==> adj[v] == []
      ensures forall u | u in old(adj) :: adj[u] == old(adj)[u]
    {
      var present := IsVertex(v);
      added := !present;
      if added {
        adj := adj[v := []];
      }
      WithVertexEffect(old(adj), v);
    }

    /** isVertex: membership among the keys. */
    method IsVertex(v: V) returns (b: bool)
      ensures b == (v in adj)
    {
      b := v in adj;
    }

    /** getVertices: the key set (as a snapshot). */
    method GetVertices() returns (vs: set<V>)
      ensures forall v :: v in vs <==> v in adj
    {
      vs := adj.Keys;
    }

    /** isEdge: scans the source's list for an edge to `t`. */
    method IsEdge(s: V, t: V) returns (b: bool)
      requires s in adj
      ensures b == HasTarget(adj[s], t)
    {
      var es := adj[s];
      var i := 0;
      while i < |es|
        invariant 0 <= i <= |es|
        invariant forall k | 0 <= k < i :: es[k].target != t
      {
        if es[i].target == t {
          return true;
        }
        i := i + 1;
      }
      return false;
    }

    /**
     * createEdge: a negative weight is rejected without any change; otherwise
     * missing endpoints are created (then the method calls itself once) and
     * the edge is overwritten in place or appended.
     */
    method CreateEdge(s: V, t: V, w: int) returns (ok: bool)
      requires Valid()
      modifies this
      decreases if s in adj && t in adj then 0 else 1
      ensures Valid()
      ensures ok == (w >= 0)
      ensures adj == WithEdge(old(adj), s, t, w)
      ensures !ok ==> adj == old(adj)
      ensures ok ==> adj.Keys == old(adj).Keys + {s, t} && Cost(adj, s, t) == w
    {
      if w >= 0 {
        var sourcePresent := IsVertex(s);
        var targetPresent := IsVertex(t);
        if sourcePresent && targetPresent {
          var present := IsEdge(s, t);
          var es := adj[s];
          if present {
            // The scan keeps the last edge to `t`; that edge is reweighted in place.
            var k := 0;
            var i := 0;
            while i < |es|
              invariant 0 <= i <= |es| && 0 <= k < |es|
              invariant (exists m :: 0 <= m < i && es[m].target == t) ==> es[k].target == t
              invariant forall m | k < m < i :: es[m].target != t
            {
              if es[i].target == t {
                k := i;
              }
              i := i + 1;
            }
            UpsertAt(es, t, w, k);
            adj := adj[s := es[k := Edge(w, t)]];
          } else {
            adj := adj[s := es + [Edge(w, t)]];
          }
        } else {
          var _ := CreateVertex(s);
          var _ := CreateVertex(t);
          var _ := CreateEdge(s, t, w);
        }
        ok := true;
        WithEdgeEffect(old(adj), s, t, w);
      } else {
        ok := false;
      }
    }

    /** edgeCost: the weight of s -> t, or -1 when `s` is missing or has no edge to `t`. */
    method EdgeCost(s: V, t: V) returns (c: int)
      requires Valid()
      ensures c == Cost(adj, s, t)
      ensures c == -1 <==> !(s in adj && HasTarget(adj[s], t))
      ensures s in adj ==> forall k | 0 <= k < |adj[s]| && adj[s][k].target == t :: c == adj[s][k].weight
    {
      c := -1;
      var sourcePresent := IsVertex(s);
      if sourcePresent {
        var present := IsEdge(s, t);
        if present {
          var es := adj[s];
          var i := 0;
          while i < |es|
            invariant 0 <= i <= |es|
            invariant c == CostIn(es[..i], t)
          {
            assert es[..i + 1][..i] == es[..i];
            if es[i].target == t {
              c := es[i].weight;
            }
            i := i + 1;
          }
          assert es[..|es|] == es;
        }
      }
      CostMeaning(adj, s, t);
    }

    /**
     * removeEdge: when `s` is a vertex with an edge to `t`, the index loop
     * removes matching edges from `s`'s list (skipping the element after each
     * removal); otherwise nothing changes.
     */
    method RemoveEdge(s: V, t: V) returns (removed: bool)
      modifies this
      ensures removed == (s in old(adj) && HasTarget(old(adj)[s], t))
      ensures adj == WithoutEdge(old(adj), s, t)
      ensures adj.Keys == old(adj).Keys
      ensures forall u | u in old(adj) && u != s :: adj[u] == old(adj)[u]
      ensures old(Valid()) ==> Valid()
      ensures old(Valid()) && s in old(adj) ==> adj[s] == Drop(old(adj)[s], {t}) && !HasTarget(adj[s], t)
    {
      ghost var wasValid := Valid();
      removed := false;
      var sourcePresent := IsVertex(s);
      if sourcePresent {
        var present := IsEdge(s, t);
        if present {
          // `edges` is the source's list; each removal is stored back at once.
          var edges := adj[s];
          ghost var es0 := edges;
          ghost var j := 0;
          var i := 0;
          while i < |edges|
            invariant adj == old(adj)[s := edges]
            invariant SkimAt(es0, edges, i, j, t)
            decreases |edges| + 1 - i
          {
            SkimAtStep(es0, edges, i, j, t);
            if edges[i].target == t {
              edges := edges[..i] + edges[i + 1..];
              adj := adj[s := edges];
              j := j + 2;
            } else {
              j := j + 1;
            }
            i := i + 1;
          }
          SkimAtEnd(es0, edges, i, j, t);
          removed := true;
        }
      }
      if wasValid {
        WithoutEdgeEffect(old(adj), s, t);
      }
    }

    /**
     * removeVertex: deletes `v` as a key, then walks every remaining vertex's
     * list and calls RemoveEdge for each edge into `v`.
     */
    method RemoveVertex(v: V) returns (removed: bool)
      requires Valid()
      modifies this
      ensures Valid()
      ensures removed == (v in old(adj))
      ensures adj == WithoutVertex(old(adj), v)
      ensures adj.Keys == old(adj).Keys - {v}
      ensures forall u | u in adj :: adj[u] == Drop(old(adj)[u], {v})
      ensures forall u | u in adj :: !HasTarget(adj[u], v)
      ensures forall u, e | u in adj && e in old(adj)[u] && e.target != v :: e in adj[u]
    {
      var present := IsVertex(v);
      if present {
        adj := adj - {v};
        ghost var a0 := adj;
        var todo := adj.Keys;
        while todo != {}
          invariant todo <= a0.Keys
          invariant adj == Cleaned(a0, todo, v)
          decreases todo
        {
          var u :| u in todo;
          DropEdgesTo(u, v);
          MapsEqual(adj, Cleaned(a0, todo - {u}, v));
          todo := todo - {u};
        }
        removed := true;
        MapsEqual(adj, Restrict(old(adj), {v}));
      } else {
        removed := false;
      }
      WithoutVertexEffect(old(adj), v);
    }

    /**
     * The inner loop of removeVertex for vertex `u`: RemoveEdge(u, v) is
     * called for each edge of `u` found pointing to `v`; with one edge per target this
     * removes exactly that edge.
     */
    method DropEdgesTo(u: V, v: V)
      requires u in adj && UniqueTargets(adj[u])
      modifies this
      ensures adj == old(adj)[u := Drop(old(adj)[u], {v})]
    {
      ghost var es0 := adj[u];
      var i := 0;
      while i < |adj[u]|
        invariant u in adj && adj == old(adj)[u := adj[u]]
        invariant
          || (adj[u] == es0 && i <= |adj[u]| && forall k | 0 <= k < i :: adj[u][k].target != v)
          || (adj[u] == Drop(es0, {v}) && forall k | 0 <= k < |adj[u]| :: adj[u][k].target != v)
        decreases |adj[u]| + 1 - i
      {
        if adj[u][i].target == v {
          SkimIsDrop(es0, v);
          var _ := RemoveEdge(u, v);
          assert forall k | 0 <= k < |adj[u]| :: adj[u][k] in Drop(es0, {v});
        }
        i := i + 1;
      }
      if adj[u] != Drop(es0, {v}) {
        DropNothing(es0, {v});
      }
    }

    /** adjacentVertices: None for a missing vertex, otherwise its edge targets in list order. */
    method AdjacentVertices(v: V) returns (r: Option<seq<V>>)
      ensures r.None? <==> v !in adj
      ensures r.Some? ==> r.value == Targets(adj[v])
    {
      r := None;
      var present := IsVertex(v);
      if present {
        var succ: seq<V> := [];
        var es := adj[v];
        var i := 0;
        while i < |es|
          invariant 0 <= i <= |es| && |succ| == i
          invariant forall k | 0 <= k < i :: succ[k] == es[k].target
        {
          succ := succ + [es[i].target];
          i := i + 1;
        }
        r := Some(succ);
      }
    }

    /**
     * predecessorsOfVertex: None when no edge points to `t`, otherwise one
     * entry per edge u -> t, in the (unspecified) key iteration order.
     */
    method PredecessorsOfVertex(t: V) returns (r: Option<seq<V>>)
      requires Valid()
      ensures r.None? <==> forall u | u in adj :: !HasTarget(adj[u], t)
      ensures r.Some? ==> forall u :: multiset(r.value)[u] == PredCount(adj, u, t)
      ensures r.Some? ==> forall u :: multiset(r.value)[u] == if u in adj && HasTarget(adj[u], t) then 1 else 0
    {
      var found := false;
      var todo := adj.Keys;
      while todo != {}
        invariant todo <= adj.Keys
        invariant found <==> exists u | u in adj && u !in todo :: HasTarget(adj[u], t)
        decreases todo
      {
        var u :| u in todo;
        var b := IsEdge(u, t);
        if b {
          found := true;
        }
        todo := todo - {u};
      }
      r := None;
      if found {
        var preds: seq<V> := [];
        todo := adj.Keys;
        while todo != {}
          invariant todo <= adj.Keys
          invariant forall x :: multiset(preds)[x] == if x in adj && x !in todo then CountTo(adj[x], t) else 0
          decreases todo
        {
          var u :| u in todo;
          preds := AddPredecessor(preds, u, t);
          todo := todo - {u};
        }
        r := Some(preds);
        forall u ensures PredCount(adj, u, t) == if u in adj && HasTarget(adj[u], t) then 1 else 0 {
          PredecessorOnce(adj, u, t);
        }
      }
    }

    /**
     * The inner loop of predecessorsOfVertex: `u` is appended once for every
     * edge of `u` that points to `t`.
     */
    method AddPredecessor(preds: seq<V>, u: V, t: V) returns (preds': seq<V>)
      requires u in adj
      ensures multiset(preds') == multiset(preds)[u := multiset(preds)[u] + CountTo(adj[u], t)]
    {
      preds' := preds;
      var es := adj[u];
      var j := 0;
      while j < |es|
        invariant 0 <= j <= |es|
        invariant multiset(preds') == multiset(preds)[u := multiset(preds)[u] + CountTo(es[..j], t)]
      {
        assert es[..j + 1][..j] == es[..j];
        assert CountTo(es[..j + 1], t) == CountTo(es[..j], t) + if es[j].target == t then 1 else 0;
        if es[j].target == t {
          assert multiset(preds' + [u]) == multiset(preds') + multiset{u};
          preds' := preds' + [u];
        }
        j := j + 1;
      }
      assert es[..|es|] == es;
    }

    /**
     * The inner loop of divideGraph for member `v`: every edge of `v` into
     * `S` is created in `ret`, in list order, and counted (`tempCounter`).
     */
    method CopyInternalEdges(ret: DWGraph<V>, v: V, S: seq<V>) returns (counter: nat)
      requires Valid() && ret.Valid() && ret != this && v in adj
      modifies ret
      ensures ret.Valid()
      ensures ret.adj == CopyInternal(old(ret.adj), v, adj[v], S)
      ensures counter == InternalCount(adj[v], S)
    {
      counter := 0;
      var es := adj[v];
      var j := 0;
      while j < |es|
        invariant 0 <= j <= |es|
        invariant ret.Valid() && ret.adj == CopyInternal(old(ret.adj), v, es[..j], S)
        invariant counter == InternalCount(es[..j], S)
      {
        assert es[..j + 1][..j] == es[..j];
        var e := es[j];
        if e.target in S {
          counter := counter + 1;
          assert e in adj[v];
          var _ := ret.CreateEdge(v, e.target, e.weight);
        }
        j := j + 1;
      }
      assert es[..|es|] == es;
    }

    /**
     * One pass of divideGraph's first loop, for member `v`: `v` is created in
     * `ret` with its edges into `S`; it is removed from `ret` again when it has
     * none, and otherwise reported as moved (added to `vertsToRem`).
     */
    method DivideMember(ret: DWGraph<V>, v: V, S: seq<V>) returns (moved: bool)
      requires Valid() && ret.Valid() && ret != this
      modifies ret
      ensures ret.Valid()
      ensures ret.adj == DivideStep(adj, old(ret.adj), v, S)
      ensures moved == Moves(adj, v, S)
    {
      var counter := 0;
      var present := IsVertex(v);
      if present {
        var _ := ret.CreateVertex(v);
        counter := CopyInternalEdges(ret, v, S);
      }
      if counter == 0 {
        var _ := ret.RemoveVertex(v);
      }
      moved := counter != 0;
    }

    /** The second loop of divideGraph: removeVertex of each listed vertex, in order. */
    method RemoveVertices(vs: seq<V>)
      requires Valid()
      modifies this
      ensures Valid()
      ensures adj == WithoutVertices(old(adj), vs)
    {
      var k := 0;
      while k < |vs|
        invariant 0 <= k <= |vs|
        invariant Valid() && adj == WithoutVertices(old(adj), vs[..k])
      {
        assert vs[..k + 1][..k] == vs[..k];
        var _ := RemoveVertex(vs[k]);
        k := k + 1;
      }
      assert vs[..|vs|] == vs;
    }

    /**
     * divideGraph: builds a new graph from the subset `S` (walked in order)
     * and removes from this graph the members that had an edge into `S`.
     */
    method DivideGraph(S: seq<V>) returns (ret: DWGraph<V>)
      requires Valid()
      modifies this
      ensures fresh(ret) && Valid() && ret.Valid()
      ensures ret.adj == NewGraph(old(adj), S, S)
      ensures adj == WithoutVertices(old(adj), MovedList(old(adj), S, S))
      ensures forall v :: v in MovedSet(old(adj), S) <==>
        v in S && v in old(adj) && exists i :: 0 <= i < |old(adj)[v]| && old(adj)[v][i].target in S
      ensures adj.Keys == old(adj).Keys - MovedSet(old(adj), S)
      ensures forall u | u in adj :: adj[u] == Drop(old(adj)[u], MovedSet(old(adj), S))
      ensures forall u | u in old(adj) && u !in S :: u in adj
      ensures forall u | u in ret.adj ::
        && u in S && u in old(adj)
        && forall e | e in ret.adj[u] :: e.target in S && e in old(adj)[u]
      ensures MovedSet(old(adj), S) <= ret.adj.Keys
    {
      ret := new DWGraph<V>();
      var toRemove: seq<V> := [];
      var i := 0;
      while i < |S|
        invariant 0 <= i <= |S|
        invariant fresh(ret) && adj == old(adj)
        invariant ret.Valid() && ret.adj == NewGraph(adj, S, S[..i])
        invariant toRemove == MovedList(adj, S, S[..i])
      {
        assert S[..i + 1][..i] == S[..i];
        var moved := DivideMember(ret, S[i], S);
        if moved {
          toRemove := toRemove + [S[i]];
        }
        i := i + 1;
      }
      assert S[..|S|] == S;
      RemoveVertices(toRemove);
      DivideOriginal(old(adj), S);
      DivideNewGraph(old(adj), S);
    }
  }
}
