/**
 * The divideGraph operation, described exactly as its loops run: the
 * subset is walked in order, the new graph is built with createVertex,
 * createEdge and removeVertex calls, and the vertices to take out of the
 * original are collected and removed only after the walk.
 */
module Division {
  import opened Adjacency

  /** `tempCounter`: how many edges of `es` point into the subset `S`. */
  ghost function InternalCount<V>(es: seq<Edge<V>>, S: seq<V>): (n: nat)
    ensures n > 0 <==> exists i :: 0 <= i < |es| && es[i].target in S
  {
    if es == [] then 0
    else InternalCount(es[..|es| - 1], S) + (if es[|es| - 1].target in S then 1 else 0)
  }

  /** `v` is a vertex of `g` with at least one edge into `S`: it goes to `vertsToRem`. */
  ghost predicate Moves<V>(g: AdjMap<V>, v: V, S: seq<V>)
  {
    v in g && InternalCount(g[v], S) > 0
  }

  /** The vertices of `g` the division takes out of the original graph. */
  ghost function MovedSet<V>(g: AdjMap<V>, S: seq<V>): set<V>
  {
    set v | v in S && Moves(g, v, S)
  }

  /** The inner loop: every edge of `es` into `S` is created from `v` in `h`, in list order. */
  ghost function CopyInternal<V>(h: AdjMap<V>, v: V, es: seq<Edge<V>>, S: seq<V>): AdjMap<V>
  {
    if es == [] then h
    else
      var h' := CopyInternal(h, v, es[..|es| - 1], S);
      var e := es[|es| - 1];
      if e.target in S then WithEdge(h', v, e.target, e.weight) else h'
  }

  /**
   * One turn of the outer loop for subset member `v`: a vertex of `g` is
   * created in `h` and its internal edges copied; when it has none, `v` is
   * removed from `h` again, which also drops edges other members copied to it.
   */
  ghost function DivideStep<V>(g: AdjMap<V>, h: AdjMap<V>, v: V, S: seq<V>): AdjMap<V>
  {
    var h' := if v in g then CopyInternal(WithVertex(h, v), v, g[v], S) else h;
    if Moves(g, v, S) then h' else WithoutVertex(h', v)
  }

  /** `retGraph` after the outer loop has processed the members `P` (a prefix of `S`). */
  ghost function NewGraph<V>(g: AdjMap<V>, S: seq<V>, P: seq<V>): AdjMap<V>
  {
    if P == [] then map[] else DivideStep(g, NewGraph(g, S, P[..|P| - 1]), P[|P| - 1], S)
  }

  /** `vertsToRem` after the outer loop has processed the members `P`. */
  ghost function MovedList<V>(g: AdjMap<V>, S: seq<V>, P: seq<V>): seq<V>
  {
    if P == [] then []
    else MovedList(g, S, P[..|P| - 1]) + (if Moves(g, P[|P| - 1], S) then [P[|P| - 1]] else [])
  }

  /** The second loop: removeVertex of each listed vertex, in order. */
  ghost function WithoutVertices<V>(g: AdjMap<V>, vs: seq<V>): AdjMap<V>
  {
    if vs == [] then g else WithoutVertex(WithoutVertices(g, vs[..|vs| - 1]), vs[|vs| - 1])
  }

  /** Every vertex of `h` is a member of `S` and of `g`; every edge of `h` is an edge of `g` inside `S`. */
  ghost predicate Within<V>(h: AdjMap<V>, g: AdjMap<V>, S: seq<V>)
  {
    forall u | u in h :: u in S && u in g && forall e | e in h[u] :: e.target in S && e in g[u]
  }

  // ---------------------------------------------------------------------------
  // The new graph
  // ---------------------------------------------------------------------------

  lemma {:induction false} CopyInternalWithin<V>(g: AdjMap<V>, h: AdjMap<V>, v: V, es: seq<Edge<V>>, S: seq<V>)
    requires WellFormed(g) && WellFormed(h) && Within(h, g, S)
    requires v in g && v in S
    requires forall e | e in es :: e in g[v]
    ensures WellFormed(CopyInternal(h, v, es, S)) && Within(CopyInternal(h, v, es, S), g, S)
  {
    if es != [] {
      var p := es[..|es| - 1];
      assert forall e | e in p :: e in es;
      CopyInternalWithin(g, h, v, p, S);
      var h' := CopyInternal(h, v, p, S);
      var e := es[|es| - 1];
      if e.target in S {
        assert e in g[v];
        WithEdgeEffect(h', v, e.target, e.weight);
        var h'' := WithEdge(h', v, e.target, e.weight);
        forall u | u in h'' ensures u in S && u in g && forall x: Edge<V> | x in h''[u] :: x.target in S && x in g[u] {
          if u != v && u in h' {
            assert h''[u] == h'[u];
          }
        }
      }
    }
  }

  lemma WithoutVertexWithin<V>(g: AdjMap<V>, h: AdjMap<V>, v: V, S: seq<V>)
    requires WellFormed(h) && Within(h, g, S)
    ensures WellFormed(WithoutVertex(h, v)) && Within(WithoutVertex(h, v), g, S)
  {
    WithoutVertexEffect(h, v);
  }

  lemma {:induction false} NewGraphWithin<V>(g: AdjMap<V>, S: seq<V>, i: nat)
    requires WellFormed(g) && i <= |S|
    ensures WellFormed(NewGraph(g, S, S[..i])) && Within(NewGraph(g, S, S[..i]), g, S)
  {
    if i > 0 {
      NewGraphWithin(g, S, i - 1);
      assert S[..i][..i - 1] == S[..i - 1];
      var h := NewGraph(g, S, S[..i - 1]);
      var v := S[i - 1];
      var h' := if v in g then CopyInternal(WithVertex(h, v), v, g[v], S) else h;
      if v in g {
        WithVertexEffect(h, v);
        CopyInternalWithin(g, WithVertex(h, v), v, g[v], S);
      }
      WithoutVertexWithin(g, h', v, S);
    }
  }

  /** Copying edges into `h` never removes a vertex of `h`. */
  lemma {:induction false} CopyInternalKeys<V>(h: AdjMap<V>, v: V, es: seq<Edge<V>>, S: seq<V>)
    ensures h.Keys <= CopyInternal(h, v, es, S).Keys
  {
    if es != [] {
      CopyInternalKeys(h, v, es[..|es| - 1], S);
    }
  }

  /**
   * After every prefix of the subset, each member seen so far that has an
   * edge into the subset is a vertex of the new graph: a later turn removes
   * only its own member, and only when that member has no such edge.
   */
  lemma {:induction false} NewGraphHasMoved<V>(g: AdjMap<V>, S: seq<V>, i: nat)
    requires i <= |S|
    ensures forall v | v in S[..i] && Moves(g, v, S) :: v in NewGraph(g, S, S[..i])
  {
    if i > 0 {
      NewGraphHasMoved(g, S, i - 1);
      assert S[..i][..i - 1] == S[..i - 1];
      assert S[..i] == S[..i - 1] + [S[i - 1]];
      var h := NewGraph(g, S, S[..i - 1]);
      var w := S[i - 1];
      var h' := if w in g then CopyInternal(WithVertex(h, w), w, g[w], S) else h;
      if w in g {
        CopyInternalKeys(WithVertex(h, w), w, g[w], S);
      }
      assert h.Keys <= h'.Keys;
      assert NewGraph(g, S, S[..i]) == DivideStep(g, h, w, S);
      if !Moves(g, w, S) && w in h' {
        assert WithoutVertex(h', w).Keys == h'.Keys - {w};
      }
    }
  }

  /**
   * The returned graph keeps the invariant, and every vertex and edge of it
   * comes from the original graph with both endpoints in the subset and the
   * same weight; every vertex taken out of the original is one of its vertices.
   */
  lemma DivideNewGraph<V>(g: AdjMap<V>, S: seq<V>)
    requires WellFormed(g)
    ensures var h := NewGraph(g, S, S);
      && WellFormed(h)
      && (forall u | u in h :: u in S && u in g && forall e | e in h[u] :: e.target in S && e in g[u])
      && MovedSet(g, S) <= h.Keys
  {
    NewGraphWithin(g, S, |S|);
    NewGraphHasMoved(g, S, |S|);
    assert S[..|S|] == S;
  }

  // ---------------------------------------------------------------------------
  // The original graph
  // ---------------------------------------------------------------------------

  lemma {:induction false} MovedListMembers<V>(g: AdjMap<V>, S: seq<V>, P: seq<V>)
    ensures forall x :: x in MovedList(g, S, P) <==> x in P && Moves(g, x, S)
  {
    if P != [] {
      MovedListMembers(g, S, P[..|P| - 1]);
      assert P == P[..|P| - 1] + [P[|P| - 1]];
    }
  }

  /** Removing one more vertex from a graph with the vertices `X` removed. */
  lemma RestrictStep<V>(g: AdjMap<V>, X: set<V>, v: V)
    requires v in g && v !in X
    ensures WithoutVertex(Restrict(g, X), v) == Restrict(g, X + {v})
  {
    var r := Restrict(g, X);
    var w := Restrict(r, {v});
    var r' := Restrict(g, X + {v});
    forall u | u in w ensures w[u] == r'[u] {
      DropDrop(g[u], X, {v});
    }
    MapsEqual(w, r');
  }

  /** Removing a vertex no edge points to, and that is not a key, changes nothing. */
  lemma RestrictAbsent<V>(g: AdjMap<V>, X: set<V>, v: V)
    requires v !in g
    requires forall u | u in g :: forall e | e in g[u] :: e.target != v
    ensures Restrict(g, X) == Restrict(g, X + {v})
  {
    var r := Restrict(g, X);
    var r' := Restrict(g, X + {v});
    forall u | u in r ensures r[u] == r'[u] {
      DropIrrelevant(g[u], X, v);
    }
    MapsEqual(r, r');
  }

  /** The members of a list, as a set. */
  ghost function Elems<V>(vs: seq<V>): set<V>
  {
    set x | x in vs
  }

  lemma ElemsSnoc<V>(p: seq<V>, v: V)
    ensures Elems(p + [v]) == Elems(p) + {v}
  {
    assert forall x :: x in p + [v] <==> x in p || x == v;
  }

  /** Removing a list of vertices one at a time is removing them all at once. */
  lemma {:induction false} WithoutVerticesRestrict<V>(g: AdjMap<V>, vs: seq<V>)
    requires WellFormed(g)
    ensures WithoutVertices(g, vs) == Restrict(g, Elems(vs))
  {
    if vs == [] {
      var r := Restrict(g, {});
      forall u | u in g ensures r[u] == g[u] {
        DropNothing(g[u], {});
      }
      MapsEqual(r, g);
      assert Elems(vs) == {};
    } else {
      var p := vs[..|vs| - 1];
      var v := vs[|vs| - 1];
      assert vs == p + [v];
      ElemsSnoc(p, v);
      WithoutVerticesRestrict(g, p);
      var X := Elems(p);
      assert WithoutVertices(g, vs) == WithoutVertex(Restrict(g, X), v);
      if v in g && v !in X {
        RestrictStep(g, X, v);
      } else if v !in g {
        RestrictAbsent(g, X, v);
      } else {
        assert X + {v} == X;
      }
    }
  }

  /**
   * The original graph after the division: exactly the subset members that
   * are vertices with an edge into the subset are removed, every remaining
   * vertex keeps its edges except those into removed vertices (in order), all
   * vertices outside the subset stay, and the invariant is kept.
   */
  lemma DivideOriginal<V>(g: AdjMap<V>, S: seq<V>)
    requires WellFormed(g)
    ensures var g' := WithoutVertices(g, MovedList(g, S, S));
      && WellFormed(g')
      && g'.Keys == g.Keys - MovedSet(g, S)
      && (forall u | u in g' :: g'[u] == Drop(g[u], MovedSet(g, S)))
      && (forall u | u in g && u !in S :: u in g')
    ensures forall v :: v in MovedSet(g, S) <==>
      v in S && v in g && exists i :: 0 <= i < |g[v]| && g[v][i].target in S
  {
    var R := MovedSet(g, S);
    MovedListMembers(g, S, S);
    WithoutVerticesRestrict(g, MovedList(g, S, S));
    assert Elems(MovedList(g, S, S)) == R;
    RestrictWellFormed(g, R);
  }

  // ---------------------------------------------------------------------------
  // Worked examples
  // ---------------------------------------------------------------------------

  /** The graph 0 -> 1 (weight 1), 1 -> 2 (weight 2) used by the examples below. */
  ghost function Chain(): AdjMap<int>
  {
    map[0 := [Edge(1, 1)], 1 := [Edge(2, 2)], 2 := []]
  }

  /**
   * Subset [0, 1]: member 0 is moved and its edge to 1 copied; member 1 has
   * no edge into the subset, so it is removed from the new graph again and
   * takes the copied edge with it.
   */
  lemma DivideChainForward()
    ensures NewGraph(Chain(), [0, 1], [0, 1]) == map[0 := []]
  {
    var g, S := Chain(), [0, 1];
    assert S[..1] == [0] && [0][..0] == [];
    assert [Edge(1, 1)][..0] == [] && [Edge(2, 2)][..0] == [];
    var h1 := map[0 := [Edge(1, 1)], 1 := []];
    assert Upsert([], 1, 1) == [Edge(1, 1)];
    assert CopyInternal(map[0 := []], 0, [Edge(1, 1)], S) == h1;
    assert InternalCount([Edge(1, 1)], S) == 1;
    assert NewGraph(g, S, [0]) == h1;
    assert InternalCount([Edge(2, 2)], S) == 0;
    assert CopyInternal(h1, 1, [Edge(2, 2)], S) == h1;
    assert Drop([Edge(1, 1)], {1}) == [];
    MapsEqual(Restrict(h1, {1}), map[0 := []]);
  }

  /** Subset [0, 1]: member 0 is the only one with an edge into the subset. */
  lemma ChainForwardMoved()
    ensures MovedList(Chain(), [0, 1], [0, 1]) == [0]
  {
    var g, S := Chain(), [0, 1];
    assert S[..1] == [0] && [0][..0] == [];
    assert [Edge(1, 1)][..0] == [] && [Edge(2, 2)][..0] == [];
    assert InternalCount([Edge(1, 1)], S) == 1;
    assert InternalCount([Edge(2, 2)], S) == 0;
    assert MovedList(g, S, [0]) == [0];
  }

  /** Subset [0, 1]: only member 0 leaves the original graph, and with it its edge. */
  lemma DivideChainForwardOriginal()
    ensures WithoutVertices(Chain(), MovedList(Chain(), [0, 1], [0, 1])) == map[1 := [Edge(2, 2)], 2 := []]
  {
    var g := Chain();
    ChainForwardMoved();
    assert [0][..0] == [];
    assert WithoutVertices(g, [0]) == Restrict(g, {0});
    var r := Restrict(g, {0});
    assert r.Keys == {1, 2};
    assert r[1] == Drop([Edge(2, 2)], {0}) == [Edge(2, 2)];
    assert r[2] == Drop([], {0}) == [];
    MapsEqual(r, map[1 := [Edge(2, 2)], 2 := []]);
  }

  /**
   * Subset [1, 0]: member 1 is created and removed again first, then member 0
   * is moved with its edge to 1, which re-creates 1 in the new graph.
   */
  lemma DivideChainBackward()
    ensures NewGraph(Chain(), [1, 0], [1, 0]) == map[0 := [Edge(1, 1)], 1 := []]
  {
    var g, S := Chain(), [1, 0];
    assert S[..1] == [1] && [1][..0] == [];
    assert [Edge(1, 1)][..0] == [] && [Edge(2, 2)][..0] == [];
    assert InternalCount([Edge(2, 2)], S) == 0;
    assert CopyInternal(map[1 := []], 1, [Edge(2, 2)], S) == map[1 := []];
    MapsEqual(Restrict(map[1 := []], {1}), map[]);
    assert NewGraph(g, S, [1]) == map[];
    assert Upsert([], 1, 1) == [Edge(1, 1)];
    assert CopyInternal(map[0 := []], 0, [Edge(1, 1)], S) == map[0 := [Edge(1, 1)], 1 := []];
    assert InternalCount([Edge(1, 1)], S) == 1;
  }
}
