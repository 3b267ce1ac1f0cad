/**
 * The adjacency-map graph: a map from each vertex to the map from its
 * successors to the label of the edge. An undirected graph stores every edge
 * in both directions with the same label. Adding an edge creates any missing
 * endpoint, so every neighbour is itself a vertex.
 */
module Graphs {
  import opened Wrappers

  /** Every neighbour is itself a vertex. */
  ghost predicate Closed<V, E>(adj: map<V, map<V, E>>) {
    forall u, v :: u in adj && v in adj[u] ==> v in adj
  }

  /** Each edge is stored in both directions with the same label. */
  ghost predicate Symmetric<V, E>(adj: map<V, map<V, E>>) {
    forall u, v :: u in adj && v in adj[u] ==> v in adj && u in adj[v] && adj[v][u] == adj[u][v]
  }

  /** The label of the edge from `o` to `d`, or `None` when there is no such edge. */
  function WeightOf<V, E>(adj: map<V, map<V, E>>, o: V, d: V): (r: Option<E>)
    ensures r.Some? ==> o in adj && d in adj[o] && r.value == adj[o][d]
    ensures Closed(adj) && r.Some? ==> d in adj
    ensures Symmetric(adj) && r.Some? ==> d in adj && o in adj[d] && adj[d][o] == r.value
  {
    if o in adj && d in adj[o] then Some(adj[o][d]) else None
  }

  /** `add_vertex(v)`: an empty neighbour map for a new vertex, nothing otherwise. */
  function WithVertex<V, E>(adj: map<V, map<V, E>>, v: V): (r: map<V, map<V, E>>)
    ensures r.Keys == adj.Keys + {v}
    ensures v !in adj ==> r[v] == map[]
  {
    if v in adj then adj else adj[v := map[]]
  }

  /** `add_edge(o, d, a)`: both endpoints exist, `o -> d` is labelled `a`, and `d -> o` too when undirected. */
  function WithEdge<V, E>(adj: map<V, map<V, E>>, directed: bool, o: V, d: V, a: E): (r: map<V, map<V, E>>)
    ensures r.Keys == adj.Keys + {o, d}
    ensures d in r[o] && r[o][d] == a
    ensures !directed ==> o in r[d] && r[d][o] == a
  {
    var m := WithVertex(WithVertex(adj, o), d);
    var m1 := m[o := m[o][d := a]];
    if directed then m1 else m1[d := m1[d][o := a]]
  }

  /** Adding a vertex twice is adding it once; adding a present vertex changes nothing. */
  lemma AddVertexIdempotent<V, E>(adj: map<V, map<V, E>>, v: V)
    ensures WithVertex(WithVertex(adj, v), v) == WithVertex(adj, v)
    ensures v in adj ==> WithVertex(adj, v) == adj
    ensures forall u, w :: WeightOf(WithVertex(adj, v), u, w) == WeightOf(adj, u, w)
  {
  }

  /** Setting the label of `o -> d` on an existing vertex `o` changes that label and no other. */
  lemma SetLabel<V, E>(m: map<V, map<V, E>>, o: V, d: V, a: E)
    requires o in m
    ensures forall u, v :: WeightOf(m[o := m[o][d := a]], u, v) == if u == o && v == d then Some(a) else WeightOf(m, u, v)
  {
    var r := m[o := m[o][d := a]];
    forall u, v ensures WeightOf(r, u, v) == if u == o && v == d then Some(a) else WeightOf(m, u, v) {
      if u == o && v != d {
        assert r[u] == m[o][d := a];
        assert (v in r[u]) == (v in m[u]);
      }
    }
  }

  /** `add_edge` creates the endpoints and sets exactly the labels it promises; every other label is kept. */
  lemma WithEdgeLabels<V, E>(adj: map<V, map<V, E>>, directed: bool, o: V, d: V, a: E)
    ensures forall u, v ::
              WeightOf(WithEdge(adj, directed, o, d, a), u, v) ==
              if (u == o && v == d) || (!directed && u == d && v == o) then Some(a) else WeightOf(adj, u, v)
  {
    var m := WithVertex(WithVertex(adj, o), d);
    AddVertexIdempotent(adj, o);
    AddVertexIdempotent(WithVertex(adj, o), d);
    var m1 := m[o := m[o][d := a]];
    SetLabel(m, o, d, a);
    if !directed {
      SetLabel(m1, d, o, a);
    }
  }

  /** `add_edge` keeps every neighbour a vertex and, when undirected, keeps the storage symmetric. */
  lemma WithEdgeKeepsInvariant<V, E>(adj: map<V, map<V, E>>, directed: bool, o: V, d: V, a: E)
    requires Closed(adj) && (!directed ==> Symmetric(adj))
    ensures var r := WithEdge(adj, directed, o, d, a);
      Closed(r) && (!directed ==> Symmetric(r))
  {
    var r := WithEdge(adj, directed, o, d, a);
    WithEdgeLabels(adj, directed, o, d, a);
    forall u, v | u in r && v in r[u] ensures v in r {
      assert WeightOf(r, u, v).Some?;
    }
    if !directed {
      forall u, v | u in r && v in r[u]
        ensures v in r && u in r[v] && r[v][u] == r[u][v]
      {
        assert WeightOf(r, u, v).Some?;
        assert WeightOf(r, v, u) == WeightOf(r, u, v);
      }
    }
  }

  class Graph<V(==), E> {
    const directed: bool
    var adj: map<V, map<V, E>>

    ghost predicate Valid()
      reads this
    {
      Closed(adj) && (!directed ==> Symmetric(adj))
    }

    /** `Grafo(es_dirigido)`, directed by default: an empty graph. */
    constructor (directed: bool := true)
      ensures Valid() && this.directed == directed && adj == map[]
    {
      this.directed := directed;
      adj := map[];
    }

    method AddVertex(v: V)
      requires Valid()
      modifies this
      ensures Valid()
      ensures adj == WithVertex(old(adj), v)
    {
      if v !in adj {
        adj := adj[v := map[]];
      }
    }

    method AddEdge(o: V, d: V, a: E)
      requires Valid()
      modifies this
      ensures Valid()
      ensures adj == WithEdge(old(adj), directed, o, d, a)
    {
      WithEdgeKeepsInvariant(adj, directed, o, d, a);
      if o !in adj {
        AddVertex(o);
      }
      if d !in adj {
        AddVertex(d);
      }
      adj := adj[o := adj[o][d := a]];
      if !directed {
        adj := adj[d := adj[d][o := a]];
      }
    }

    /** `vertices()`: in a valid graph, every endpoint of every edge is listed. */
    function Vertices(): (r: set<V>)
      reads this
      ensures Valid() ==> forall u, v :: u in adj && v in adj[u] ==> u in r && v in r
    {
      adj.Keys
    }

    /** `successors(v)`: empty for a vertex the graph does not have. */
    function Successors(v: V): (r: set<V>)
      reads this
      ensures Valid() ==> r <= Vertices()
      ensures v !in Vertices() ==> r == {}
    {
      if v in adj then adj[v].Keys else {}
    }

    /** `edge_weight(o, d)`: the stored label, `None` exactly when there is no edge. */
    function EdgeWeight(o: V, d: V): (r: Option<E>)
      reads this
      ensures r.Some? <==> d in Successors(o)
      ensures r.Some? ==> r.value == adj[o][d]
    {
      WeightOf(adj, o, d)
    }

    /** `edge_exists(o, d)`. */
    function EdgeExists(o: V, d: V): (r: bool)
      reads this
      ensures r <==> d in Successors(o)
      ensures r <==> EdgeWeight(o, d).Some?
    {
      d in (if o in adj then adj[o] else map[])
    }

    /** `predecessors(v)`: a scan of every vertex's neighbour map. */
    method Predecessors(v: V) returns (r: set<V>)
      ensures forall u :: u in r <==> v in Successors(u)
    {
      r := {};
      var todo := adj.Keys;
      while todo != {}
        invariant todo <= adj.Keys
        invariant forall u :: u in r <==> u in adj.Keys - todo && v in adj[u]
      {
        var o :| o in todo;
        if v in adj[o] {
          r := r + {o};
        }
        todo := todo - {o};
      }
    }

    /** The first loop of `subgraph`: `add_vertex` for each member of `S`. */
    method AddVertices(S: set<V>)
      requires Valid()
      modifies this
      ensures Valid() && adj.Keys == old(adj).Keys + S
      ensures forall u, v :: WeightOf(adj, u, v) == WeightOf(old(adj), u, v)
    {
      ghost var adj0 := adj;
      ghost var done: set<V> := {};
      var todo := S;
      while todo != {}
        invariant Valid() && done + todo == S
        invariant adj.Keys == adj0.Keys + done
        invariant forall u, v :: WeightOf(adj, u, v) == WeightOf(adj0, u, v)
      {
        var v :| v in todo;
        AddVertexIdempotent(adj, v);
        AddVertex(v);
        done, todo := done + {v}, todo - {v};
      }
    }

    /**
     * The inner loop of `subgraph` for one origin `o`: every edge of `src`
     * from `o` to a member of `S` is copied with its label. Labels that
     * already agree with `src` keep agreeing.
     */
    method CopyEdgesFrom(src: map<V, map<V, E>>, S: set<V>, o: V)
      requires Valid() && o in S && adj.Keys == S && SubgraphSound(adj, src, S)
      requires !directed ==> Symmetric(src)
      modifies this
      ensures Valid() && adj.Keys == S && SubgraphSound(adj, src, S)
      ensures forall v :: v in S ==> WeightOf(adj, o, v) == WeightOf(src, o, v)
      ensures forall u, v :: WeightOf(old(adj), u, v) == WeightOf(src, u, v) ==> WeightOf(adj, u, v) == WeightOf(src, u, v)
    {
      ghost var adj0 := adj;
      var out := if o in src then src[o] else map[];
      ghost var done: set<V> := {};
      var ds := out.Keys;
      while ds != {}
        invariant Valid() && adj.Keys == S && SubgraphSound(adj, src, S)
        invariant done + ds == out.Keys
        invariant forall v :: v in S && v in done ==> WeightOf(adj, o, v) == WeightOf(src, o, v)
        invariant forall u, v :: WeightOf(adj0, u, v) == WeightOf(src, u, v) ==> WeightOf(adj, u, v) == WeightOf(src, u, v)
      {
        var d :| d in ds;
        if d in S {
          CopyEdge(src, S, o, d);
        }
        done, ds := done + {d}, ds - {d};
      }
      forall v | v in S ensures WeightOf(adj, o, v) == WeightOf(src, o, v) {
        if v !in out {
          assert v !in adj[o];
        }
      }
    }

    /**
     * One iteration of that loop: `add_edge(o, d, label)` for an edge of `src`
     * between members of `S`. The subgraph stays sound, `o -> d` gets its
     * label, and every label that changes becomes the one in `src`.
     */
    method CopyEdge(src: map<V, map<V, E>>, S: set<V>, o: V, d: V)
      requires Valid() && o in S && d in S && o in src && d in src[o]
      requires adj.Keys == S && SubgraphSound(adj, src, S)
      requires !directed ==> Symmetric(src)
      modifies this
      ensures Valid() && adj.Keys == S && SubgraphSound(adj, src, S)
      ensures WeightOf(adj, o, d) == WeightOf(src, o, d)
      ensures forall u, v :: WeightOf(adj, u, v) == WeightOf(old(adj), u, v) || WeightOf(adj, u, v) == WeightOf(src, u, v)
    {
      CopyEdgeStep(adj, src, S, directed, o, d);
      WithEdgeKeepsSound(adj, src, S, directed, o, d);
      AddEdge(o, d, src[o][d]);
    }

    /**
     * `subgraph(vertices)`: a new graph of the same kind whose vertices are
     * exactly `S` and whose edges are the edges of this graph between members
     * of `S`, with their labels.
     */
    method Subgraph(S: set<V>) returns (h: Graph<V, E>)
      requires Valid()
      ensures fresh(h) && h.Valid() && h.directed == directed
      ensures h.Vertices() == S
      ensures forall u, v :: h.EdgeWeight(u, v) == if u in S && v in S then EdgeWeight(u, v) else None
    {
      h := new Graph(directed);
      h.AddVertices(S);
      EdgelessIsSound(h.adj, adj, S);
      ghost var done: set<V> := {};
      var origins := S;
      while origins != {}
        invariant fresh(h) && h.Valid() && h.directed == directed
        invariant done + origins == S && h.adj.Keys == S
        invariant SubgraphSound(h.adj, adj, S)
        invariant forall u, v :: u in done && v in S ==> WeightOf(h.adj, u, v) == WeightOf(adj, u, v)
      {
        var o :| o in origins;
        h.CopyEdgesFrom(adj, S, o);
        done, origins := done + {o}, origins - {o};
      }
      forall u, v ensures h.EdgeWeight(u, v) == if u in S && v in S then EdgeWeight(u, v) else None {
        if WeightOf(h.adj, u, v).Some? {
          assert u in h.adj && v in h.adj[u];
        }
      }
    }

    /**
     * The inner loop of `inverse_graph`: every edge `o -> d` of `src` is added
     * to this graph reversed, as `d -> o`, with its label.
     */
    method AddReversedEdges(src: map<V, map<V, E>>, o: V)
      requires Valid() && directed && o in src
      modifies this
      ensures Valid()
      ensures adj.Keys == old(adj).Keys + (if src[o].Keys == {} then {} else {o}) + src[o].Keys
      ensures forall u, v :: WeightOf(adj, u, v) == if v == o && u in src[o] then Some(src[o][u]) else WeightOf(old(adj), u, v)
    {
      ghost var adj0 := adj;
      ghost var done: set<V> := {};
      var ds := src[o].Keys;
      while ds != {}
        invariant Valid()
        invariant done + ds == src[o].Keys
        invariant adj.Keys == adj0.Keys + (if done == {} then {} else {o}) + done
        invariant forall u, v ::
                    WeightOf(adj, u, v) == if v == o && u in done then Some(src[o][u]) else WeightOf(adj0, u, v)
      {
        var d :| d in ds;
        AddReversedEdge(src, o, d, adj0, done);
        done, ds := done + {d}, ds - {d};
      }
    }

    /** One iteration of that loop: `add_edge(d, o, label)` extends the reversed edges by `d`. */
    method AddReversedEdge(src: map<V, map<V, E>>, o: V, d: V, ghost adj0: map<V, map<V, E>>, ghost done: set<V>)
      requires Valid() && directed && o in src && done <= src[o].Keys && d in src[o]
      requires adj.Keys == adj0.Keys + (if done == {} then {} else {o}) + done
      requires forall u, v ::
                 WeightOf(adj, u, v) == if v == o && u in done then Some(src[o][u]) else WeightOf(adj0, u, v)
      modifies this
      ensures Valid()
      ensures adj.Keys == adj0.Keys + {o} + (done + {d})
      ensures forall u, v ::
                WeightOf(adj, u, v) == if v == o && u in done + {d} then Some(src[o][u]) else WeightOf(adj0, u, v)
    {
      ghost var before := adj;
      AddEdge(d, o, src[o][d]);
      ReversedStep(before, adj0, src, o, done, d);
      ReversedKeysStep(before.Keys, adj0.Keys, o, done, d);
    }

    /**
     * `inverse_graph()`: refused for an undirected graph; otherwise a new
     * directed graph with every edge reversed and its label kept, whose vertices
     * are the endpoints of the edges (vertices without edges are not carried over).
     */
    method InverseGraph() returns (r: Result<Graph<V, E>, Error>)
      ensures !directed ==> r.Failure? && r.error == NotDirected
      ensures directed ==>
        && r.Success? && fresh(r.value) && r.value.Valid() && r.value.directed
        && (forall u, v :: r.value.EdgeWeight(u, v) == EdgeWeight(v, u))
        && (forall x :: x in r.value.Vertices() <==> Touches(adj, x))
    {
      if !directed {
        return Failure(NotDirected);
      }
      var h := new Graph(true);
      ghost var done: set<V> := {};
      var origins := adj.Keys;
      while origins != {}
        invariant fresh(h) && h.Valid() && h.directed
        invariant done + origins == adj.Keys
        invariant h.adj.Keys == Endpoints(adj, done)
        invariant forall u, v :: WeightOf(h.adj, u, v) == if v in done then WeightOf(adj, v, u) else None
      {
        var o :| o in origins;
        EndpointsStep(adj, done, o);
        h.AddReversedEdges(adj, o);
        done, origins := done + {o}, origins - {o};
      }
      EndpointsAreTouched(adj);
      return Success(h);
    }
  }

  /** The vertex set after one more reversed edge into `o`: `o` and the new neighbour join it. */
  lemma ReversedKeysStep<V>(keys: set<V>, keys0: set<V>, o: V, done: set<V>, d: V)
    requires keys == keys0 + (if done == {} then {} else {o}) + done
    ensures keys + {d, o} == keys0 + {o} + (done + {d})
  {
  }

  /**
   * One step of the inner loop of `inverse_graph`: when `inv` is `base` with
   * the edges from `o` to the members of `done` added reversed, adding the
   * reversed edge from `o` to `d` extends `done` by `d`.
   */
  lemma ReversedStep<V, E>(inv: map<V, map<V, E>>, base: map<V, map<V, E>>, src: map<V, map<V, E>>, o: V, done: set<V>, d: V)
    requires o in src && done <= src[o].Keys && d in src[o]
    requires forall u, v :: WeightOf(inv, u, v) == if v == o && u in done then Some(src[o][u]) else WeightOf(base, u, v)
    ensures forall u, v ::
              WeightOf(WithEdge(inv, true, d, o, src[o][d]), u, v) ==
              if v == o && u in done + {d} then Some(src[o][u]) else WeightOf(base, u, v)
  {
    var r := WithEdge(inv, true, d, o, src[o][d]);
    WithEdgeLabels(inv, true, d, o, src[o][d]);
    forall u, v
      ensures WeightOf(r, u, v) == if v == o && u in done + {d} then Some(src[o][u]) else WeightOf(base, u, v)
    {
      if u == d && v == o {
        assert WeightOf(r, u, v) == Some(src[o][d]);
      } else {
        assert WeightOf(r, u, v) == WeightOf(inv, u, v);
      }
    }
  }

  /** `x` is an endpoint of some edge of `adj`. */
  ghost predicate Touches<V, E>(adj: map<V, map<V, E>>, x: V) {
    (x in adj && adj[x].Keys != {}) || exists y :: y in adj && x in adj[y]
  }

  /** The endpoints of the edges leaving the members of `O`. */
  ghost function Endpoints<V, E>(adj: map<V, map<V, E>>, O: set<V>): set<V> {
    (set x | x in O && x in adj && adj[x].Keys != {}) + (set x, y | x in O && x in adj && y in adj[x] :: y)
  }

  /** Taking one more origin adds it, when it has an edge, and its successors. */
  lemma EndpointsStep<V, E>(adj: map<V, map<V, E>>, O: set<V>, o: V)
    requires o in adj
    ensures Endpoints(adj, O + {o}) == Endpoints(adj, O) + (if adj[o].Keys == {} then {} else {o}) + adj[o].Keys
  {
    var lhs := Endpoints(adj, O + {o});
    var rhs := Endpoints(adj, O) + (if adj[o].Keys == {} then {} else {o}) + adj[o].Keys;
    forall z | z in lhs ensures z in rhs {
      if z !in (set x | x in O + {o} && x in adj && adj[x].Keys != {}) {
        var x, y :| x in O + {o} && x in adj && y in adj[x] && z == y;
        if x != o {
          assert z in (set x, y | x in O && x in adj && y in adj[x] :: y);
        }
      }
    }
    forall z | z in rhs ensures z in lhs {
      if z in adj[o].Keys {
        assert z in (set x, y | x in O + {o} && x in adj && y in adj[x] :: y);
      } else if z in Endpoints(adj, O) && z !in (set x | x in O && x in adj && adj[x].Keys != {}) {
        var x, y :| x in O && x in adj && y in adj[x] && z == y;
        assert z in (set x, y | x in O + {o} && x in adj && y in adj[x] :: y);
      }
    }
  }

  /** Over all vertices, the endpoints are exactly the vertices that touch an edge. */
  lemma EndpointsAreTouched<V, E>(adj: map<V, map<V, E>>)
    ensures forall x :: x in Endpoints(adj, adj.Keys) <==> Touches(adj, x)
  {
    forall x ensures x in Endpoints(adj, adj.Keys) <==> Touches(adj, x) {
      if x in Endpoints(adj, adj.Keys) && !(x in adj && adj[x].Keys != {}) {
        var u, y :| u in adj.Keys && u in adj && y in adj[u] && x == y;
      }
      if Touches(adj, x) && !(x in adj && adj[x].Keys != {}) {
        var y :| y in adj && x in adj[y];
        assert x in (set u, w | u in adj.Keys && u in adj && w in adj[u] :: w);
      }
    }
  }

  /** Every edge of `sub` joins members of `S` and carries the label it has in `adj`. */
  ghost predicate SubgraphSound<V, E>(sub: map<V, map<V, E>>, adj: map<V, map<V, E>>, S: set<V>) {
    forall u :: u in sub ==> forall v :: v in sub[u] ==>
      u in S && v in S && WeightOf(sub, u, v) == WeightOf(adj, u, v)
  }

  /** A graph without edges is a sound subgraph of any graph. */
  lemma EdgelessIsSound<V, E>(sub: map<V, map<V, E>>, adj: map<V, map<V, E>>, S: set<V>)
    requires forall u, v :: WeightOf(sub, u, v) == None
    ensures SubgraphSound(sub, adj, S)
  {
    forall u | u in sub ensures sub[u] == map[] {
      forall v | v in sub[u] ensures WeightOf(sub, u, v) == None {
      }
    }
  }

  /** Copying the edge `o -> d` of `adj` sets every label it changes to the one it has in `adj`. */
  lemma CopyEdgeStep<V, E>(sub: map<V, map<V, E>>, adj: map<V, map<V, E>>, S: set<V>, directed: bool, o: V, d: V)
    requires o in adj && d in adj[o]
    requires !directed ==> Symmetric(adj)
    ensures forall u, v ::
              || WeightOf(WithEdge(sub, directed, o, d, adj[o][d]), u, v) == WeightOf(sub, u, v)
              || WeightOf(WithEdge(sub, directed, o, d, adj[o][d]), u, v) == WeightOf(adj, u, v)
  {
    WithEdgeLabels(sub, directed, o, d, adj[o][d]);
    if !directed {
      assert d in adj && o in adj[d] && adj[d][o] == adj[o][d];
    }
  }

  /** An edge of the subgraph after copying `o -> d` joins members of `S` and carries its label in `adj`. */
  lemma CopiedEdgeSound<V, E>(sub: map<V, map<V, E>>, adj: map<V, map<V, E>>, S: set<V>, directed: bool, o: V, d: V, u: V, v: V)
    requires SubgraphSound(sub, adj, S) && o in S && d in S && o in adj && d in adj[o]
    requires !directed ==> Symmetric(adj)
    requires WeightOf(WithEdge(sub, directed, o, d, adj[o][d]), u, v).Some?
    ensures u in S && v in S && WeightOf(WithEdge(sub, directed, o, d, adj[o][d]), u, v) == WeightOf(adj, u, v)
  {
    var a := adj[o][d];
    var r := WithEdge(sub, directed, o, d, a);
    WithEdgeLabels(sub, directed, o, d, a);
    if u == o && v == d {
      // the copied edge itself
      assert WeightOf(r, u, v) == Some(a) == WeightOf(adj, u, v);
    } else if !directed && u == d && v == o {
      // its mirror, stored with the same label in an undirected graph
      assert d in adj && o in adj[d] && adj[d][o] == a;
      assert WeightOf(r, u, v) == Some(a) == WeightOf(adj, u, v);
    } else {
      // an edge the subgraph already had
      assert WeightOf(r, u, v) == WeightOf(sub, u, v);
      assert u in sub && v in sub[u];
    }
  }

  /** Copying an edge of `adj` between members of `S` keeps a sound subgraph sound. */
  lemma WithEdgeKeepsSound<V, E>(sub: map<V, map<V, E>>, adj: map<V, map<V, E>>, S: set<V>, directed: bool, o: V, d: V)
    requires SubgraphSound(sub, adj, S) && o in S && d in S && o in adj && d in adj[o]
    requires !directed ==> Symmetric(adj)
    ensures SubgraphSound(WithEdge(sub, directed, o, d, adj[o][d]), adj, S)
  {
    var r := WithEdge(sub, directed, o, d, adj[o][d]);
    forall u | u in r
      ensures forall v :: v in r[u] ==> u in S && v in S && WeightOf(r, u, v) == WeightOf(adj, u, v)
    {
      forall v | v in r[u] ensures u in S && v in S && WeightOf(r, u, v) == WeightOf(adj, u, v) {
        assert WeightOf(r, u, v).Some?;
        CopiedEdgeSound(sub, adj, S, directed, o, d, u, v);
      }
    }
  }

  /** In an undirected graph, both directions of a pair agree on existence and label. */
  lemma UndirectedQueriesAgree<V, E>(g: Graph<V, E>, u: V, v: V)
    requires g.Valid() && !g.directed
    ensures g.EdgeExists(u, v) == g.EdgeExists(v, u)
    ensures g.EdgeWeight(u, v) == g.EdgeWeight(v, u)
  {
  }
}
