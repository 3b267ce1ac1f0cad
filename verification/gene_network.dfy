/**
 * A gene network: genes as vertices of a `Graph`, a validating factory for
 * genes, and the recursive depth-first search that extends a shared path and
 * visited set as it goes.
 */
module GeneNetworks {
  import opened Wrappers
  import opened Ordering
  import opened Graphs
  import opened Traversals

  datatype Gene = Gene(name: string, kind: string, mutations: int, locus: string)

  /** `Gen.of`: refuses a negative mutation count and otherwise keeps every field as given. */
  function MakeGene(name: string, kind: string, mutations: int, locus: string): (r: Result<Gene, Error>)
    ensures r.Failure? <==> mutations < 0
    ensures r.Failure? ==> r.error == NegativeMutations
    ensures r.Success? ==> r.value.mutations >= 0
    ensures r.Success? ==> r.value.name == name && r.value.kind == kind && r.value.mutations == mutations && r.value.locus == locus
  {
    if mutations < 0 then Failure(NegativeMutations) else Success(Gene(name, kind, mutations, locus))
  }

  /**
   * `RedGenica`: a graph of genes (undirected unless asked otherwise) with a
   * table of genes by name. The labels stand for the gene-to-gene relations.
   */
  class GeneNetwork<L> {
    const graph: Graph<Gene, L>
    var genesByName: map<string, Gene>

    ghost predicate Valid()
      reads this, graph
    {
      graph.Valid()
    }

    /** `RedGenica(es_dirigido)`, undirected by default: no genes, no relations, an empty name table. */
    constructor (directed: bool := false)
      ensures Valid() && fresh(graph)
      ensures graph.directed == directed && graph.adj == map[] && genesByName == map[]
    {
      graph := new Graph(directed);
      genesByName := map[];
    }

    constructor FromGraph(g: Graph<Gene, L>)
      requires g.Valid()
      ensures Valid() && graph == g && genesByName == map[]
    {
      graph := g;
      genesByName := map[];
    }

    /**
     * `RedGenica.subgraph(S)`: a new network of the same kind whose genes are
     * exactly `S` and whose relations are those between members of `S`. Its
     * loops visit the same pairs as `Graph.Subgraph`, through `successors`.
     */
    method Subgraph(S: set<Gene>) returns (sub: GeneNetwork<L>)
      requires Valid()
      ensures fresh(sub) && fresh(sub.graph) && sub.Valid()
      ensures sub.graph.directed == graph.directed && sub.genesByName == map[]
      ensures sub.graph.Vertices() == S
      ensures forall u, v :: sub.graph.EdgeWeight(u, v) == if u in S && v in S then graph.EdgeWeight(u, v) else None
    {
      var h := graph.Subgraph(S);
      sub := new GeneNetwork.FromGraph(h);
    }
  }

  /** Every vertex after the first lies outside `avoid`. */
  ghost predicate AvoidsAfterFirst<V>(q: seq<V>, avoid: set<V>) {
    forall i :: 1 <= i < |q| ==> q[i] !in avoid
  }

  ghost predicate ReachableAvoiding<V(!new), E>(adj: map<V, map<V, E>>, s: V, d: V, avoid: set<V>) {
    exists q :: WalkBetween(adj, q, s, d) && AvoidsAfterFirst(q, avoid)
  }

  /** With nothing to avoid, this is plain reachability. */
  lemma ReachableAvoidingNothing<V(!new), E>(adj: map<V, map<V, E>>, s: V, d: V)
    ensures ReachableAvoiding(adj, s, d, {}) <==> Reachable(adj, s, d)
  {
    if Reachable(adj, s, d) {
      var q :| WalkBetween(adj, q, s, d);
      assert AvoidsAfterFirst(q, {});
    }
  }

  /** Every successor of the start and of each newly visited vertex has been visited. */
  ghost predicate ClosedBeyond<V(!new), E>(adj: map<V, map<V, E>>, visited0: set<V>, start: V, visited: set<V>) {
    forall u, w :: (u in visited - visited0 || u == start) && u in adj && w in adj[u] ==> w in visited
  }

  /**
   * A search that gave up leaves no way out: from the start, avoiding what was
   * visited at the call, every walk stays among the newly visited vertices,
   * and the goal is not one of them.
   */
  lemma {:induction false} GiveUpMeansUnreachable<V(!new), E>(adj: map<V, map<V, E>>, start: V, goal: V, visited0: set<V>, visited: set<V>)
    requires ClosedBeyond(adj, visited0, start, visited)
    requires goal != start && goal !in visited - visited0
    ensures !ReachableAvoiding(adj, start, goal, visited0)
  {
    if ReachableAvoiding(adj, start, goal, visited0) {
      var q :| WalkBetween(adj, q, start, goal) && AvoidsAfterFirst(q, visited0);
      var k := 0;
      while k < |q| - 1
        invariant 0 <= k < |q|
        invariant q[k] in visited - visited0 || q[k] == start
      {
        assert q[k] in adj && q[k + 1] in adj[q[k]];
        k := k + 1;
      }
      assert false;
    }
  }

  /** A step from the start to a fresh vertex, followed by a walk from it, avoids what the start's call avoided. */
  lemma ExtendAvoidingWalk<V(!new), E>(adj: map<V, map<V, E>>, start: V, s: V, goal: V, visited0: set<V>, visited: set<V>, q: seq<V>)
    requires start in adj && s in adj[start]
    requires visited0 + {start} <= visited && s !in visited
    requires WalkBetween(adj, q, s, goal) && Distinct(q) && AvoidsAfterFirst(q, visited)
    ensures WalkBetween(adj, [start] + q, start, goal) && Distinct([start] + q) && AvoidsAfterFirst([start] + q, visited0)
  {
    var r := [start] + q;
    forall i, j | 0 <= i < j < |r| ensures r[i] != r[j] {
      if i == 0 {
        assert r[j] == q[j - 1] && r[j] !in visited;
      }
    }
  }

  /**
   * `dfs(red, start, end, visited, path)`. The caller's set and list, updated
   * in place by the source, are passed in and handed back. On success the
   * path has been extended by a walk from `start` to `end` that repeats no
   * vertex and, past its first vertex, avoids everything visited at the call;
   * on failure the path is as it was. Either way the visited set has only
   * grown, and the search succeeds exactly when such a walk exists.
   */
  method Dfs<V(!new), E>(g: Graph<V, E>, start: V, goal: V, visited0: set<V>, path0: seq<V>)
    returns (found: bool, visited: set<V>, path: seq<V>)
    requires g.Valid()
    ensures visited0 + {start} <= visited
    ensures start == goal ==> found && visited == visited0 + {start} && path == path0 + [start]
    ensures found ==> |path| > |path0| && path[..|path0|] == path0
    ensures found ==> WalkBetween(g.adj, path[|path0|..], start, goal) && Distinct(path[|path0|..])
    ensures found ==> AvoidsAfterFirst(path[|path0|..], visited0)
    ensures !found ==> path == path0
    ensures !found ==> goal != start && goal !in visited - visited0 && ClosedBeyond(g.adj, visited0, start, visited)
    ensures found <==> ReachableAvoiding(g.adj, start, goal, visited0)
    decreases g.adj.Keys - visited0, if start in visited0 then 1 else 0
  {
    visited := visited0 + {start};
    path := path0 + [start];
    if start == goal {
      assert path[|path0|..] == [start];
      assert WalkBetween(g.adj, [start], start, goal) && AvoidsAfterFirst([start], visited0);
      return true, visited, path;
    }
    var todo := g.Successors(start);
    while todo != {}
      invariant todo <= g.Successors(start)
      invariant visited0 + {start} <= visited
      invariant path == path0 + [start]
      invariant goal !in visited - visited0
      invariant forall u, w :: u in visited - visited0 && u != start && u in g.adj && w in g.adj[u] ==> w in visited
      invariant forall w :: w in g.Successors(start) - todo ==> w in visited
    {
      var s :| s in todo;
      if s !in visited {
        ghost var before := visited;
        var f;
        f, visited, path := Dfs(g, s, goal, visited, path);
        if f {
          ghost var q := path[|path0| + 1..];
          assert path[|path0| + 1..] == path[|path0 + [start]|..];
          ExtendAvoidingWalk(g.adj, start, s, goal, visited0, before, q);
          assert path[|path0|..] == [start] + q;
          assert WalkBetween(g.adj, path[|path0|..], start, goal) && AvoidsAfterFirst(path[|path0|..], visited0);
          return true, visited, path;
        }
      }
      todo := todo - {s};
    }
    path := path[..|path| - 1];
    GiveUpMeansUnreachable(g.adj, start, goal, visited0, visited);
    return false, visited, path;
  }
}
