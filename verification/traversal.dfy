/**
 * Breadth-first and depth-first search over a `Graph`, recording for every
 * discovered vertex the vertex it was discovered from, and rebuilding the
 * path to the goal by following those links back to the start.
 */
module Traversals {
  import opened Wrappers
  import opened Ordering
  import opened Graphs

  /** Consecutive vertices are joined by an edge. */
  ghost predicate IsWalk<V(!new), E>(adj: map<V, map<V, E>>, p: seq<V>) {
    |p| >= 1 && forall i :: 0 <= i < |p| - 1 ==> p[i] in adj && p[i + 1] in adj[p[i]]
  }

  ghost predicate WalkBetween<V(!new), E>(adj: map<V, map<V, E>>, p: seq<V>, s: V, d: V) {
    IsWalk(adj, p) && p[0] == s && p[|p| - 1] == d
  }

  ghost predicate Reachable<V(!new), E>(adj: map<V, map<V, E>>, s: V, d: V) {
    exists p :: WalkBetween(adj, p, s, d)
  }

  /** A walk from `s` to `d` with no more vertices than any other. */
  ghost predicate ShortestWalk<V(!new), E>(adj: map<V, map<V, E>>, p: seq<V>, s: V, d: V) {
    WalkBetween(adj, p, s, d) && forall q :: WalkBetween(adj, q, s, d) ==> |p| <= |q|
  }

  function Elems<T>(s: seq<T>): set<T> {
    set x | x in s
  }

  /** `predecesores.get(v)`: a missing entry reads as no predecessor. */
  function Get<V>(pred: map<V, Option<V>>, v: V): (r: Option<V>)
    ensures r.Some? ==> v in pred && pred[v] == r
    ensures v !in pred ==> r == None
  {
    if v in pred then pred[v] else None
  }

  /** Every predecessor link goes to a vertex of strictly smaller rank, so following links stops. */
  ghost predicate Ranked<V>(pred: map<V, Option<V>>, rank: map<V, nat>) {
    && pred.Keys <= rank.Keys
    && forall v :: v in pred && pred[v].Some? ==> pred[v].value in rank && rank[pred[v].value] < rank[v]
  }

  /** The vertices met by following predecessor links back from `v`, earliest first. */
  ghost function Chain<V>(pred: map<V, Option<V>>, rank: map<V, nat>, v: V): (r: seq<V>)
    requires Ranked(pred, rank)
    ensures r != [] && r[|r| - 1] == v
    decreases if v in pred then rank[v] + 1 else 0
  {
    match Get(pred, v)
    case None => [v]
    case Some(u) => Chain(pred, rank, u) + [v]
  }

  /**
   * `reconstruir_camino(predecesores, destino)`: prepends vertices while
   * following links back from `destino`. A goal without an entry still
   * yields `[destino]`.
   */
  method ReconstructPath<V>(pred: map<V, Option<V>>, goal: V, ghost rank: map<V, nat>) returns (path: seq<V>)
    requires Ranked(pred, rank)
    ensures path == Chain(pred, rank, goal)
  {
    path := [];
    var current := Some(goal);
    while current.Some?
      invariant current.Some? ==> Chain(pred, rank, current.value) + path == Chain(pred, rank, goal)
      invariant current.None? ==> path == Chain(pred, rank, goal)
      decreases if current.Some? then (if current.value in pred then rank[current.value] + 2 else 1) else 0
    {
      path := [current.value] + path;
      current := Get(pred, current.value);
    }
  }

  /** A goal that was never discovered comes back as a one-vertex path, not as an empty one. */
  lemma UndiscoveredGoalPath<V>(pred: map<V, Option<V>>, rank: map<V, nat>, goal: V)
    requires Ranked(pred, rank) && goal !in pred
    ensures Chain(pred, rank, goal) == [goal]
    ensures Chain(pred, rank, goal) != []
  {
  }

  /** The smallest instance: only the start was discovered, and the goal is another vertex. */
  lemma UndiscoveredGoalExample()
    ensures Chain(map[1 := None], map[1 := 0], 2) == [2]
  {
    UndiscoveredGoalPath(map[1 := None], map[1 := 0], 2);
  }

  /** The path as the documentation describes it: empty when the goal was never discovered. */
  method ReconstructPathOrEmpty<V>(pred: map<V, Option<V>>, goal: V, ghost rank: map<V, nat>) returns (path: seq<V>)
    requires Ranked(pred, rank)
    ensures path == [] <==> goal !in pred
    ensures goal in pred ==> path == Chain(pred, rank, goal)
  {
    if goal !in pred {
      return [];
    }
    path := ReconstructPath(pred, goal, rank);
  }

  /**
   * The predecessor map of a search is a tree rooted at `start`: the start has
   * no predecessor, every other entry points along an edge to an entry whose
   * depth `rank` is one less.
   */
  ghost predicate TreeShaped<V(!new), E>(adj: map<V, map<V, E>>, start: V, pred: map<V, Option<V>>, rank: map<V, nat>) {
    && start in pred && pred[start] == None
    && rank.Keys == pred.Keys && rank[start] == 0
    && (forall v :: v in pred && v != start ==>
          && pred[v].Some? && pred[v].value in pred
          && pred[v].value in adj && v in adj[pred[v].value]
          && rank[v] == rank[pred[v].value] + 1)
  }

  /** No walk from the start reaches a discovered vertex in fewer steps than its depth. */
  ghost predicate DepthIsLowerBound<V(!new), E>(adj: map<V, map<V, E>>, start: V, pred: map<V, Option<V>>, rank: map<V, nat>)
    requires rank.Keys == pred.Keys
  {
    forall x, p :: x in pred && WalkBetween(adj, p, start, x) ==> rank[x] <= |p| - 1
  }

  lemma TreeIsRanked<V(!new), E>(adj: map<V, map<V, E>>, start: V, pred: map<V, Option<V>>, rank: map<V, nat>)
    requires TreeShaped(adj, start, pred, rank)
    ensures Ranked(pred, rank)
  {
  }

  /** Following links back from a discovered vertex gives a walk from the start with one vertex per depth level. */
  lemma {:induction false} TreeChain<V(!new), E>(adj: map<V, map<V, E>>, start: V, pred: map<V, Option<V>>, rank: map<V, nat>, v: V)
    requires TreeShaped(adj, start, pred, rank) && v in pred
    ensures Ranked(pred, rank)
    ensures WalkBetween(adj, Chain(pred, rank, v), start, v)
    ensures |Chain(pred, rank, v)| == rank[v] + 1
    ensures forall i :: 0 <= i < |Chain(pred, rank, v)| ==> Chain(pred, rank, v)[i] in rank && rank[Chain(pred, rank, v)[i]] == i
    decreases rank[v]
  {
    TreeIsRanked(adj, start, pred, rank);
    if v != start {
      var u := pred[v].value;
      TreeChain(adj, start, pred, rank, u);
      var c := Chain(pred, rank, u);
      assert Chain(pred, rank, v) == c + [v];
    }
  }

  /** Vertices on a tree path have distinct depths, so the path repeats no vertex. */
  lemma ChainIsSimple<V(!new), E>(adj: map<V, map<V, E>>, start: V, pred: map<V, Option<V>>, rank: map<V, nat>, v: V)
    requires TreeShaped(adj, start, pred, rank) && v in pred
    ensures Ranked(pred, rank)
    ensures Distinct(Chain(pred, rank, v))
  {
    TreeChain(adj, start, pred, rank, v);
    var c := Chain(pred, rank, v);
    forall i, j | 0 <= i < j < |c| ensures c[i] != c[j] {
      assert rank[c[i]] == i && rank[c[j]] == j;
    }
  }

  /** A set closed under successors that holds the first vertex of a walk holds all of it. */
  lemma ClosedSetHoldsWalk<V(!new), E>(adj: map<V, map<V, E>>, S: set<V>, p: seq<V>)
    requires IsWalk(adj, p) && p[0] in S
    requires forall u, w :: u in S && u in adj && w in adj[u] ==> w in S
    ensures forall i :: 0 <= i < |p| ==> p[i] in S
  {
    var k := 1;
    while k < |p|
      invariant 1 <= k <= |p|
      invariant forall i :: 0 <= i < k ==> p[i] in S
    {
      assert p[k - 1] in adj && p[k] in adj[p[k - 1]];
      k := k + 1;
    }
  }

  /** A prefix of a walk is a walk to its last vertex. */
  lemma WalkPrefix<V(!new), E>(adj: map<V, map<V, E>>, p: seq<V>, s: V, i: nat)
    requires IsWalk(adj, p) && p[0] == s && i < |p|
    ensures WalkBetween(adj, p[..i + 1], s, p[i])
  {
  }

  /**
   * The discovered vertices are those already expanded plus those waiting in
   * the frontier, which repeats nothing and holds no expanded vertex.
   */
  ghost predicate Frontier<V(!new), E>(adj: map<V, map<V, E>>, start: V, visited: set<V>, frontier: seq<V>, pred: map<V, Option<V>>) {
    && pred.Keys == visited + Elems(frontier)
    && pred.Keys <= adj.Keys + {start}
    && Distinct(frontier)
    && (forall i :: 0 <= i < |frontier| ==> frontier[i] !in visited)
  }

  /** Every successor of an expanded vertex has been discovered. */
  ghost predicate SuccessorsDiscovered<V(!new), E>(adj: map<V, map<V, E>>, visited: set<V>, pred: map<V, Option<V>>) {
    forall u, w :: u in visited && u in adj && w in adj[u] ==> w in pred
  }

  /** State shared by both traversals at the head of their loops; the goal has not been expanded. */
  ghost predicate SearchState<V(!new), E>(adj: map<V, map<V, E>>, start: V, goal: V, visited: set<V>, frontier: seq<V>, pred: map<V, Option<V>>, rank: map<V, nat>) {
    && TreeShaped(adj, start, pred, rank)
    && Frontier(adj, start, visited, frontier, pred)
    && goal !in visited
    && SuccessorsDiscovered(adj, visited, pred)
  }

  /** Recording `w` as found from the discovered vertex `v` along an edge keeps the map a tree. */
  lemma DiscoverKeepsTree<V(!new), E>(adj: map<V, map<V, E>>, start: V, pred: map<V, Option<V>>, rank: map<V, nat>, v: V, w: V)
    requires TreeShaped(adj, start, pred, rank)
    requires v in pred && v in adj && w in adj[v] && w !in pred
    ensures TreeShaped(adj, start, pred[w := Some(v)], rank[w := rank[v] + 1])
  {
  }

  /** A newly discovered vertex joins the end of the frontier. */
  lemma DiscoverKeepsFrontier<V(!new), E>(adj: map<V, map<V, E>>, start: V, visited: set<V>, frontier: seq<V>, pred: map<V, Option<V>>, w: V, x: Option<V>)
    requires Frontier(adj, start, visited, frontier, pred)
    requires w in adj && w !in pred
    ensures Frontier(adj, start, visited, frontier + [w], pred[w := x])
  {
    assert Elems(frontier + [w]) == Elems(frontier) + {w};
    assert forall i :: 0 <= i < |frontier| ==> frontier[i] in Elems(frontier);
  }

  /** Taking out the `k`-th item shifts every later item one place to the front. */
  lemma RemovedIndices<T>(s: seq<T>, k: nat)
    requires k < |s|
    ensures |s[..k] + s[k + 1..]| == |s| - 1
    ensures forall i :: 0 <= i < k ==> (s[..k] + s[k + 1..])[i] == s[i]
    ensures forall j :: k < j < |s| ==> (s[..k] + s[k + 1..])[j - 1] == s[j]
  {
  }

  /** The items of a sequence are the items left after taking out the `k`-th, plus that one. */
  lemma RemovedElems<T>(s: seq<T>, k: nat)
    requires k < |s|
    ensures Elems(s) == Elems(s[..k] + s[k + 1..]) + {s[k]}
  {
    assert s == s[..k] + [s[k]] + s[k + 1..];
  }

  /** Taking the `k`-th frontier vertex and marking it visited leaves the discovered set as it was. */
  lemma VisitFrontier<V(!new), E>(adj: map<V, map<V, E>>, start: V, visited: set<V>, frontier: seq<V>, pred: map<V, Option<V>>, k: nat)
    requires Frontier(adj, start, visited, frontier, pred) && k < |frontier|
    ensures frontier[k] !in visited && frontier[k] in pred
    ensures Frontier(adj, start, visited + {frontier[k]}, frontier[..k] + frontier[k + 1..], pred)
  {
    var rest := frontier[..k] + frontier[k + 1..];
    RemovedIndices(frontier, k);
    RemovedElems(frontier, k);
    assert frontier[k] in Elems(frontier);
    forall i, j | 0 <= i < j < |rest| ensures rest[i] != rest[j] {
      var i', j' := if i < k then i else i + 1, if j < k then j else j + 1;
      assert rest[i] == frontier[i'] && rest[j] == frontier[j'];
    }
    forall i | 0 <= i < |rest| ensures rest[i] !in visited + {frontier[k]} {
      var i' := if i < k then i else i + 1;
      assert rest[i] == frontier[i'];
    }
  }

  /** Once all successors of `v` are discovered, `v` can join the expanded vertices. */
  lemma ExpandKeepsDiscovered<V(!new), E>(adj: map<V, map<V, E>>, visited: set<V>, v: V, pred0: map<V, Option<V>>, pred: map<V, Option<V>>)
    requires SuccessorsDiscovered(adj, visited, pred0) && pred0.Keys <= pred.Keys
    requires forall w :: v in adj && w in adj[v] ==> w in pred
    ensures SuccessorsDiscovered(adj, visited + {v}, pred)
  {
  }

  /** Breadth-first order: depths along the queue never decrease and span at most one level. */
  ghost predicate Levels<V>(queue: seq<V>, rank: map<V, nat>) {
    && (forall i :: 0 <= i < |queue| ==> queue[i] in rank)
    && (forall i, j :: 0 <= i <= j < |queue| ==> rank[queue[i]] <= rank[queue[j]])
    && (forall j :: 0 <= j < |queue| ==> rank[queue[j]] <= rank[queue[0]] + 1)
  }

  /** The first vertex of a sequence that lies outside `S`, given that its last vertex does. */
  lemma FirstOutside<V>(p: seq<V>, S: set<V>) returns (i: nat)
    requires p != [] && p[|p| - 1] !in S
    ensures i < |p| && p[i] !in S
    ensures forall k :: 0 <= k < i ==> p[k] in S
  {
    i := 0;
    while p[i] in S
      invariant i < |p|
      invariant forall k :: 0 <= k < i ==> p[k] in S
      decreases |p| - i
    {
      i := i + 1;
    }
  }

  /** Any walk from the start to an undiscovered vertex is longer than the depth of the queue's head. */
  lemma UndiscoveredIsFarther<V(!new), E>(adj: map<V, map<V, E>>, start: V, goal: V, visited: set<V>, queue: seq<V>, pred: map<V, Option<V>>, rank: map<V, nat>, x: V, p: seq<V>)
    requires SearchState(adj, start, goal, visited, queue, pred, rank) && Levels(queue, rank)
    requires DepthIsLowerBound(adj, start, pred, rank)
    requires queue != [] && x !in pred && WalkBetween(adj, p, start, x)
    ensures |p| - 1 >= rank[queue[0]] + 1
  {
    var i := FirstOutside(p, visited);
    if i > 0 {
      assert p[i - 1] in visited && p[i - 1] in adj && p[i] in adj[p[i - 1]];
    }
    assert p[i] in pred;
    assert p[i] in Elems(queue);
    var j :| 0 <= j < |queue| && queue[j] == p[i];
    WalkPrefix(adj, p, start, i);
    assert rank[p[i]] <= i;
    assert rank[queue[0]] <= rank[queue[j]];
  }

  /**
   * One neighbour `w` of the just-visited `v`: when it is neither visited nor
   * in the frontier it joins the end of the frontier, one level deeper than
   * `v`, with `v` as its predecessor; otherwise nothing changes.
   */
  method Discover<V(!new), E>(g: Graph<V, E>, start: V, v: V, w: V, visited: set<V>, frontier0: seq<V>, pred0: map<V, Option<V>>, ghost rank0: map<V, nat>)
    returns (frontier: seq<V>, pred: map<V, Option<V>>, ghost rank: map<V, nat>)
    requires g.Valid() && v in visited && w in g.Successors(v)
    requires TreeShaped(g.adj, start, pred0, rank0) && Frontier(g.adj, start, visited, frontier0, pred0)
    ensures TreeShaped(g.adj, start, pred, rank) && Frontier(g.adj, start, visited, frontier, pred)
    ensures w in pred && pred0.Keys <= pred.Keys
    ensures w in pred0 ==> frontier == frontier0 && pred == pred0 && rank == rank0
    ensures w !in pred0 ==>
      && frontier == frontier0 + [w] && pred == pred0[w := Some(v)]
      && rank == rank0[w := rank0[v] + 1]
  {
    frontier, pred, rank := frontier0, pred0, rank0;
    if w !in visited && w !in frontier {
      assert w !in pred;
      DiscoverKeepsTree(g.adj, start, pred, rank, v, w);
      DiscoverKeepsFrontier(g.adj, start, visited, frontier, pred, w, Some(v));
      frontier := frontier + [w];
      pred := pred[w := Some(v)];
      rank := rank[w := rank[v] + 1];
    } else {
      assert w in Elems(frontier) || w in visited;
    }
  }

  /** A vertex discovered at depth `r` keeps depths lower bounds when no walk reaches it in fewer steps. */
  lemma DiscoverKeepsDepthBound<V(!new), E>(adj: map<V, map<V, E>>, start: V, pred: map<V, Option<V>>, rank: map<V, nat>, w: V, x: Option<V>, r: nat)
    requires rank.Keys == pred.Keys && DepthIsLowerBound(adj, start, pred, rank) && w !in pred
    requires forall p :: WalkBetween(adj, p, start, w) ==> |p| - 1 >= r
    ensures DepthIsLowerBound(adj, start, pred[w := x], rank[w := r])
  {
  }

  /** The queue is ordered by depth, and every depth in it is that of `v` or one more. */
  ghost predicate Band<V>(queue: seq<V>, rank: map<V, nat>, v: V) {
    && v in rank
    && (forall i :: 0 <= i < |queue| ==> queue[i] in rank && rank[v] <= rank[queue[i]] <= rank[v] + 1)
    && (forall i, j :: 0 <= i <= j < |queue| ==> rank[queue[i]] <= rank[queue[j]])
  }

  /** Appending a new vertex one level below `v` keeps the queue in the band of `v`. */
  lemma AppendKeepsBand<V>(queue: seq<V>, rank: map<V, nat>, v: V, w: V)
    requires Band(queue, rank, v) && w !in rank
    ensures Band(queue + [w], rank[w := rank[v] + 1], v)
  {
    var q, rk := queue + [w], rank[w := rank[v] + 1];
    forall i | 0 <= i < |queue| ensures q[i] == queue[i] && rk[q[i]] == rank[queue[i]] {
      assert queue[i] != w;
    }
  }

  /**
   * One successor `w` of the vertex `v` that `bfs` just visited: `Discover`,
   * keeping the depth bounds and the band, given that no walk reaches an
   * undiscovered `w` in fewer steps than one more than the depth of `v`.
   */
  method DiscoverDeeper<V(!new), E>(g: Graph<V, E>, start: V, v: V, w: V, visited: set<V>, queue0: seq<V>, pred0: map<V, Option<V>>, ghost rank0: map<V, nat>)
    returns (queue: seq<V>, pred: map<V, Option<V>>, ghost rank: map<V, nat>)
    requires g.Valid() && v in visited && w in g.Successors(v)
    requires TreeShaped(g.adj, start, pred0, rank0) && DepthIsLowerBound(g.adj, start, pred0, rank0)
    requires Frontier(g.adj, start, visited, queue0, pred0) && Band(queue0, rank0, v)
    requires w !in pred0 ==> forall p :: WalkBetween(g.adj, p, start, w) ==> |p| - 1 >= rank0[v] + 1
    ensures TreeShaped(g.adj, start, pred, rank) && DepthIsLowerBound(g.adj, start, pred, rank)
    ensures Frontier(g.adj, start, visited, queue, pred) && Band(queue, rank, v)
    ensures w in pred && pred0.Keys <= pred.Keys && rank[v] == rank0[v]
  {
    queue, pred, rank := Discover(g, start, v, w, visited, queue0, pred0, rank0);
    if w !in pred0 {
      DiscoverKeepsDepthBound(g.adj, start, pred0, rank0, w, Some(v), rank0[v] + 1);
      AppendKeepsBand(queue0, rank0, v, w);
    }
  }

  /**
   * The inner loop of `bfs`: each successor of the just-visited `v` that is
   * neither visited nor queued joins the back of the queue, one level deeper
   * than `v`, with `v` as its predecessor.
   */
  method EnqueueSuccessors<V(!new), E>(g: Graph<V, E>, start: V, v: V, visited: set<V>, queue0: seq<V>, pred0: map<V, Option<V>>, ghost rank0: map<V, nat>)
    returns (queue: seq<V>, pred: map<V, Option<V>>, ghost rank: map<V, nat>)
    requires g.Valid() && v in visited
    requires TreeShaped(g.adj, start, pred0, rank0) && DepthIsLowerBound(g.adj, start, pred0, rank0)
    requires Frontier(g.adj, start, visited, queue0, pred0) && Band(queue0, rank0, v)
    requires forall x, p :: x !in pred0 && WalkBetween(g.adj, p, start, x) ==> |p| - 1 >= rank0[v] + 1
    ensures TreeShaped(g.adj, start, pred, rank) && DepthIsLowerBound(g.adj, start, pred, rank)
    ensures Frontier(g.adj, start, visited, queue, pred) && Band(queue, rank, v)
    ensures pred0.Keys <= pred.Keys && rank[v] == rank0[v]
    ensures forall w :: w in g.Successors(v) ==> w in pred
  {
    queue, pred, rank := queue0, pred0, rank0;
    var todo := g.Successors(v);
    ghost var done: set<V> := {};
    while todo != {}
      invariant todo + done == g.Successors(v)
      invariant TreeShaped(g.adj, start, pred, rank) && DepthIsLowerBound(g.adj, start, pred, rank)
      invariant Frontier(g.adj, start, visited, queue, pred) && Band(queue, rank, v)
      invariant pred0.Keys <= pred.Keys && rank[v] == rank0[v]
      invariant forall w :: w in done ==> w in pred
    {
      var w :| w in todo;
      queue, pred, rank := DiscoverDeeper(g, start, v, w, visited, queue, pred, rank);
      todo, done := todo - {w}, done + {w};
    }
  }

  /** Every vertex behind the head of a level-ordered queue lies in the band of the head. */
  lemma LevelsBehindHead<V>(queue: seq<V>, rank: map<V, nat>)
    requires Levels(queue, rank) && queue != []
    ensures Band(queue[1..], rank, queue[0])
  {
    assert forall i :: 0 <= i < |queue[1..]| ==> queue[1..][i] == queue[i + 1];
  }

  /** With the head's depth below every undiscovered vertex's distance, as `UndiscoveredIsFarther` shows. */
  lemma UndiscoveredBeyondHead<V(!new), E>(adj: map<V, map<V, E>>, start: V, goal: V, visited: set<V>, queue: seq<V>, pred: map<V, Option<V>>, rank: map<V, nat>)
    requires SearchState(adj, start, goal, visited, queue, pred, rank) && Levels(queue, rank)
    requires DepthIsLowerBound(adj, start, pred, rank) && queue != []
    ensures forall x, p :: x !in pred && WalkBetween(adj, p, start, x) ==> |p| - 1 >= rank[queue[0]] + 1
  {
    forall x, p | x !in pred && WalkBetween(adj, p, start, x) ensures |p| - 1 >= rank[queue[0]] + 1 {
      UndiscoveredIsFarther(adj, start, goal, visited, queue, pred, rank, x, p);
    }
  }

  /**
   * One round of `bfs` for a head that is not the goal: take it off the
   * queue, mark it visited and enqueue its new successors.
   */
  method BfsVisit<V(!new), E>(g: Graph<V, E>, start: V, goal: V, visited0: set<V>, queue0: seq<V>, pred0: map<V, Option<V>>, ghost rank0: map<V, nat>)
    returns (visited: set<V>, queue: seq<V>, pred: map<V, Option<V>>, ghost rank: map<V, nat>)
    requires g.Valid() && queue0 != [] && queue0[0] != goal
    requires SearchState(g.adj, start, goal, visited0, queue0, pred0, rank0) && Levels(queue0, rank0)
    requires DepthIsLowerBound(g.adj, start, pred0, rank0)
    ensures SearchState(g.adj, start, goal, visited, queue, pred, rank) && Levels(queue, rank)
    ensures DepthIsLowerBound(g.adj, start, pred, rank)
    ensures queue0[0] !in visited0 && queue0[0] in g.adj.Keys + {start} && visited == visited0 + {queue0[0]}
  {
    var v := queue0[0];
    UndiscoveredBeyondHead(g.adj, start, goal, visited0, queue0, pred0, rank0);
    VisitFrontier(g.adj, start, visited0, queue0, pred0, 0);
    LevelsBehindHead(queue0, rank0);
    assert queue0[..0] + queue0[1..] == queue0[1..];
    visited, queue, pred, rank := visited0, queue0[1..], pred0, rank0;
    if v !in visited {
      visited := visited + {v};
      queue, pred, rank := EnqueueSuccessors(g, start, v, visited, queue, pred, rank);
      ExpandKeepsDiscovered(g.adj, visited0, v, pred0, pred);
    }
  }

  /**
   * The search loop of `bfs`: repeatedly take the head of the queue, stop on
   * the goal, otherwise mark it visited and enqueue its new successors. The
   * result is the predecessor map, a shortest-path tree in which the goal is
   * present exactly when it is reachable.
   */
  method BfsTree<V(!new), E>(g: Graph<V, E>, start: V, goal: V) returns (pred: map<V, Option<V>>, ghost rank: map<V, nat>)
    requires g.Valid()
    ensures TreeShaped(g.adj, start, pred, rank)
    ensures DepthIsLowerBound(g.adj, start, pred, rank)
    ensures goal in pred <==> Reachable(g.adj, start, goal)
  {
    var visited: set<V> := {};
    var queue := [start];
    pred := map[start := None];
    rank := map[start := 0];
    ghost var found := false;
    while queue != []
      invariant !found
      invariant SearchState(g.adj, start, goal, visited, queue, pred, rank)
      invariant Levels(queue, rank)
      invariant DepthIsLowerBound(g.adj, start, pred, rank)
      decreases (g.adj.Keys + {start}) - visited, |queue|
    {
      if queue[0] == goal {
        found := true;
        break;
      }
      visited, queue, pred, rank := BfsVisit(g, start, goal, visited, queue, pred, rank);
    }
    if found {
      TreeChain(g.adj, start, pred, rank, goal);
    } else {
      forall p | WalkBetween(g.adj, p, start, goal) ensures false {
        ClosedSetHoldsWalk(g.adj, visited, p);
      }
    }
  }

  /**
   * `bfs(grafo, inicio, destino)`: a shortest walk from the start to the goal
   * when there is one; otherwise `[destino]`, where its documentation
   * promises `[]`.
   */
  method Bfs<V(!new), E>(g: Graph<V, E>, start: V, goal: V) returns (path: seq<V>)
    requires g.Valid()
    ensures Reachable(g.adj, start, goal) ==> ShortestWalk(g.adj, path, start, goal) && Distinct(path)
    ensures !Reachable(g.adj, start, goal) ==> path == [goal]
    ensures start == goal ==> path == [start]
  {
    var pred;
    ghost var rank;
    pred, rank := BfsTree(g, start, goal);
    TreeIsRanked(g.adj, start, pred, rank);
    path := ReconstructPath(pred, goal, rank);
    if goal in pred {
      TreeChain(g.adj, start, pred, rank, goal);
      ChainIsSimple(g.adj, start, pred, rank, goal);
    }
  }

  /** `bfs` with the documented result: `[]` exactly when the goal is unreachable. */
  method BfsOrEmpty<V(!new), E>(g: Graph<V, E>, start: V, goal: V) returns (path: seq<V>)
    requires g.Valid()
    ensures Reachable(g.adj, start, goal) ==> ShortestWalk(g.adj, path, start, goal) && Distinct(path)
    ensures path == [] <==> !Reachable(g.adj, start, goal)
  {
    var pred;
    ghost var rank;
    pred, rank := BfsTree(g, start, goal);
    TreeIsRanked(g.adj, start, pred, rank);
    path := ReconstructPathOrEmpty(pred, goal, rank);
    if goal in pred {
      TreeChain(g.adj, start, pred, rank, goal);
      ChainIsSimple(g.adj, start, pred, rank, goal);
    }
  }

  /** The members of a set, each once, in an order the model leaves open. */
  method Enumerate<T>(s: set<T>) returns (r: seq<T>)
    ensures Elems(r) == s && Distinct(r)
  {
    r := [];
    var rest := s;
    while rest != {}
      invariant rest <= s && Elems(r) == s - rest && Distinct(r)
    {
      var x :| x in rest;
      assert forall i :: 0 <= i < |r| ==> r[i] in Elems(r);
      assert Elems(r + [x]) == Elems(r) + {x};
      r := r + [x];
      rest := rest - {x};
    }
  }

  /**
   * The inner loop of `dfs`: the neighbours of the just-visited `v`, listed
   * in some order, are taken in reverse; each that is neither visited nor on
   * the stack is pushed with `v` as its predecessor.
   */
  method PushNeighbours<V(!new), E>(g: Graph<V, E>, start: V, v: V, visited: set<V>, stack0: seq<V>, pred0: map<V, Option<V>>, ghost rank0: map<V, nat>)
    returns (stack: seq<V>, pred: map<V, Option<V>>, ghost rank: map<V, nat>)
    requires g.Valid() && v in visited
    requires TreeShaped(g.adj, start, pred0, rank0)
    requires Frontier(g.adj, start, visited, stack0, pred0)
    ensures TreeShaped(g.adj, start, pred, rank)
    ensures Frontier(g.adj, start, visited, stack, pred)
    ensures pred0.Keys <= pred.Keys
    ensures forall w :: w in g.Successors(v) ==> w in pred
  {
    stack, pred, rank := stack0, pred0, rank0;
    var neighbours := Enumerate(g.Successors(v));
    var i := |neighbours|;
    while i > 0
      invariant 0 <= i <= |neighbours|
      invariant TreeShaped(g.adj, start, pred, rank)
      invariant Frontier(g.adj, start, visited, stack, pred)
      invariant pred0.Keys <= pred.Keys
      invariant forall k :: i <= k < |neighbours| ==> neighbours[k] in pred
    {
      i := i - 1;
      assert neighbours[i] in Elems(neighbours);
      stack, pred, rank := Discover(g, start, v, neighbours[i], visited, stack, pred, rank);
    }
    forall w | w in g.Successors(v) ensures w in pred {
      assert w in Elems(neighbours);
    }
  }

  /**
   * The search loop of `dfs`: as `bfs`, but the frontier is a stack. The goal
   * is in the resulting tree exactly when it is reachable.
   */
  method DfsTree<V(!new), E>(g: Graph<V, E>, start: V, goal: V) returns (pred: map<V, Option<V>>, ghost rank: map<V, nat>)
    requires g.Valid()
    ensures TreeShaped(g.adj, start, pred, rank)
    ensures goal in pred <==> Reachable(g.adj, start, goal)
  {
    var visited: set<V> := {};
    var stack := [start];
    pred := map[start := None];
    rank := map[start := 0];
    ghost var found := false;
    while stack != []
      invariant !found
      invariant SearchState(g.adj, start, goal, visited, stack, pred, rank)
      decreases (g.adj.Keys + {start}) - visited, |stack|
    {
      var v := stack[|stack| - 1];
      VisitFrontier(g.adj, start, visited, stack, pred, |stack| - 1);
      assert stack[..|stack| - 1] + stack[|stack|..] == stack[..|stack| - 1];
      stack := stack[..|stack| - 1];
      if v == goal {
        found := true;
        break;
      }
      if v !in visited {
        ghost var pred0 := pred;
        visited := visited + {v};
        stack, pred, rank := PushNeighbours(g, start, v, visited, stack, pred, rank);
        ExpandKeepsDiscovered(g.adj, visited - {v}, v, pred0, pred);
      }
    }
    if found {
      TreeChain(g.adj, start, pred, rank, goal);
    } else {
      forall p | WalkBetween(g.adj, p, start, goal) ensures false {
        ClosedSetHoldsWalk(g.adj, visited, p);
      }
    }
  }

  /**
   * `dfs(grafo, inicio, destino)`: some walk from the start to the goal that
   * repeats no vertex when there is one; otherwise `[destino]`.
   */
  method Dfs<V(!new), E>(g: Graph<V, E>, start: V, goal: V) returns (path: seq<V>)
    requires g.Valid()
    ensures Reachable(g.adj, start, goal) ==> WalkBetween(g.adj, path, start, goal) && Distinct(path)
    ensures !Reachable(g.adj, start, goal) ==> path == [goal]
    ensures start == goal ==> path == [start]
  {
    var pred;
    ghost var rank;
    pred, rank := DfsTree(g, start, goal);
    TreeIsRanked(g.adj, start, pred, rank);
    path := ReconstructPath(pred, goal, rank);
    if goal in pred {
      TreeChain(g.adj, start, pred, rank, goal);
      ChainIsSimple(g.adj, start, pred, rank, goal);
    }
  }

  /** `dfs` with the documented result: `[]` exactly when the goal is unreachable. */
  method DfsOrEmpty<V(!new), E>(g: Graph<V, E>, start: V, goal: V) returns (path: seq<V>)
    requires g.Valid()
    ensures Reachable(g.adj, start, goal) ==> WalkBetween(g.adj, path, start, goal) && Distinct(path)
    ensures path == [] <==> !Reachable(g.adj, start, goal)
  {
    var pred;
    ghost var rank;
    pred, rank := DfsTree(g, start, goal);
    TreeIsRanked(g.adj, start, pred, rank);
    path := ReconstructPathOrEmpty(pred, goal, rank);
    if goal in pred {
      TreeChain(g.adj, start, pred, rank, goal);
      ChainIsSimple(g.adj, start, pred, rank, goal);
    }
  }
}
