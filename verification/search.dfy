/** Shortest-trace search (GraphProcessing.dijkstraSearch and
    shortestTraceLength): Dijkstra's algorithm with an exit as soon as the
    target is first relaxed, and the cycle search for start == end. */
module Search {
  import opened Graph

  /** The selection loop: scan the frontier, keeping a node only when it is
      strictly closer than the one kept so far. The scan order of a HashSet
      is unspecified, so any closest node may come out. */
  method Closest(frontier: set<Node>, dist: map<Node, nat>) returns (c: Node)
    requires frontier != {} && frontier <= dist.Keys
    ensures c in frontier
    ensures forall x :: x in frontier ==> dist[c] <= dist[x]
  {
    var todo := frontier;
    c :| c in todo;
    todo := todo - {c};
    while todo != {}
      invariant todo <= frontier && c in frontier
      invariant forall x :: x in frontier - todo ==> dist[c] <= dist[x]
      decreases todo
    {
      var x :| x in todo;
      if dist[x] < dist[c] {
        c := x;
      }
      todo := todo - {x};
    }
  }

  lemma CostOfEdge(g: Graph, a: Node, b: Node)
    requires HasEdge(g, a, b)
    ensures IsWalk(g, [a, b]) && Cost(g, [a, b]) == Weight(g, a, b)
  {
    assert [a, b][..1] == [a];
  }

  /** Every tentative distance is the cost of the walk recorded for it. */
  ghost predicate Witnessed(g: Graph, start: Node, dist: map<Node, nat>, paths: map<Node, seq<Node>>)
  {
    paths.Keys == dist.Keys &&
    forall v :: v in dist ==> WalkFromTo(g, paths[v], start, v) && Cost(g, paths[v]) == dist[v]
  }

  /** Reaching peer through current keeps every distance witnessed. */
  lemma WitnessedExtend(g: Graph, start: Node, dist: map<Node, nat>, paths: map<Node, seq<Node>>,
                        current: Node, peer: Node)
    requires Witnessed(g, start, dist, paths) && current in dist && HasEdge(g, current, peer)
    ensures Witnessed(g, start, dist[peer := dist[current] + g[current][peer]],
                      paths[peer := paths[current] + [peer]])
  {
    CostAppend(g, paths[current], peer);
  }

  /** Every settled node carries its exact distance from start. */
  ghost predicate SettledExact(g: Graph, start: Node, settled: set<Node>, dist: map<Node, nat>)
  {
    settled <= dist.Keys && forall v :: v in settled ==> NoCheaperWalk(g, start, v, dist[v])
  }

  /** Every edge from v to an unsettled node has been relaxed: its target
      is on the frontier, no farther than through v. */
  ghost predicate RelaxedFrom(g: Graph, settled: set<Node>, frontier: set<Node>, dist: map<Node, nat>, v: Node)
  {
    v in dist &&
    forall u :: HasEdge(g, v, u) && u !in settled ==>
      u in frontier && u in dist && dist[u] <= dist[v] + g[v][u]
  }

  /** Settling more nodes, growing the frontier and lowering tentative
      distances keeps an earlier node's edges relaxed. */
  lemma RelaxedKept(g: Graph, settled: set<Node>, frontier: set<Node>, dist: map<Node, nat>,
                    settled': set<Node>, frontier': set<Node>, dist': map<Node, nat>, v: Node)
    requires RelaxedFrom(g, settled, frontier, dist, v)
    requires settled <= settled' && frontier - settled' <= frontier'
    requires v in dist' && dist'[v] == dist[v]
    requires frontier - settled' <= dist.Keys
    requires forall u :: u in frontier - settled' ==> u in dist' && dist'[u] <= dist[u]
    ensures RelaxedFrom(g, settled', frontier', dist', v)
  {
  }

  /** No walk from start to a node outside the settled set costs less
      than c's distance. */
  ghost predicate NearestOutside(g: Graph, start: Node, settled: set<Node>, dist: map<Node, nat>, c: Node)
  {
    c in dist && forall u, w :: u !in settled && WalkFromTo(g, w, start, u) ==> Cost(g, w) >= dist[c]
  }

  /** The frontier node of least tentative distance is nearest among the
      unsettled nodes, so its own distance is exact: every walk to an
      unsettled node leaves the settled set along an edge that has already
      been relaxed, so it costs at least that edge's target's distance. */
  lemma ClosestIsShortest(g: Graph, start: Node, settled: set<Node>, frontier: set<Node>,
                          dist: map<Node, nat>, c: Node)
    requires start in settled && frontier <= dist.Keys
    requires SettledExact(g, start, settled, dist)
    requires forall v :: v in settled ==> RelaxedFrom(g, settled, frontier, dist, v)
    requires c in frontier && c !in settled
    requires forall x :: x in frontier ==> dist[c] <= dist[x]
    ensures NearestOutside(g, start, settled, dist, c)
    ensures NoCheaperWalk(g, start, c, dist[c])
  {
    forall u, w | u !in settled && WalkFromTo(g, w, start, u) ensures Cost(g, w) >= dist[c] {
      var i := ExitEdge(g, w, settled);
      CostSplit(g, w, i);
      var tail := w[i..];
      CostSplit(g, tail, 1);
      assert tail[..2] == [w[i], w[i + 1]];
      CostOfEdge(g, w[i], w[i + 1]);
      assert WalkFromTo(g, w[..i + 1], start, w[i]);
      assert RelaxedFrom(g, settled, frontier, dist, w[i]);
    }
  }

  /** The state of the loop over current's out-edges once the peers outside
      todo have been handled: what RelaxEdges promises, for those peers. */
  ghost predicate Relaxing(g: Graph, start: Node, end: Node, current: Node, settled: set<Node>,
                           frontier0: set<Node>, dist0: map<Node, nat>, todo: set<Node>, found: bool,
                           frontier: set<Node>, dist: map<Node, nat>, paths: map<Node, seq<Node>>)
    requires current in g && current in settled
  {
    todo <= g[current].Keys && dist0.Keys == settled + frontier0 &&
    frontier0 <= frontier <= g.Keys && settled !! frontier &&
    dist.Keys == settled + frontier &&
    (forall v :: v in settled ==> dist[v] == dist0[v]) &&
    (forall u :: u in frontier0 ==> dist[u] <= dist0[u]) &&
    Witnessed(g, start, dist, paths) &&
    (forall u :: u in g[current] && u !in todo && u !in settled ==>
      u in frontier && dist[u] <= dist[current] + g[current][u]) &&
    (!found && start != end ==> end !in frontier) &&
    (found ==> (start != end && HasEdge(g, current, end) &&
      end in dist && dist[end] == dist[current] + g[current][end]))
  }

  /** One pass of the loop over current's out-edges, for the edge to peer:
      a settled peer is skipped; otherwise it joins the frontier, its
      tentative distance drops when going through current is shorter, and
      reaching `end` stops the loop. */
  method RelaxEdge(g: Graph, start: Node, end: Node, current: Node, settled: set<Node>,
                   frontier0: set<Node>, dist0: map<Node, nat>, todo: set<Node>, peer: Node,
                   frontier1: set<Node>, dist1: map<Node, nat>, ghost paths1: map<Node, seq<Node>>)
    returns (found: bool, frontier: set<Node>, dist: map<Node, nat>, ghost paths: map<Node, seq<Node>>)
    requires Closed(g) && current in g && current in settled && start in settled
    requires start != end ==> end !in settled
    requires peer in todo
    requires Relaxing(g, start, end, current, settled, frontier0, dist0, todo, false, frontier1, dist1, paths1)
    ensures Relaxing(g, start, end, current, settled, frontier0, dist0, todo - {peer}, found, frontier, dist, paths)
    ensures found <==> peer == end && start != end
  {
    found, frontier, dist, paths := false, frontier1, dist1, paths1;
    if peer !in settled {
      var newDistance := dist[current] + g[current][peer];
      var improves := peer !in dist || newDistance < dist[peer];
      if improves {
        WitnessedExtend(g, start, dist, paths, current, peer);
        dist := dist[peer := newDistance];
        paths := paths[peer := paths[current] + [peer]];
      }
      frontier := frontier + {peer};
      if peer == end {
        assert improves;
        found := true;
      }
    }
    forall u | u in g[current] && u !in todo - {peer} && u !in settled
      ensures u in frontier && dist[u] <= dist[current] + g[current][u]
    {
      if u != peer {
        assert u !in todo && u in frontier1 && dist1[u] <= dist1[current] + g[current][u];
      }
    }
  }

  /** What the loop over current's out-edges leaves behind: the frontier
      only grew, settled distances stayed and tentative ones only fell, and
      either every edge out of current was relaxed or the edge into `end`
      was found. */
  ghost predicate Relaxed(g: Graph, start: Node, end: Node, current: Node, settled: set<Node>,
                          frontier0: set<Node>, dist0: map<Node, nat>, found: bool,
                          frontier: set<Node>, dist: map<Node, nat>, paths: map<Node, seq<Node>>)
  {
    current in settled && dist0.Keys == settled + frontier0 &&
    frontier0 <= frontier <= g.Keys && settled !! frontier &&
    dist.Keys == settled + frontier &&
    (forall v :: v in settled ==> dist[v] == dist0[v]) &&
    (forall u :: u in frontier0 ==> dist[u] <= dist0[u]) &&
    Witnessed(g, start, dist, paths) &&
    (!found ==> RelaxedFrom(g, settled, frontier, dist, current)) &&
    (!found && start != end ==> end !in frontier) &&
    (found ==> (start != end && HasEdge(g, current, end) &&
      end in dist && dist[end] == dist[current] + g[current][end]))
  }

  /** The loop over the out-edges of the node just settled, stopping at
      the first edge into `end`. */
  method RelaxEdges(g: Graph, start: Node, end: Node, current: Node, settled: set<Node>,
                    frontier0: set<Node>, dist0: map<Node, nat>, ghost paths0: map<Node, seq<Node>>)
    returns (found: bool, frontier: set<Node>, dist: map<Node, nat>, ghost paths: map<Node, seq<Node>>)
    requires Closed(g) && current in g && current in settled && start in settled
    requires settled <= g.Keys && frontier0 <= g.Keys && settled !! frontier0
    requires dist0.Keys == settled + frontier0
    requires Witnessed(g, start, dist0, paths0)
    requires start != end ==> end !in settled && end !in frontier0
    ensures Relaxed(g, start, end, current, settled, frontier0, dist0, found, frontier, dist, paths)
  {
    found, frontier, dist, paths := false, frontier0, dist0, paths0;
    var todo := g[current].Keys;
    while todo != {} && !found
      invariant Relaxing(g, start, end, current, settled, frontier0, dist0, todo, found, frontier, dist, paths)
      decreases todo
    {
      var peer :| peer in todo;
      found, frontier, dist, paths :=
        RelaxEdge(g, start, end, current, settled, frontier0, dist0, todo, peer, frontier, dist, paths);
      todo := todo - {peer};
    }
  }

  /** The state at the head of the search loop: `current` is the node
      about to be visited, already at its exact distance. The distance map
      leaves out the nodes Java keeps at Integer.MAX_VALUE. */
  ghost predicate Searching(g: Graph, start: Node, end: Node, settled: set<Node>, frontier: set<Node>,
                            current: Node, dist: map<Node, nat>, paths: map<Node, seq<Node>>)
  {
    SearchShape(g, start, end, settled, frontier, current, dist) &&
    SearchExact(g, start, settled, frontier, current, dist, paths)
  }

  /** The sets and keys of the search state. */
  ghost predicate SearchShape(g: Graph, start: Node, end: Node, settled: set<Node>, frontier: set<Node>,
                              current: Node, dist: map<Node, nat>)
  {
    settled <= g.Keys && frontier <= g.Keys && current in g &&
    current !in settled && settled !! frontier &&
    (settled == {} ==> current == start && frontier == {}) &&
    (settled != {} ==> start in settled && current in frontier) &&
    dist.Keys == settled + frontier + {start} && dist[start] == 0 &&
    (start != end ==> end !in settled && end !in frontier)
  }

  /** The distances of the search state: all witnessed, exact for the
      settled nodes and for current, and every settled node's edges
      relaxed. */
  ghost predicate SearchExact(g: Graph, start: Node, settled: set<Node>, frontier: set<Node>,
                              current: Node, dist: map<Node, nat>, paths: map<Node, seq<Node>>)
  {
    current in dist &&
    Witnessed(g, start, dist, paths) &&
    SettledExact(g, start, settled, dist) &&
    NoCheaperWalk(g, start, current, dist[current]) &&
    NearestOutside(g, start, settled, dist, current) &&
    (forall v :: v in settled ==> RelaxedFrom(g, settled, frontier, dist, v))
  }

  /** end is reached by exactly one edge out of the settled set, from c,
      and its distance is the one through that edge. */
  ghost predicate EnteredOnlyFrom(g: Graph, start: Node, settled: set<Node>, dist: map<Node, nat>, end: Node, c: Node)
  {
    c in settled && HasEdge(g, c, end) && c in dist && end in dist &&
    dist[end] == dist[c] + Weight(g, c, end) &&
    (forall v :: v in settled && v != c ==> !HasEdge(g, v, end)) &&
    NearestOutside(g, start, settled, dist, c)
  }

  /** The state when the search loop stops: either `end` was reached by a
      relaxed edge (`found`), from exactly one settled node, or the
      frontier ran dry and the settled set is closed under edges. */
  ghost predicate Stopped(g: Graph, start: Node, end: Node, settled: set<Node>,
                          dist: map<Node, nat>, paths: map<Node, seq<Node>>, found: bool)
  {
    start in settled && settled <= g.Keys && settled <= dist.Keys &&
    start in dist && dist[start] == 0 &&
    Witnessed(g, start, dist, paths) &&
    SettledExact(g, start, settled, dist) &&
    (!found ==> forall v, u :: v in settled && HasEdge(g, v, u) ==> u in settled) &&
    (!found && start != end ==> end !in dist) &&
    (found ==> start != end && end in dist && end !in settled) &&
    (found ==> exists c :: EnteredOnlyFrom(g, start, settled, dist, end, c))
  }

  /** Settling current, at the exact distance it was picked with, keeps
      every settled distance exact. */
  lemma SettleCurrent(g: Graph, start: Node, end: Node, settled0: set<Node>, frontier0: set<Node>,
                      current: Node, dist0: map<Node, nat>, paths0: map<Node, seq<Node>>, found: bool,
                      frontier: set<Node>, dist: map<Node, nat>, paths: map<Node, seq<Node>>)
    requires Searching(g, start, end, settled0, frontier0, current, dist0, paths0)
    requires Relaxed(g, start, end, current, settled0 + {current}, frontier0 - {current}, dist0,
                     found, frontier, dist, paths)
    ensures SettledExact(g, start, settled0 + {current}, dist)
  {
  }

  /** Visiting current keeps the edges of the nodes settled before it
      relaxed. */
  lemma VisitKeepsRelaxed(g: Graph, start: Node, end: Node, settled0: set<Node>, frontier0: set<Node>,
                          current: Node, dist0: map<Node, nat>, paths0: map<Node, seq<Node>>, found: bool,
                          frontier: set<Node>, dist: map<Node, nat>, paths: map<Node, seq<Node>>)
    requires Searching(g, start, end, settled0, frontier0, current, dist0, paths0)
    requires Relaxed(g, start, end, current, settled0 + {current}, frontier0 - {current}, dist0,
                     found, frontier, dist, paths)
    ensures forall v :: v in settled0 ==> RelaxedFrom(g, settled0 + {current}, frontier, dist, v)
  {
    forall v | v in settled0 ensures RelaxedFrom(g, settled0 + {current}, frontier, dist, v) {
      RelaxedKept(g, settled0, frontier0, dist0, settled0 + {current}, frontier, dist, v);
    }
  }

  /** The search stops after visiting current when the edge into `end` was
      found or the frontier is empty. */
  lemma VisitStops(g: Graph, start: Node, end: Node, settled0: set<Node>, frontier0: set<Node>,
                   current: Node, dist0: map<Node, nat>, paths0: map<Node, seq<Node>>, found: bool,
                   frontier: set<Node>, dist: map<Node, nat>, paths: map<Node, seq<Node>>)
    requires Searching(g, start, end, settled0, frontier0, current, dist0, paths0)
    requires Relaxed(g, start, end, current, settled0 + {current}, frontier0 - {current}, dist0,
                     found, frontier, dist, paths)
    requires found || frontier == {}
    ensures Stopped(g, start, end, settled0 + {current}, dist, paths, found)
  {
    SettleCurrent(g, start, end, settled0, frontier0, current, dist0, paths0, found, frontier, dist, paths);
    if found {
      EnteredFromCurrent(g, start, end, settled0, frontier0, current, dist0, paths0, frontier, dist, paths);
    } else {
      StopsClosed(g, start, end, settled0, frontier0, current, dist0, paths0, frontier, dist, paths);
    }
  }

  /** With the frontier empty and every settled node's edges relaxed, no
      edge leaves the settled set. */
  lemma StopsClosed(g: Graph, start: Node, end: Node, settled0: set<Node>, frontier0: set<Node>,
                    current: Node, dist0: map<Node, nat>, paths0: map<Node, seq<Node>>,
                    frontier: set<Node>, dist: map<Node, nat>, paths: map<Node, seq<Node>>)
    requires Searching(g, start, end, settled0, frontier0, current, dist0, paths0)
    requires Relaxed(g, start, end, current, settled0 + {current}, frontier0 - {current}, dist0,
                     false, frontier, dist, paths)
    requires frontier == {}
    ensures forall v, u :: v in settled0 + {current} && HasEdge(g, v, u) ==> u in settled0 + {current}
  {
    VisitKeepsRelaxed(g, start, end, settled0, frontier0, current, dist0, paths0, false, frontier, dist, paths);
  }

  /** When the edge into `end` is found, current is the only settled node
      with an edge to `end`: the earlier ones would have put it on the
      frontier. */
  lemma EnteredFromCurrent(g: Graph, start: Node, end: Node, settled0: set<Node>, frontier0: set<Node>,
                           current: Node, dist0: map<Node, nat>, paths0: map<Node, seq<Node>>,
                           frontier: set<Node>, dist: map<Node, nat>, paths: map<Node, seq<Node>>)
    requires Searching(g, start, end, settled0, frontier0, current, dist0, paths0)
    requires Relaxed(g, start, end, current, settled0 + {current}, frontier0 - {current}, dist0,
                     true, frontier, dist, paths)
    ensures EnteredOnlyFrom(g, start, settled0 + {current}, dist, end, current)
  {
    forall v | v in settled0 ensures !HasEdge(g, v, end) {
      assert RelaxedFrom(g, settled0, frontier0, dist0, v);
    }
  }

  /** Otherwise the closest frontier node is visited next, at its exact
      distance. */
  lemma VisitContinues(g: Graph, start: Node, end: Node, settled0: set<Node>, frontier0: set<Node>,
                       current: Node, dist0: map<Node, nat>, paths0: map<Node, seq<Node>>,
                       frontier: set<Node>, dist: map<Node, nat>, paths: map<Node, seq<Node>>, next: Node)
    requires Searching(g, start, end, settled0, frontier0, current, dist0, paths0)
    requires Relaxed(g, start, end, current, settled0 + {current}, frontier0 - {current}, dist0,
                     false, frontier, dist, paths)
    requires next in frontier && forall x :: x in frontier ==> dist[next] <= dist[x]
    ensures Searching(g, start, end, settled0 + {current}, frontier, next, dist, paths)
  {
    ShapeContinues(g, start, end, settled0, frontier0, current, dist0, paths0, frontier, dist, paths, next);
    ExactContinues(g, start, end, settled0, frontier0, current, dist0, paths0, frontier, dist, paths, next);
  }

  lemma ShapeContinues(g: Graph, start: Node, end: Node, settled0: set<Node>, frontier0: set<Node>,
                       current: Node, dist0: map<Node, nat>, paths0: map<Node, seq<Node>>,
                       frontier: set<Node>, dist: map<Node, nat>, paths: map<Node, seq<Node>>, next: Node)
    requires SearchShape(g, start, end, settled0, frontier0, current, dist0)
    requires Relaxed(g, start, end, current, settled0 + {current}, frontier0 - {current}, dist0,
                     false, frontier, dist, paths)
    requires next in frontier
    ensures SearchShape(g, start, end, settled0 + {current}, frontier, next, dist)
  {
  }

  lemma ExactContinues(g: Graph, start: Node, end: Node, settled0: set<Node>, frontier0: set<Node>,
                       current: Node, dist0: map<Node, nat>, paths0: map<Node, seq<Node>>,
                       frontier: set<Node>, dist: map<Node, nat>, paths: map<Node, seq<Node>>, next: Node)
    requires Searching(g, start, end, settled0, frontier0, current, dist0, paths0)
    requires Relaxed(g, start, end, current, settled0 + {current}, frontier0 - {current}, dist0,
                     false, frontier, dist, paths)
    requires next in frontier && forall x :: x in frontier ==> dist[next] <= dist[x]
    ensures SearchExact(g, start, settled0 + {current}, frontier, next, dist, paths)
  {
    var settled := settled0 + {current};
    SettleCurrent(g, start, end, settled0, frontier0, current, dist0, paths0, false, frontier, dist, paths);
    VisitKeepsRelaxed(g, start, end, settled0, frontier0, current, dist0, paths0, false, frontier, dist, paths);
    ClosestIsShortest(g, start, settled, frontier, dist, next);
  }

  /** One pass of the search loop: visit current, relax its edges, and
      either stop or pick a closest frontier node to visit next. */
  method Visit(g: Graph, start: Node, end: Node, settled0: set<Node>, frontier0: set<Node>,
               current: Node, dist0: map<Node, nat>, ghost paths0: map<Node, seq<Node>>)
    returns (done: bool, found: bool, settled: set<Node>, frontier: set<Node>, next: Node,
             dist: map<Node, nat>, ghost paths: map<Node, seq<Node>>)
    requires Closed(g) && Searching(g, start, end, settled0, frontier0, current, dist0, paths0)
    ensures settled == settled0 + {current}
    ensures done ==> Stopped(g, start, end, settled, dist, paths, found)
    ensures !done ==> Searching(g, start, end, settled, frontier, next, dist, paths)
  {
    settled := settled0 + {current};
    // Java takes current off the frontier after relaxing its edges; no
    // edge re-adds a settled node, so doing it first changes nothing.
    frontier := frontier0 - {current};
    found, frontier, dist, paths := RelaxEdges(g, start, end, current, settled, frontier, dist0, paths0);
    next := current;
    if found || frontier == {} {
      VisitStops(g, start, end, settled0, frontier0, current, dist0, paths0, found, frontier, dist, paths);
      done := true;
    } else {
      next := Closest(frontier, dist);
      VisitContinues(g, start, end, settled0, frontier0, current, dist0, paths0, frontier, dist, paths, next);
      done := false;
    }
  }

  /** The search loop, from start until `end` is reached by a relaxed edge
      or no unvisited node is left on the frontier. */
  method Settle(g: Graph, start: Node, end: Node)
    returns (dist: map<Node, nat>, settled: set<Node>, found: bool)
    requires Closed(g) && start in g
    ensures start in settled && settled <= g.Keys && settled <= dist.Keys
    ensures start in dist && dist[start] == 0
    ensures forall v :: v in dist ==> exists w :: WalkFromTo(g, w, start, v) && Cost(g, w) == dist[v]
    ensures forall v :: v in settled ==> NoCheaperWalk(g, start, v, dist[v])
    ensures !found ==> forall v, u :: v in settled && HasEdge(g, v, u) ==> u in settled
    ensures !found && start != end ==> end !in dist
    ensures found ==> start != end && end in dist && end !in settled
    ensures found ==> exists c :: EnteredOnlyFrom(g, start, settled, dist, end, c)
  {
    dist := map[start := 0];
    settled := {};
    var frontier: set<Node> := {};
    var current := start;
    ghost var paths: map<Node, seq<Node>> := map[start := [start]];
    assert [start][..0] == [];
    while true
      invariant Searching(g, start, end, settled, frontier, current, dist, paths)
      decreases g.Keys - settled
    {
      var done;
      done, found, settled, frontier, current, dist, paths :=
        Visit(g, start, end, settled, frontier, current, dist, paths);
      if done {
        break;
      }
    }
    forall v | v in dist ensures exists w :: WalkFromTo(g, w, start, v) && Cost(g, w) == dist[v] {
      assert WalkFromTo(g, paths[v], start, v);
    }
  }

  /** c is an in-neighbour of end at least distance d from start, and no
      other in-neighbour of end is nearer. */
  ghost predicate NearestEntry(g: Graph, start: Node, end: Node, c: Node, d: nat)
  {
    HasEdge(g, c, end) && ShortestDistance(g, start, c, d) &&
    forall u, d': nat :: HasEdge(g, u, end) && ShortestDistance(g, start, u, d') ==> d <= d'
  }

  /** The settled node through which the search reached end is a nearest
      in-neighbour of end: the other settled nodes have no edge to end, and
      every unsettled node is at least as far. */
  lemma EntryIsNearest(g: Graph, start: Node, settled: set<Node>, dist: map<Node, nat>, end: Node, c: Node)
    requires EnteredOnlyFrom(g, start, settled, dist, end, c)
    requires NoCheaperWalk(g, start, c, dist[c])
    requires exists w :: WalkFromTo(g, w, start, c) && Cost(g, w) == dist[c]
    ensures NearestEntry(g, start, end, c, dist[c])
  {
    forall u, d': nat | HasEdge(g, u, end) && ShortestDistance(g, start, u, d') ensures dist[c] <= d' {
      var w :| WalkFromTo(g, w, start, u) && Cost(g, w) == d';
      if u in settled {
        assert u == c;
      }
    }
  }

  /** dijkstraSearch(start, end): None stands for Integer.MAX_VALUE. A
      result is the cost of a real walk, but because the search stops at
      the first relaxation of `end` it need not be the least one: it is the
      exact distance of a nearest in-neighbour of `end`, plus the edge
      from it. */
  method DijkstraSearch(g: Graph, start: Node, end: Node) returns (r: Option<nat>)
    requires Closed(g) && start in g
    ensures start == end ==> r == Some(0)
    ensures start != end ==> (r.None? <==> !Reachable(g, start, end))
    ensures r.Some? ==> exists w :: WalkFromTo(g, w, start, end) && Cost(g, w) == r.value
    ensures start != end && r.Some? ==> exists c, d: nat ::
      NearestEntry(g, start, end, c, d) && r.value == d + Weight(g, c, end)
    ensures start != end && HasEdge(g, start, end) ==> r == Some(Weight(g, start, end))
  {
    var dist, settled, found := Settle(g, start, end);
    r := if end in dist then Some(dist[end]) else None;
    if start != end {
      if found {
        ghost var c :| EnteredOnlyFrom(g, start, settled, dist, end, c);
        EntryIsNearest(g, start, settled, dist, end, c);
      } else {
        ClosedSetTraps(g, settled, start, end);
      }
    }
  }

  /** The search with its stopping test moved to where Dijkstra's
      algorithm allows it: stop when `end` is the node picked to be
      visited, not when an edge into it is first relaxed. Relaxing never
      reports a target here (the target passed to Visit is start itself,
      which is settled from the first pass on). The result is the least
      cost of a walk. */
  method SettledSearch(g: Graph, start: Node, end: Node) returns (r: Option<nat>)
    requires Closed(g) && start in g
    ensures r.None? <==> !Reachable(g, start, end)
    ensures r.Some? ==> ShortestDistance(g, start, end, r.value)
  {
    var dist: map<Node, nat> := map[start := 0];
    var settled: set<Node> := {};
    var frontier: set<Node> := {};
    var current := start;
    ghost var paths: map<Node, seq<Node>> := map[start := [start]];
    assert [start][..0] == [];
    while current != end
      invariant Searching(g, start, start, settled, frontier, current, dist, paths)
      invariant end !in settled
      decreases g.Keys - settled
    {
      var done, found;
      done, found, settled, frontier, current, dist, paths :=
        Visit(g, start, start, settled, frontier, current, dist, paths);
      if done {
        ClosedSetTraps(g, settled, start, end);
        return None;
      }
    }
    assert WalkFromTo(g, paths[end], start, end);
    return Some(dist[end]);
  }

  /** The running value of the loop over the start node's neighbours:
      Unset is the initial Integer.MAX_VALUE, Best a real latency, Wrapped
      the negative value that MAX_VALUE + latency wraps to. */
  datatype Tally = Unset | Best(latency: nat) | Wrapped

  /** One round: add the edge latency to the neighbour's search result and
      keep the sum when it compares below the running value. An unreachable
      neighbour behind an edge of latency >= 1 overflows to a negative value,
      which wins every later comparison. */
  function Absorb(t: Tally, weight: nat, found: Option<nat>): (t': Tally)
    ensures found.None? && weight >= 1 ==> t' == Wrapped
    ensures found.None? && weight == 0 ==> t' == t
    ensures t.Wrapped? ==> t' == Wrapped
    ensures found.Some? && !t.Wrapped? ==> (t'.Best? &&
      t'.latency <= found.value + weight &&
      (t'.latency == found.value + weight || (t.Best? && t'.latency == t.latency)))
    ensures found.Some? && t.Best? ==> t'.latency <= t.latency
  {
    match found
    case None => if weight >= 1 then Wrapped else t
    case Some(d) =>
      match t
      case Unset => Best(d + weight)
      case Best(b) => if d + weight < b then Best(d + weight) else t
      case Wrapped => t
  }

  /** Some neighbour n of s behind an edge of latency >= 1 cannot get back
      to s. */
  ghost predicate Poisoned(g: Graph, s: Node)
    requires s in g
  {
    exists n :: n in g[s] && g[s][n] >= 1 && !Reachable(g, n, s)
  }

  /** v is a value DijkstraSearch's contract allows for (n, s) for a reachable s: 0
      when n is s, otherwise the distance of a nearest in-neighbour of s
      plus its edge. */
  ghost predicate SearchValue(g: Graph, n: Node, s: Node, v: nat)
  {
    (n == s && v == 0) ||
    (n != s && exists c, d: nat :: NearestEntry(g, n, s, c, d) && v == d + Weight(g, c, s))
  }

  /** What dijkstraSearch(n, s) tells about the way from n back to s:
      nothing exactly when there is none, otherwise the cost of a real walk
      that the search may report, the direct edge when there is one. */
  ghost predicate Recorded(g: Graph, s: Node, n: Node, d: Option<nat>)
  {
    (d.None? <==> !Reachable(g, n, s)) &&
    (d.Some? ==> exists w :: WalkFromTo(g, w, n, s) && Cost(g, w) == d.value) &&
    (d.Some? ==> SearchValue(g, n, s, d.value)) &&
    (HasEdge(g, n, s) ==> d == Some(if n == s then 0 else g[n][s]))
  }

  /** The running value after the neighbours in res: wrapped exactly when
      one of them is poisoned, otherwise the least latency(s, n) + result
      over the neighbours that got back to s, if any did. */
  ghost predicate TallyOf(g: Graph, s: Node, res: map<Node, Option<nat>>, t: Tally)
    requires s in g && res.Keys <= g[s].Keys
  {
    (t.Wrapped? <==> exists n :: n in res && g[s][n] >= 1 && res[n].None?) &&
    (t.Unset? ==> forall n :: n in res ==> res[n].None?) &&
    (t.Best? ==> exists n :: n in res && res[n].Some? && t.latency == g[s][n] + res[n].value) &&
    (t.Best? ==> forall n :: n in res && res[n].Some? ==> t.latency <= g[s][n] + res[n].value) &&
    (!t.Wrapped? && (exists n :: n in res && res[n].Some?) ==> t.Best?)
  }

  /** Absorbing one more neighbour's result keeps the running value in step. */
  lemma AbsorbStep(g: Graph, s: Node, res: map<Node, Option<nat>>, t: Tally, n: Node, d: Option<nat>)
    requires s in g && res.Keys <= g[s].Keys && n in g[s] && n !in res
    requires TallyOf(g, s, res, t)
    ensures TallyOf(g, s, res[n := d], Absorb(t, g[s][n], d))
  {
    var res', t' := res[n := d], Absorb(t, g[s][n], d);
    if t'.Best? {
      if d.Some? && t'.latency == g[s][n] + d.value {
        assert n in res' && res'[n].Some? && t'.latency == g[s][n] + res'[n].value;
      } else {
        var m :| m in res && res[m].Some? && t.latency == g[s][m] + res[m].value;
        assert m in res' && res'[m].Some? && t'.latency == g[s][m] + res'[m].value;
      }
    }
    if !t'.Wrapped? && (exists m :: m in res' && res'[m].Some?) {
      var m :| m in res' && res'[m].Some?;
      if m != n {
        assert m in res && res[m].Some?;
      }
    }
    if t'.Wrapped? && !t.Wrapped? {
      assert n in res' && g[s][n] >= 1 && res'[n].None?;
    }
  }

  /** The loop of shortestTraceLength(s, s) over the neighbours of s,
      searching from each of them back to s. */
  method CycleSearch(g: Graph, s: Node) returns (t: Tally, ghost res: map<Node, Option<nat>>)
    requires Closed(g) && s in g
    ensures res.Keys == g[s].Keys
    ensures forall n :: n in res ==> Recorded(g, s, n, res[n])
    ensures TallyOf(g, s, res, t)
  {
    t := Unset;
    var todo := g[s].Keys;
    res := map[];
    while todo != {}
      invariant todo <= g[s].Keys && res.Keys == g[s].Keys - todo
      invariant forall n :: n in res ==> Recorded(g, s, n, res[n])
      invariant TallyOf(g, s, res, t)
      decreases todo
    {
      var n :| n in todo;
      var d := DijkstraSearch(g, n, s);
      assert Recorded(g, s, n, d);
      AbsorbStep(g, s, res, t, n, d);
      t := Absorb(t, g[s][n], d);
      res := res[n := d];
      todo := todo - {n};
    }
  }

  /** The final test of shortestTraceLength: a negative or MAX_VALUE
      running value becomes the empty result. */
  function Outcome(t: Tally): Option<nat>
  {
    if t.Best? then Some(t.latency) else None
  }

  /** The result for s == e, when there is one, is the least over the
      neighbours n that get back to s of latency(s, n) plus a value
      DijkstraSearch's contract allows for (n, s). */
  lemma CycleValue(g: Graph, s: Node, res: map<Node, Option<nat>>, t: Tally)
    requires Closed(g) && s in g && res.Keys == g[s].Keys
    requires forall n :: n in res ==> Recorded(g, s, n, res[n])
    requires TallyOf(g, s, res, t)
    ensures Outcome(t).Some? ==> exists n, v: nat :: n in g[s] && SearchValue(g, n, s, v) && t.latency == g[s][n] + v
    ensures Outcome(t).Some? ==> forall n :: n in g[s] && Reachable(g, n, s) ==>
      exists v: nat :: SearchValue(g, n, s, v) && t.latency <= g[s][n] + v
  {
    if t.Best? {
      var n :| n in res && res[n].Some? && t.latency == g[s][n] + res[n].value;
      assert Recorded(g, s, n, res[n]);
      forall m | m in g[s] && Reachable(g, m, s)
        ensures exists v: nat :: SearchValue(g, m, s, v) && t.latency <= g[s][m] + v
      {
        assert Recorded(g, s, m, res[m]);
        assert SearchValue(g, m, s, res[m].value);
      }
    }
  }

  /** The result for s == e: empty exactly when s is poisoned or no
      neighbour gets back to s, otherwise a real cycle through s no longer
      than any two-edge cycle. */
  lemma CycleOutcome(g: Graph, s: Node, res: map<Node, Option<nat>>, t: Tally)
    requires Closed(g) && s in g && res.Keys == g[s].Keys
    requires forall n :: n in res ==> Recorded(g, s, n, res[n])
    requires TallyOf(g, s, res, t)
    ensures Outcome(t).None? <==> Poisoned(g, s) || forall n :: n in g[s] ==> !Reachable(g, n, s)
    ensures Outcome(t).Some? ==> exists w :: WalkFromTo(g, w, s, s) && |w| >= 2 && Cost(g, w) == t.latency
    ensures Outcome(t).Some? ==> forall n :: n in g[s] && HasEdge(g, n, s) ==>
      t.latency <= g[s][n] + (if n == s then 0 else g[n][s])
  {
    if t.Best? {
      var n :| n in res && res[n].Some? && t.latency == g[s][n] + res[n].value;
      assert Recorded(g, s, n, res[n]);
      var v :| WalkFromTo(g, v, n, s) && Cost(g, v) == res[n].value;
      CostPrepend(g, s, v);
      assert WalkFromTo(g, [s] + v, s, s);
      forall m | m in g[s] && HasEdge(g, m, s)
        ensures t.latency <= g[s][m] + (if m == s then 0 else g[m][s])
      {
        assert Recorded(g, s, m, res[m]);
      }
    } else if t.Wrapped? {
      var n :| n in res && g[s][n] >= 1 && res[n].None?;
      assert Recorded(g, s, n, res[n]);
    } else {
      forall n | n in g[s] ensures !Reachable(g, n, s) {
        assert Recorded(g, s, n, res[n]);
      }
    }
    if !Poisoned(g, s) && !t.Best? && !t.Wrapped? {
      assert forall n :: n in g[s] ==> !Reachable(g, n, s);
    }
  }

  /** shortestTraceLength(s, e). For s != e: empty exactly when e cannot be
      reached. For s == e: the least of latency(s, n) + dijkstraSearch(n, s)
      over the neighbours n, empty when no neighbour gets back to s or when
      one behind a positive latency cannot. A result is always the cost of a
      real walk of at least one edge. */
  method ShortestTraceLength(g: Graph, s: Node, e: Node) returns (r: Option<nat>)
    requires Closed(g) && s in g && e in g
    ensures s != e ==> (r.None? <==> !Reachable(g, s, e))
    ensures s == e ==> (r.None? <==>
      Poisoned(g, s) || forall n :: n in g[s] ==> !Reachable(g, n, s))
    ensures r.Some? ==> exists w :: WalkFromTo(g, w, s, e) && |w| >= 2 && Cost(g, w) == r.value
    ensures s == e && r.Some? ==> forall n :: n in g[s] && HasEdge(g, n, s) ==>
      r.value <= g[s][n] + (if n == s then 0 else g[n][s])
    ensures s != e && r.Some? ==> exists c, d: nat ::
      NearestEntry(g, s, e, c, d) && r.value == d + Weight(g, c, e)
    ensures s != e && HasEdge(g, s, e) ==> r == Some(Weight(g, s, e))
    ensures s == e && r.Some? ==> exists n, v: nat ::
      n in g[s] && SearchValue(g, n, s, v) && r.value == g[s][n] + v
    ensures s == e && r.Some? ==> forall n :: n in g[s] && Reachable(g, n, s) ==>
      exists v: nat :: SearchValue(g, n, s, v) && r.value <= g[s][n] + v
  {
    if s != e {
      r := DijkstraSearch(g, s, e);
      return;
    }
    var t, res := CycleSearch(g, s);
    CycleOutcome(g, s, res, t);
    CycleValue(g, s, res, t);
    r := Outcome(t);
  }

  // ---------------------------------------------------------------------
  // The shortest trace as intended

  /** w is a trace from s back to s of at least one edge. */
  ghost predicate IsCycle(g: Graph, s: Node, w: seq<Node>)
  {
    WalkFromTo(g, w, s, s) && |w| >= 2
  }

  /** After the neighbours in done: best is the least latency(s, n) plus
      the distance from n back to s, over those n that get back. */
  ghost predicate LeastSoFar(g: Graph, s: Node, done: set<Node>, best: Option<nat>)
    requires s in g && done <= g[s].Keys
  {
    (best.None? ==> forall n :: n in done ==> !Reachable(g, n, s)) &&
    (best.Some? ==> exists w :: IsCycle(g, s, w) && Cost(g, w) == best.value) &&
    (best.Some? ==> forall n, v :: n in done && WalkFromTo(g, v, n, s) ==> best.value <= g[s][n] + Cost(g, v))
  }

  /** One neighbour more: its exact distance back to s, if any, plus the
      edge to it competes with the best so far. */
  lemma LeastStep(g: Graph, s: Node, done: set<Node>, best: Option<nat>, n: Node, d: Option<nat>)
    requires s in g && done <= g[s].Keys && n in g[s] && LeastSoFar(g, s, done, best)
    requires d.None? <==> !Reachable(g, n, s)
    requires d.Some? ==> ShortestDistance(g, n, s, d.value)
    ensures LeastSoFar(g, s, done + {n},
      if d.Some? && (best.None? || g[s][n] + d.value < best.value) then Some(g[s][n] + d.value) else best)
  {
    if d.Some? {
      var v :| WalkFromTo(g, v, n, s) && Cost(g, v) == d.value;
      CostPrepend(g, s, v);
      assert IsCycle(g, s, [s] + v);
    }
  }

  /** shortestTraceLength as its documentation describes it: for s != e the
      least latency of a trace, for s == e the least latency of a trace of
      at least one edge back to s; empty when there is none. Unlike the
      code, a neighbour that cannot get back to s is skipped instead of
      overflowing, and each search stops only when its target is settled. */
  method LeastTraceLength(g: Graph, s: Node, e: Node) returns (r: Option<nat>)
    requires Closed(g) && s in g && e in g
    ensures s != e ==> (r.None? <==> !Reachable(g, s, e))
    ensures s != e && r.Some? ==> ShortestDistance(g, s, e, r.value)
    ensures s == e ==> (r.None? <==> forall w :: !IsCycle(g, s, w))
    ensures s == e && r.Some? ==> exists w :: IsCycle(g, s, w) && Cost(g, w) == r.value
    ensures s == e && r.Some? ==> forall w :: IsCycle(g, s, w) ==> Cost(g, w) >= r.value
  {
    if s != e {
      r := SettledSearch(g, s, e);
      return;
    }
    r := None;
    var todo := g[s].Keys;
    while todo != {}
      invariant todo <= g[s].Keys
      invariant LeastSoFar(g, s, g[s].Keys - todo, r)
      decreases todo
    {
      var n :| n in todo;
      var d := SettledSearch(g, n, s);
      LeastStep(g, s, g[s].Keys - todo, r, n, d);
      if d.Some? && (r.None? || g[s][n] + d.value < r.value) {
        r := Some(g[s][n] + d.value);
      }
      assert g[s].Keys - todo + {n} == g[s].Keys - (todo - {n});
      todo := todo - {n};
    }
    assert g[s].Keys - todo == g[s].Keys;
    LeastFinal(g, s, r);
  }

  /** Once every neighbour is done, the best value bounds every cycle: a
      cycle is an edge to a neighbour and a walk from it back to s. */
  lemma LeastFinal(g: Graph, s: Node, best: Option<nat>)
    requires s in g && LeastSoFar(g, s, g[s].Keys, best)
    ensures best.None? <==> forall w :: !IsCycle(g, s, w)
    ensures best.Some? ==> exists w :: IsCycle(g, s, w) && Cost(g, w) == best.value
    ensures best.Some? ==> forall w :: IsCycle(g, s, w) ==> Cost(g, w) >= best.value
  {
    forall w | IsCycle(g, s, w) ensures best.Some? && Cost(g, w) >= best.value {
      WalkTail(g, w);
      CostPrepend(g, s, w[1..]);
      assert [s] + w[1..] == w;
      assert WalkFromTo(g, w[1..], w[1], s);
    }
  }
}
