/** The latency graph: single-character nodes, directed edges carrying a
    latency, and walks ("traces") through it. Every query of the model is
    specified in terms of the walks defined here. */
module Graph {

  type Node = char

  /** Adjacency: from-node to (to-node to latency). A node is a key only
      when it has at least one out-edge in a parsed graph. */
  type Graph = map<Node, map<Node, nat>>

  /** The absence of a result: Java's empty Optional, or the
      Integer.MAX_VALUE "unreachable" sentinel. */
  datatype Option<T> = None | Some(value: T)

  predicate HasEdge(g: Graph, a: Node, b: Node)
  {
    a in g && b in g[a]
  }

  function Weight(g: Graph, a: Node, b: Node): nat
    requires HasEdge(g, a, b)
  {
    g[a][b]
  }

  /** Every edge target is itself a key, so looking up a neighbour's
      adjacency never yields null. */
  predicate Closed(g: Graph)
  {
    forall a, b :: a in g && b in g[a] ==> b in g
  }

  predicate PositiveWeights(g: Graph)
  {
    forall a, b :: a in g && b in g[a] ==> g[a][b] >= 1
  }

  function Last(w: seq<Node>): Node
    requires |w| > 0
  {
    w[|w| - 1]
  }

  /** A non-empty node sequence whose consecutive pairs are all edges. */
  predicate IsWalk(g: Graph, w: seq<Node>)
  {
    |w| >= 1 && forall i :: 0 <= i < |w| - 1 ==> HasEdge(g, w[i], w[i + 1])
  }

  predicate WalkFromTo(g: Graph, w: seq<Node>, a: Node, b: Node)
  {
    IsWalk(g, w) && w[0] == a && Last(w) == b
  }

  /** Summed latency of the edges of a walk, accumulated from the front
      one edge at a time. */
  function Cost(g: Graph, w: seq<Node>): nat
    requires IsWalk(g, w)
    decreases |w|
  {
    if |w| == 1 then 0
    else
      WalkPrefix(g, w, |w| - 1);
      Cost(g, w[..|w| - 1]) + Weight(g, w[|w| - 2], w[|w| - 1])
  }

  /** Every non-empty prefix of a walk is a walk. */
  lemma WalkPrefix(g: Graph, w: seq<Node>, k: nat)
    requires IsWalk(g, w) && 1 <= k <= |w|
    ensures IsWalk(g, w[..k])
  {
    var p := w[..k];
    forall i | 0 <= i < |p| - 1 ensures HasEdge(g, p[i], p[i + 1]) {
      assert HasEdge(g, w[i], w[i + 1]);
    }
  }

  ghost predicate Reachable(g: Graph, a: Node, b: Node)
  {
    exists w :: WalkFromTo(g, w, a, b)
  }

  /** No walk from a to b costs less than d. */
  ghost predicate NoCheaperWalk(g: Graph, a: Node, b: Node, d: nat)
  {
    forall w :: WalkFromTo(g, w, a, b) ==> Cost(g, w) >= d
  }

  /** d is the least cost of a walk from a to b. */
  ghost predicate ShortestDistance(g: Graph, a: Node, b: Node, d: nat)
  {
    (exists w :: WalkFromTo(g, w, a, b) && Cost(g, w) == d) && NoCheaperWalk(g, a, b, d)
  }

  /** Extending a walk by one edge at its end adds that edge's latency. */
  lemma CostAppend(g: Graph, w: seq<Node>, v: Node)
    requires IsWalk(g, w) && HasEdge(g, Last(w), v)
    ensures IsWalk(g, w + [v])
    ensures Cost(g, w + [v]) == Cost(g, w) + Weight(g, Last(w), v)
  {
    var w' := w + [v];
    forall i | 0 <= i < |w'| - 1 ensures HasEdge(g, w'[i], w'[i + 1]) {
      if i < |w| - 1 {
        assert HasEdge(g, w[i], w[i + 1]);
      }
    }
    assert w'[..|w'| - 1] == w;
  }

  lemma {:induction false} WalkTail(g: Graph, w: seq<Node>)
    requires IsWalk(g, w) && |w| >= 2
    ensures IsWalk(g, w[1..]) && HasEdge(g, w[0], w[1])
  {
    assert HasEdge(g, w[0], w[1]);
    forall i | 0 <= i < |w| - 2 ensures HasEdge(g, w[1..][i], w[1..][i + 1]) {
      assert HasEdge(g, w[i + 1], w[i + 2]);
    }
  }

  /** Prefixing a walk with an edge into its first node adds that edge's
      latency: the same cost, accumulated from the other end. */
  lemma {:induction false} CostPrepend(g: Graph, s: Node, w: seq<Node>)
    requires IsWalk(g, w) && HasEdge(g, s, w[0])
    ensures IsWalk(g, [s] + w)
    ensures Cost(g, [s] + w) == Weight(g, s, w[0]) + Cost(g, w)
    decreases |w|
  {
    var w' := [s] + w;
    forall i | 0 <= i < |w'| - 1 ensures HasEdge(g, w'[i], w'[i + 1]) {
      if i > 0 {
        assert HasEdge(g, w[i - 1], w[i]);
      }
    }
    if |w| > 1 {
      var p := w[..|w| - 1];
      assert IsWalk(g, p) by {
        forall i | 0 <= i < |p| - 1 ensures HasEdge(g, p[i], p[i + 1]) {
          assert HasEdge(g, w[i], w[i + 1]);
        }
      }
      CostPrepend(g, s, p);
      assert w'[..|w'| - 1] == [s] + p;
    }
  }

  /** Cutting a walk at node k splits its cost between the two halves. */
  lemma {:induction false} CostSplit(g: Graph, w: seq<Node>, k: nat)
    requires IsWalk(g, w) && k < |w|
    ensures IsWalk(g, w[..k + 1]) && IsWalk(g, w[k..])
    ensures Cost(g, w) == Cost(g, w[..k + 1]) + Cost(g, w[k..])
    decreases |w|
  {
    var a, b := w[..k + 1], w[k..];
    assert IsWalk(g, a) by {
      forall i | 0 <= i < |a| - 1 ensures HasEdge(g, a[i], a[i + 1]) {
        assert HasEdge(g, w[i], w[i + 1]);
      }
    }
    assert IsWalk(g, b) by {
      forall i | 0 <= i < |b| - 1 ensures HasEdge(g, b[i], b[i + 1]) {
        assert HasEdge(g, w[k + i], w[k + i + 1]);
      }
    }
    if k == |w| - 1 {
      assert a == w;
    } else {
      var p := w[..|w| - 1];
      assert IsWalk(g, p) by {
        forall i | 0 <= i < |p| - 1 ensures HasEdge(g, p[i], p[i + 1]) {
          assert HasEdge(g, w[i], w[i + 1]);
        }
      }
      CostSplit(g, p, k);
      assert p[..k + 1] == a;
      assert b[..|b| - 1] == p[k..];
    }
  }

  /** With every latency at least 1, a walk costs at least its edge count. */
  lemma {:induction false} CostAtLeastLength(g: Graph, w: seq<Node>)
    requires PositiveWeights(g) && IsWalk(g, w)
    ensures Cost(g, w) >= |w| - 1
    decreases |w|
  {
    if |w| > 1 {
      var p := w[..|w| - 1];
      assert IsWalk(g, p) by {
        forall i | 0 <= i < |p| - 1 ensures HasEdge(g, p[i], p[i + 1]) {
          assert HasEdge(g, w[i], w[i + 1]);
        }
      }
      CostAtLeastLength(g, p);
      assert HasEdge(g, w[|w| - 2], w[|w| - 1]);
    }
  }

  /** A walk that starts inside a set of nodes and ends outside it leaves
      the set along some edge: the first node outside comes at index i + 1. */
  lemma {:induction false} ExitEdge(g: Graph, w: seq<Node>, inside: set<Node>) returns (i: nat)
    requires IsWalk(g, w) && w[0] in inside && Last(w) !in inside
    ensures i + 1 < |w| && w[i] in inside && w[i + 1] !in inside
    ensures HasEdge(g, w[i], w[i + 1])
    decreases |w|
  {
    if w[1] !in inside {
      i := 0;
      assert HasEdge(g, w[0], w[1]);
    } else {
      WalkTail(g, w);
      var j := ExitEdge(g, w[1..], inside);
      i := j + 1;
      assert w[i] == w[1..][j] && w[i + 1] == w[1..][j + 1];
    }
  }

  /** A set that no edge leaves traps every walk that starts in it, so
      nothing outside it is reachable from inside. */
  lemma ClosedSetTraps(g: Graph, inside: set<Node>, a: Node, b: Node)
    requires forall v, u :: v in inside && HasEdge(g, v, u) ==> u in inside
    requires a in inside && b !in inside
    ensures !Reachable(g, a, b)
  {
    if Reachable(g, a, b) {
      var w :| WalkFromTo(g, w, a, b);
      var i := ExitEdge(g, w, inside);
      assert false;
    }
  }

  // ---------------------------------------------------------------------
  // The finite universe of bounded walks

  /** Prefix every sequence of xs with s. */
  function Prepend(s: Node, xs: set<seq<Node>>): set<seq<Node>>
  {
    set x | x in xs :: [s] + x
  }

  lemma {:induction false} PrependCard(s: Node, xs: set<seq<Node>>)
    ensures |Prepend(s, xs)| == |xs|
    decreases |xs|
  {
    if xs != {} {
      var x :| x in xs;
      var rest := xs - {x};
      PrependCard(s, rest);
      assert Prepend(s, xs) == Prepend(s, rest) + {[s] + x};
      assert [s] + x !in Prepend(s, rest) by {
        forall y | y in rest ensures [s] + y != [s] + x {
          assert ([s] + y)[1..] == y;
        }
      }
    }
  }

  /** Every walk from s with at most h edges, built one first edge at a
      time; a finite set by construction. */
  ghost function WalksUpTo(g: Graph, s: Node, h: nat): set<seq<Node>>
    decreases h
  {
    if h == 0 || s !in g then {[s]}
    else {[s]} + set n, w | n in g[s] && w in WalksUpTo(g, n, h - 1) :: [s] + w
  }

  /** WalksUpTo holds exactly the walks from s with at most h edges. */
  lemma {:induction false} WalksUpToSpec(g: Graph, s: Node, h: nat, w: seq<Node>)
    ensures w in WalksUpTo(g, s, h) <==> IsWalk(g, w) && w[0] == s && |w| <= h + 1
    decreases h
  {
    if w in WalksUpTo(g, s, h) && w != [s] {
      var n, v :| n in g[s] && v in WalksUpTo(g, n, h - 1) && w == [s] + v;
      WalksUpToSpec(g, n, h - 1, v);
      CostPrepend(g, s, v);
    }
    if IsWalk(g, w) && w[0] == s && |w| <= h + 1 && |w| >= 2 {
      WalkTail(g, w);
      WalksUpToSpec(g, w[1], h - 1, w[1..]);
      assert w == [s] + w[1..];
    } else if IsWalk(g, w) && w[0] == s && |w| == 1 {
      assert w == [s];
    }
  }
}
