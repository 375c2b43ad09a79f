/** Trace counting (GraphProcessing.countTraces and countTracesUnderLatency):
    depth-first enumeration that sums, over the out-neighbours of a node, the
    count contributed by each. Each count is proved equal to the size of an
    explicitly defined set of walks. */
module Traces {
  import opened Graph

  // ---------------------------------------------------------------------
  // Iterating over a key set

  lemma {:induction false} HasLeast(ks: set<Node>)
    requires ks != {}
    ensures exists m :: m in ks && forall k :: k in ks ==> m <= k
    decreases |ks|
  {
    var x :| x in ks;
    if ks == {x} {
      forall k | k in ks ensures x <= k {
        assert k == x;
      }
    } else {
      HasLeast(ks - {x});
      var m :| m in ks - {x} && forall k :: k in ks - {x} ==> m <= k;
      var least := if x < m then x else m;
      forall k | k in ks ensures least <= k {
        if k != x {
          assert k in ks - {x};
        }
      }
      assert least in ks;
    }
  }

  /** The key a loop over a HashMap's key set visits next. Java leaves that
      order unspecified; the least character stands in for it, and
      TracesOverAnyOrder and UnderOverAnyOrder show the counts do not depend
      on the choice. */
  function NextKey(ks: set<Node>): (m: Node)
    requires ks != {}
    ensures m in ks
  {
    HasLeast(ks);
    var m :| m in ks && forall k :: k in ks ==> m <= k; m
  }

  /** The walks of ws whose second node is in ks. */
  ghost function Slice(ws: set<seq<Node>>, ks: set<Node>): set<seq<Node>>
  {
    set w | w in ws && |w| >= 2 && w[1] in ks
  }

  lemma SliceSplit(ws: set<seq<Node>>, ks: set<Node>, k: Node)
    requires k in ks
    ensures |Slice(ws, ks)| == |Slice(ws, ks - {k})| + |Slice(ws, {k})|
  {
    assert Slice(ws, ks) == Slice(ws, ks - {k}) + Slice(ws, {k});
    assert Slice(ws, ks - {k}) * Slice(ws, {k}) == {};
  }

  lemma SliceEmpty(ws: set<seq<Node>>)
    ensures Slice(ws, {}) == {}
  {
  }

  // ---------------------------------------------------------------------
  // countTraces

  /** Whether reaching neighbour n with `hops` hops left counts one trace
      on the spot instead of recursing. */
  predicate Arrives(n: Node, find: Node, hops: nat, countShort: bool)
  {
    (countShort && n == find) || (!countShort && hops == 1 && n == find)
  }

  /** The number of traces from start that reach find within the hop
      budget: with countShort, the walks stop at their first arrival at
      find; without it, only walks of exactly `hops` edges count. */
  function CountTraces(g: Graph, start: Node, find: Node, hops: nat, countShort: bool): nat
    decreases hops, 1
  {
    if hops == 0 || start !in g then 0
    else TracesOver(g, g[start].Keys, find, hops, countShort)
  }

  /** The loop over the neighbours ks still to visit. */
  function TracesOver(g: Graph, ks: set<Node>, find: Node, hops: nat, countShort: bool): nat
    requires hops >= 1
    decreases hops, 0, ks
  {
    if ks == {} then 0
    else
      var n := NextKey(ks);
      (if Arrives(n, find, hops, countShort) then 1 else CountTraces(g, n, find, hops - 1, countShort))
      + TracesOver(g, ks - {n}, find, hops, countShort)
  }

  /** Walks from s with exactly h >= 1 edges that end at f. */
  ghost function ExactTraces(g: Graph, s: Node, f: Node, h: nat): set<seq<Node>>
  {
    set w | w in WalksUpTo(g, s, h) && |w| == h + 1 && |w| >= 2 && Last(w) == f
  }

  /** w does not visit f at any node strictly between its first and last. */
  ghost predicate AvoidsInside(w: seq<Node>, f: Node)
  {
    forall i :: 1 <= i < |w| - 1 ==> w[i] != f
  }

  /** Walks from s of 1 to h edges that end at f and reach f only at
      their last node (the start itself may be f). */
  ghost function FirstArrivals(g: Graph, s: Node, f: Node, h: nat): set<seq<Node>>
  {
    set w | w in WalksUpTo(g, s, h) && |w| >= 2 && Last(w) == f && AvoidsInside(w, f)
  }

  lemma ExactTracesSpec(g: Graph, s: Node, f: Node, h: nat, w: seq<Node>)
    ensures w in ExactTraces(g, s, f, h) <==> WalkFromTo(g, w, s, f) && h >= 1 && |w| == h + 1
  {
    WalksUpToSpec(g, s, h, w);
  }

  lemma FirstArrivalsSpec(g: Graph, s: Node, f: Node, h: nat, w: seq<Node>)
    ensures w in FirstArrivals(g, s, f, h) <==>
      WalkFromTo(g, w, s, f) && 2 <= |w| <= h + 1 && AvoidsInside(w, f)
  {
    WalksUpToSpec(g, s, h, w);
  }

  lemma ExactSliceLast(g: Graph, s: Node, f: Node, k: Node)
    requires HasEdge(g, s, k)
    ensures Slice(ExactTraces(g, s, f, 1), {k}) == if k == f then {[s, k]} else {}
  {
    var A := Slice(ExactTraces(g, s, f, 1), {k});
    forall w | w in A ensures w == [s, k] && k == f {
      ExactTracesSpec(g, s, f, 1, w);
    }
    if k == f {
      ExactTracesSpec(g, s, f, 1, [s, k]);
      assert [s, k] in A;
    }
  }

  lemma ExactSlice(g: Graph, s: Node, f: Node, h: nat, k: Node)
    requires h >= 2 && HasEdge(g, s, k)
    ensures Slice(ExactTraces(g, s, f, h), {k}) == Prepend(s, ExactTraces(g, k, f, h - 1))
  {
    var A := Slice(ExactTraces(g, s, f, h), {k});
    var B := Prepend(s, ExactTraces(g, k, f, h - 1));
    forall w | w in A ensures w in B {
      ExactTracesSpec(g, s, f, h, w);
      WalkTail(g, w);
      ExactTracesSpec(g, k, f, h - 1, w[1..]);
      assert w == [s] + w[1..];
    }
    forall w | w in B ensures w in A {
      var v :| v in ExactTraces(g, k, f, h - 1) && w == [s] + v;
      ExactTracesSpec(g, k, f, h - 1, v);
      CostPrepend(g, s, v);
      ExactTracesSpec(g, s, f, h, w);
    }
  }

  /** countTraces(s, f, h, false) is the number of walks from s with
      exactly h edges ending at f, intermediate visits to f included. */
  lemma {:induction false} CountTracesExact(g: Graph, s: Node, f: Node, h: nat)
    ensures CountTraces(g, s, f, h, false) == |ExactTraces(g, s, f, h)|
    decreases h, 1
  {
    var T := ExactTraces(g, s, f, h);
    if h > 0 && s in g {
      TracesOverExact(g, s, g[s].Keys, f, h);
      forall w | w in T ensures |w| >= 2 && w[1] in g[s] {
        ExactTracesSpec(g, s, f, h, w);
        assert HasEdge(g, w[0], w[1]);
      }
      assert Slice(T, g[s].Keys) == T;
    }
  }

  lemma {:induction false} TracesOverExact(g: Graph, s: Node, ks: set<Node>, f: Node, h: nat)
    requires h >= 1 && s in g && ks <= g[s].Keys
    ensures TracesOver(g, ks, f, h, false) == |Slice(ExactTraces(g, s, f, h), ks)|
    decreases h, 0, ks
  {
    var T := ExactTraces(g, s, f, h);
    if ks == {} {
      SliceEmpty(T);
    } else {
      var n := NextKey(ks);
      TracesOverExact(g, s, ks - {n}, f, h);
      SliceSplit(T, ks, n);
      if h == 1 {
        ExactSliceLast(g, s, f, n);
      } else {
        ExactSlice(g, s, f, h, n);
        PrependCard(s, ExactTraces(g, n, f, h - 1));
        CountTracesExact(g, n, f, h - 1);
      }
    }
  }

  lemma FirstArrivalSliceHit(g: Graph, s: Node, f: Node, h: nat)
    requires h >= 1 && HasEdge(g, s, f)
    ensures Slice(FirstArrivals(g, s, f, h), {f}) == {[s, f]}
  {
    var A := Slice(FirstArrivals(g, s, f, h), {f});
    forall w | w in A ensures w == [s, f] {
      FirstArrivalsSpec(g, s, f, h, w);
    }
    FirstArrivalsSpec(g, s, f, h, [s, f]);
    assert [s, f] in A;
  }

  lemma FirstArrivalSliceOut(g: Graph, s: Node, f: Node, h: nat, k: Node, w: seq<Node>)
    requires h >= 1 && HasEdge(g, s, k) && k != f
    requires w in Slice(FirstArrivals(g, s, f, h), {k})
    ensures w in Prepend(s, FirstArrivals(g, k, f, h - 1))
  {
    FirstArrivalsSpec(g, s, f, h, w);
    WalkTail(g, w);
    var v := w[1..];
    assert forall i :: 1 <= i < |v| - 1 ==> v[i] == w[i + 1];
    FirstArrivalsSpec(g, k, f, h - 1, v);
    assert w == [s] + v;
  }

  lemma FirstArrivalSliceIn(g: Graph, s: Node, f: Node, h: nat, k: Node, v: seq<Node>)
    requires h >= 1 && HasEdge(g, s, k) && k != f
    requires v in FirstArrivals(g, k, f, h - 1)
    ensures [s] + v in Slice(FirstArrivals(g, s, f, h), {k})
  {
    var w := [s] + v;
    FirstArrivalsSpec(g, k, f, h - 1, v);
    CostPrepend(g, s, v);
    assert forall i :: 1 <= i < |w| - 1 ==> w[i] == v[i - 1];
    FirstArrivalsSpec(g, s, f, h, w);
  }

  lemma FirstArrivalSlice(g: Graph, s: Node, f: Node, h: nat, k: Node)
    requires h >= 1 && HasEdge(g, s, k)
    ensures Slice(FirstArrivals(g, s, f, h), {k}) ==
      if k == f then {[s, k]} else Prepend(s, FirstArrivals(g, k, f, h - 1))
  {
    if k == f {
      FirstArrivalSliceHit(g, s, f, h);
    } else {
      var A := Slice(FirstArrivals(g, s, f, h), {k});
      var B := Prepend(s, FirstArrivals(g, k, f, h - 1));
      forall w | w in A ensures w in B {
        FirstArrivalSliceOut(g, s, f, h, k, w);
      }
      forall w | w in B ensures w in A {
        var v :| v in FirstArrivals(g, k, f, h - 1) && w == [s] + v;
        FirstArrivalSliceIn(g, s, f, h, k, v);
      }
    }
  }

  /** countTraces(s, f, h, true) is the number of walks from s of 1 to h
      edges that end at f without passing through f earlier: a branch stops
      at its first arrival, and the empty walk never counts. */
  lemma {:induction false} CountTracesShort(g: Graph, s: Node, f: Node, h: nat)
    ensures CountTraces(g, s, f, h, true) == |FirstArrivals(g, s, f, h)|
    decreases h, 1
  {
    var T := FirstArrivals(g, s, f, h);
    if h > 0 && s in g {
      TracesOverShort(g, s, g[s].Keys, f, h);
      forall w | w in T ensures |w| >= 2 && w[1] in g[s] {
        FirstArrivalsSpec(g, s, f, h, w);
        assert HasEdge(g, w[0], w[1]);
      }
      assert Slice(T, g[s].Keys) == T;
    }
  }

  lemma {:induction false} TracesOverShort(g: Graph, s: Node, ks: set<Node>, f: Node, h: nat)
    requires h >= 1 && s in g && ks <= g[s].Keys
    ensures TracesOver(g, ks, f, h, true) == |Slice(FirstArrivals(g, s, f, h), ks)|
    decreases h, 0, ks
  {
    var T := FirstArrivals(g, s, f, h);
    if ks == {} {
      SliceEmpty(T);
    } else {
      var n := NextKey(ks);
      TracesOverShort(g, s, ks - {n}, f, h);
      SliceSplit(T, ks, n);
      FirstArrivalSlice(g, s, f, h, n);
      if n != f {
        PrependCard(s, FirstArrivals(g, n, f, h - 1));
        CountTracesShort(g, n, f, h - 1);
      }
    }
  }

  /** The neighbour loop of countTraces may visit the keys in any order:
      taking any x first gives the same total. */
  lemma TracesOverAnyOrder(g: Graph, s: Node, ks: set<Node>, find: Node, hops: nat, countShort: bool, x: Node)
    requires hops >= 1 && s in g && ks <= g[s].Keys && x in ks
    ensures TracesOver(g, ks, find, hops, countShort) ==
      (if Arrives(x, find, hops, countShort) then 1 else CountTraces(g, x, find, hops - 1, countShort))
      + TracesOver(g, ks - {x}, find, hops, countShort)
  {
    if countShort {
      ShortAnyOrder(g, s, ks, find, hops, x);
    } else {
      ExactAnyOrder(g, s, ks, find, hops, x);
    }
  }

  lemma ShortAnyOrder(g: Graph, s: Node, ks: set<Node>, find: Node, hops: nat, x: Node)
    requires hops >= 1 && s in g && ks <= g[s].Keys && x in ks
    ensures TracesOver(g, ks, find, hops, true) ==
      (if x == find then 1 else CountTraces(g, x, find, hops - 1, true))
      + TracesOver(g, ks - {x}, find, hops, true)
  {
    var T := FirstArrivals(g, s, find, hops);
    TracesOverShort(g, s, ks, find, hops);
    TracesOverShort(g, s, ks - {x}, find, hops);
    SliceSplit(T, ks, x);
    FirstArrivalSlice(g, s, find, hops, x);
    if x != find {
      PrependCard(s, FirstArrivals(g, x, find, hops - 1));
      CountTracesShort(g, x, find, hops - 1);
    }
  }

  lemma ExactAnyOrder(g: Graph, s: Node, ks: set<Node>, find: Node, hops: nat, x: Node)
    requires hops >= 1 && s in g && ks <= g[s].Keys && x in ks
    ensures TracesOver(g, ks, find, hops, false) ==
      (if hops == 1 && x == find then 1 else CountTraces(g, x, find, hops - 1, false))
      + TracesOver(g, ks - {x}, find, hops, false)
  {
    var T := ExactTraces(g, s, find, hops);
    TracesOverExact(g, s, ks, find, hops);
    TracesOverExact(g, s, ks - {x}, find, hops);
    SliceSplit(T, ks, x);
    if hops == 1 {
      ExactSliceLast(g, s, find, x);
    } else {
      ExactSlice(g, s, find, hops, x);
      PrependCard(s, ExactTraces(g, x, find, hops - 1));
      CountTracesExact(g, x, find, hops - 1);
    }
  }

  // ---------------------------------------------------------------------
  // countTracesUnderLatency

  /** The number of walks from start of at least one edge that end at `end`
      and cost strictly less than `latency`. An edge whose latency is not
      below the remaining budget is pruned. */
  function CountTracesUnderLatency(g: Graph, start: Node, end: Node, latency: int): nat
    requires Closed(g) && PositiveWeights(g)
    requires latency > 0 ==> start in g
    decreases if latency > 0 then latency else 0, 2
  {
    if latency <= 0 then 0
    else UnderOver(g, start, g[start].Keys, end, latency)
  }

  /** The loop over the neighbours ks of s still to visit. */
  function UnderOver(g: Graph, s: Node, ks: set<Node>, end: Node, latency: int): nat
    requires Closed(g) && PositiveWeights(g)
    requires latency > 0 && s in g && ks <= g[s].Keys
    decreases latency, 1, ks
  {
    if ks == {} then 0
    else
      var n := NextKey(ks);
      UnderStep(g, s, n, end, latency) + UnderOver(g, s, ks - {n}, end, latency)
  }

  /** What neighbour n of s adds: one trace if it is `end`, plus the traces
      continuing from it, provided its edge leaves budget over. */
  function UnderStep(g: Graph, s: Node, n: Node, end: Node, latency: int): nat
    requires Closed(g) && PositiveWeights(g)
    requires latency > 0 && HasEdge(g, s, n)
    decreases latency, 0
  {
    var remaining := latency - g[s][n];
    if remaining > 0 then
      (if n == end then 1 else 0) + CountTracesUnderLatency(g, n, end, remaining)
    else 0
  }

  /** Walks from s of at least one edge that end at e and cost less than
      budget. Positive latencies bound their length by the budget. */
  ghost function CheapTraces(g: Graph, s: Node, e: Node, budget: int): set<seq<Node>>
  {
    set w | w in WalksUpTo(g, s, if budget > 0 then budget as nat else 0)
      && IsWalk(g, w) && |w| >= 2 && Last(w) == e && Cost(g, w) < budget
  }

  lemma CheapTracesSpec(g: Graph, s: Node, e: Node, budget: int, w: seq<Node>)
    requires PositiveWeights(g)
    ensures w in CheapTraces(g, s, e, budget) <==>
      WalkFromTo(g, w, s, e) && |w| >= 2 && Cost(g, w) < budget
  {
    WalksUpToSpec(g, s, if budget > 0 then budget as nat else 0, w);
    if WalkFromTo(g, w, s, e) {
      CostAtLeastLength(g, w);
    }
  }

  lemma CheapSliceOut(g: Graph, s: Node, e: Node, budget: int, k: Node, w: seq<Node>)
    requires PositiveWeights(g) && HasEdge(g, s, k)
    requires w in Slice(CheapTraces(g, s, e, budget), {k})
    ensures g[s][k] < budget
    ensures |w| == 2 ==> w == [s, k] && k == e
    ensures |w| > 2 ==> w in Prepend(s, CheapTraces(g, k, e, budget - g[s][k]))
  {
    CheapTracesSpec(g, s, e, budget, w);
    WalkTail(g, w);
    var v := w[1..];
    assert w == [s] + v;
    CostPrepend(g, s, v);
    if |w| > 2 {
      CheapTracesSpec(g, k, e, budget - g[s][k], v);
    }
  }

  lemma CheapSliceIn(g: Graph, s: Node, e: Node, budget: int, k: Node, v: seq<Node>)
    requires PositiveWeights(g) && HasEdge(g, s, k)
    requires v in CheapTraces(g, k, e, budget - g[s][k])
    ensures [s] + v in Slice(CheapTraces(g, s, e, budget), {k})
  {
    CheapTracesSpec(g, k, e, budget - g[s][k], v);
    CostPrepend(g, s, v);
    CheapTracesSpec(g, s, e, budget, [s] + v);
  }

  lemma CheapSliceCard(g: Graph, s: Node, e: Node, budget: int, k: Node)
    requires Closed(g) && PositiveWeights(g) && HasEdge(g, s, k)
    ensures |Slice(CheapTraces(g, s, e, budget), {k})| ==
      if g[s][k] < budget then
        (if k == e then 1 else 0) + |CheapTraces(g, k, e, budget - g[s][k])|
      else 0
  {
    var A := Slice(CheapTraces(g, s, e, budget), {k});
    var rest := budget - g[s][k];
    var B := Prepend(s, CheapTraces(g, k, e, rest));
    var D: set<seq<Node>> := if k == e then {[s, k]} else {};
    forall w | w in A ensures w in B + D {
      CheapSliceOut(g, s, e, budget, k, w);
    }
    forall w | w in B ensures w in A {
      var v :| v in CheapTraces(g, k, e, rest) && w == [s] + v;
      CheapSliceIn(g, s, e, budget, k, v);
    }
    if g[s][k] < budget {
      if k == e {
        assert [s, k] == [s] + [k];
        CostPrepend(g, s, [k]);
        CheapTracesSpec(g, s, e, budget, [s, k]);
        assert [s, k] in A;
        assert [s, k] !in B;
      }
      assert A == B + D;
      PrependCard(s, CheapTraces(g, k, e, rest));
    } else {
      if A != {} {
        var w :| w in A;
        CheapSliceOut(g, s, e, budget, k, w);
      }
    }
  }

  /** countTracesUnderLatency(s, e, L) is the number of walks from s of
      at least one edge that end at e and cost less than L; so it is 0 when
      L <= 0. */
  lemma {:induction false} CountUnderLatencyCounts(g: Graph, s: Node, e: Node, L: int)
    requires Closed(g) && PositiveWeights(g) && (L > 0 ==> s in g)
    ensures CountTracesUnderLatency(g, s, e, L) == |CheapTraces(g, s, e, L)|
    decreases if L > 0 then L else 0, 2
  {
    var T := CheapTraces(g, s, e, L);
    if L > 0 {
      UnderOverCounts(g, s, g[s].Keys, e, L);
      forall w | w in T ensures |w| >= 2 && w[1] in g[s] {
        CheapTracesSpec(g, s, e, L, w);
        assert HasEdge(g, w[0], w[1]);
      }
      assert Slice(T, g[s].Keys) == T;
    }
  }

  lemma {:induction false} UnderOverCounts(g: Graph, s: Node, ks: set<Node>, e: Node, L: int)
    requires Closed(g) && PositiveWeights(g)
    requires L > 0 && s in g && ks <= g[s].Keys
    ensures UnderOver(g, s, ks, e, L) == |Slice(CheapTraces(g, s, e, L), ks)|
    decreases L, 1, ks
  {
    var T := CheapTraces(g, s, e, L);
    if ks == {} {
      SliceEmpty(T);
    } else {
      var n := NextKey(ks);
      UnderOverCounts(g, s, ks - {n}, e, L);
      UnderStepCounts(g, s, n, e, L);
      SliceSplit(T, ks, n);
    }
  }

  lemma {:induction false} UnderStepCounts(g: Graph, s: Node, n: Node, e: Node, L: int)
    requires Closed(g) && PositiveWeights(g)
    requires L > 0 && HasEdge(g, s, n)
    ensures UnderStep(g, s, n, e, L) == |Slice(CheapTraces(g, s, e, L), {n})|
    decreases L, 0
  {
    CheapSliceCard(g, s, e, L, n);
    if g[s][n] < L {
      CountUnderLatencyCounts(g, n, e, L - g[s][n]);
    }
  }

  /** Raising the latency bound never lowers the count. */
  lemma CountUnderLatencyMonotone(g: Graph, s: Node, e: Node, L: int, L': int)
    requires Closed(g) && PositiveWeights(g) && s in g && L <= L'
    ensures CountTracesUnderLatency(g, s, e, L) <= CountTracesUnderLatency(g, s, e, L')
  {
    CountUnderLatencyCounts(g, s, e, L);
    CountUnderLatencyCounts(g, s, e, L');
    forall w | w in CheapTraces(g, s, e, L) ensures w in CheapTraces(g, s, e, L') {
      CheapTracesSpec(g, s, e, L, w);
      CheapTracesSpec(g, s, e, L', w);
    }
    var A, B := CheapTraces(g, s, e, L), CheapTraces(g, s, e, L');
    assert B == A + (B - A) && A * (B - A) == {};
  }

  /** The neighbour loop of countTracesUnderLatency may visit the keys in
      any order: taking any x first gives the same total. */
  lemma UnderOverAnyOrder(g: Graph, s: Node, ks: set<Node>, e: Node, L: int, x: Node)
    requires Closed(g) && PositiveWeights(g)
    requires L > 0 && s in g && ks <= g[s].Keys && x in ks
    ensures UnderOver(g, s, ks, e, L) == UnderStep(g, s, x, e, L) + UnderOver(g, s, ks - {x}, e, L)
  {
    UnderOverCounts(g, s, ks, e, L);
    UnderOverCounts(g, s, ks - {x}, e, L);
    UnderStepCounts(g, s, x, e, L);
    SliceSplit(CheapTraces(g, s, e, L), ks, x);
  }

  // ---------------------------------------------------------------------
  // Unreachable targets

  /** When f cannot be reached from s, neither hop-bounded count finds a
      trace. */
  lemma UnreachableNoTraces(g: Graph, s: Node, f: Node, h: nat)
    requires !Reachable(g, s, f)
    ensures CountTraces(g, s, f, h, true) == 0 && CountTraces(g, s, f, h, false) == 0
  {
    CountTracesShort(g, s, f, h);
    CountTracesExact(g, s, f, h);
    forall w | w in FirstArrivals(g, s, f, h) ensures false {
      FirstArrivalsSpec(g, s, f, h, w);
    }
    forall w | w in ExactTraces(g, s, f, h) ensures false {
      ExactTracesSpec(g, s, f, h, w);
    }
    assert FirstArrivals(g, s, f, h) == {} && ExactTraces(g, s, f, h) == {};
  }

  /** When e cannot be reached from s, no trace is under any latency. */
  lemma UnreachableNoCheapTraces(g: Graph, s: Node, e: Node, L: int)
    requires Closed(g) && PositiveWeights(g) && (L > 0 ==> s in g)
    requires !Reachable(g, s, e)
    ensures CountTracesUnderLatency(g, s, e, L) == 0
  {
    CountUnderLatencyCounts(g, s, e, L);
    forall w | w in CheapTraces(g, s, e, L) ensures false {
      CheapTracesSpec(g, s, e, L, w);
    }
    assert CheapTraces(g, s, e, L) == {};
  }
}
