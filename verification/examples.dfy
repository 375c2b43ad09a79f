/** Concrete instances: the five-node sample graph, a few constructor
    inputs, and the graph on which stopping at the first relaxation of the
    target over-estimates. */
module Examples {
  import opened Graph
  import opened Split
  import opened Parser
  import opened Latency
  import opened Search
  import opened Traces

  /** The graph of "AB5,BC4,CD8,DC8,DE6,AD5,CE2,EB3,AE7". */
  function Sample(): Graph
  {
    map['A' := map['B' := 5, 'D' := 5, 'E' := 7],
        'B' := map['C' := 4],
        'C' := map['D' := 8, 'E' := 2],
        'D' := map['C' := 8, 'E' := 6],
        'E' := map['B' := 3]]
  }

  /** The latency of A-B-C is 9 and of A-E-B-C-D is 22; A-E-D has no
      edge from E to D, and C-A-D-E none from C to A. */
  method SampleLatencies() returns (abc: Option<nat>, aebcd: Option<nat>, aed: Option<nat>, cade: Option<nat>)
    ensures abc == Some(9) && aebcd == Some(22) && aed == None && cade == None
  {
    var g := Sample();
    CostOfEdge(g, 'A', 'B');
    CostAppend(g, ['A', 'B'], 'C');
    assert ['A', 'B'] + ['C'] == ['A', 'B', 'C'];
    abc := AverageLatency(g, ['A', 'B', 'C']);
    CostOfEdge(g, 'A', 'E');
    CostAppend(g, ['A', 'E'], 'B');
    assert ['A', 'E'] + ['B'] == ['A', 'E', 'B'];
    CostAppend(g, ['A', 'E', 'B'], 'C');
    assert ['A', 'E', 'B'] + ['C'] == ['A', 'E', 'B', 'C'];
    CostAppend(g, ['A', 'E', 'B', 'C'], 'D');
    assert ['A', 'E', 'B', 'C'] + ['D'] == ['A', 'E', 'B', 'C', 'D'];
    aebcd := AverageLatency(g, ['A', 'E', 'B', 'C', 'D']);
    aed := AverageLatency(g, ['A', 'E', 'D']);
    assert !HasEdge(g, ['A', 'E', 'D'][1], ['A', 'E', 'D'][2]);
    cade := AverageLatency(g, ['C', 'A', 'D', 'E']);
    assert !HasEdge(g, ['C', 'A', 'D', 'E'][0], ['C', 'A', 'D', 'E'][1]);
  }

  /** A lone comma is an empty graph. */
  lemma LoneComma()
    ensures Build(",") == Ok(map[])
  {
    SplitAllJoin(["", ""]);
    assert Join(["", ""]) == ",";
  }

  /** An empty text is one empty piece, which is rejected. */
  lemma EmptyText()
    ensures Build("") == Err(MalformedToken(""))
  {
  }

  /** An empty piece before a comma is kept, and rejected. */
  lemma LeadingComma()
    ensures Build(",AB3") == Err(MalformedToken(""))
  {
    SplitAllJoin(["", "AB3"]);
    assert Join(["", "AB3"]) == ",AB3";
    assert ",AB3"[0] == Comma;
  }

  /** A latency that is not a digit is rejected. */
  lemma LetterLatency()
    ensures Build("ABx") == Err(BadLatency("ABx"))
  {
  }

  /** The same ordered pair twice is rejected, whatever the latencies. */
  lemma RepeatedPair()
    ensures Build("AB3,AB4") == Err(DuplicateEdge('A', 'B'))
  {
    SplitAllJoin(["AB3", "AB4"]);
    assert Join(["AB3", "AB4"]) == "AB3,AB4";
    assert "AB3,AB4"[3] == Comma;
    assert ["AB3", "AB4"][1..] == ["AB4"];
  }

  /** The three good tokens of the test inputs, loaded. */
  lemma ThreeTokens(rest: seq<String>)
    ensures Load(["AB3", "BC1", "CE2"] + rest, map[]) ==
      Load(rest, map['A' := map['B' := 3], 'B' := map['C' := 1], 'C' := map['E' := 2]])
  {
    var ts := ["AB3", "BC1", "CE2"] + rest;
    assert ts[1..] == ["BC1", "CE2"] + rest;
    assert ts[1..][1..] == ["CE2"] + rest;
    assert ts[1..][1..][1..] == rest;
    var g1 := map['A' := map['B' := 3]];
    var g2 := map['A' := map['B' := 3], 'B' := map['C' := 1]];
    assert ParseToken("AB3") == Ok(Edge('A', 'B', 3));
    assert ParseToken("BC1") == Ok(Edge('B', 'C', 1));
    assert ParseToken("CE2") == Ok(Edge('C', 'E', 2));
    assert AddEdge(map[], Edge('A', 'B', 3)) == Ok(g1);
    assert AddEdge(g1, Edge('B', 'C', 1)) == Ok(g2);
    assert AddEdge(g2, Edge('C', 'E', 2)) ==
      Ok(map['A' := map['B' := 3], 'B' := map['C' := 1], 'C' := map['E' := 2]]);
    assert Load(ts, map[]) == Load(ts[1..], g1);
    assert Load(ts[1..], g1) == Load(ts[1..][1..], g2);
  }

  /** A four-character token after three good ones is rejected. */
  lemma LongToken()
    ensures Build("AB3,BC1,CE2,BBD3") == Err(MalformedToken("BBD3"))
  {
    var ps := ["AB3", "BC1", "CE2", "BBD3"];
    JavaSplitJoin(ps);
    assert Join(ps) == "AB3,BC1,CE2,BBD3";
    ThreeTokens(["BBD3"]);
    assert ps == ["AB3", "BC1", "CE2"] + ["BBD3"];
  }

  /** The last token repeats the pair C-E. */
  lemma RepeatedLastEdge()
    ensures Build("AB3,BC1,CE2,CE2") == Err(DuplicateEdge('C', 'E'))
  {
    var ps := ["AB3", "BC1", "CE2", "CE2"];
    JavaSplitJoin(ps);
    assert Join(ps) == "AB3,BC1,CE2,CE2";
    ThreeTokens(["CE2"]);
    assert ps == ["AB3", "BC1", "CE2"] + ["CE2"];
  }

  /** A trailing comma is ignored. */
  lemma TrailingComma()
    ensures Build("AB3,BC1,CE2,") == Ok(map['A' := map['B' := 3], 'B' := map['C' := 1], 'C' := map['E' := 2]])
  {
    TrailingSplit();
    ThreeTokens([]);
    assert ["AB3", "BC1", "CE2"] + [] == ["AB3", "BC1", "CE2"];
  }

  lemma TrailingSplit()
    ensures JavaSplit("AB3,BC1,CE2,") == ["AB3", "BC1", "CE2"]
  {
    var ps := ["AB3", "BC1", "CE2"] + [[]];
    JavaSplitTrailing(["AB3", "BC1", "CE2"]);
    assert ps[1..] == ["BC1", "CE2", ""] && ps[1..][1..] == ["CE2", ""] && ps[1..][1..][1..] == [""];
    assert Join(ps[1..][1..]) == "CE2,";
    assert Join(ps[1..]) == "BC1,CE2,";
    assert Join(ps) == "AB3,BC1,CE2,";
  }

  /** With A-B 1, B-C 1, A-C 9 and C-A 1, the search from A to C reports 9
      because the edge A-C is relaxed before C is ever picked, while the
      walk A-B-C costs 2; stopping when C is picked reports 2. */
  method EarlyExitOverestimates() returns (g: Graph, early: Option<nat>, settled: Option<nat>, w: seq<Node>)
    ensures Closed(g) && WalkFromTo(g, w, 'A', 'C')
    ensures early == Some(9) && Cost(g, w) == 2
    ensures settled == Some(2)
  {
    g := EarlyGraph();
    early := EarlySearch();
    settled := EarlySettled();
    w := ['A', 'B', 'C'];
    EarlyWalk();
  }

  method EarlySearch() returns (early: Option<nat>)
    ensures early == Some(9)
  {
    early := DijkstraSearch(EarlyGraph(), 'A', 'C');
  }

  method EarlySettled() returns (settled: Option<nat>)
    ensures settled == Some(2)
  {
    EarlyWalk();
    settled := SettledSearch(EarlyGraph(), 'A', 'C');
    ghost var v :| WalkFromTo(EarlyGraph(), v, 'A', 'C') && Cost(EarlyGraph(), v) == settled.value;
    EarlyWalks(v);
  }

  lemma EarlyWalk()
    ensures Closed(EarlyGraph()) && WalkFromTo(EarlyGraph(), ['A', 'B', 'C'], 'A', 'C')
    ensures Cost(EarlyGraph(), ['A', 'B', 'C']) == 2
  {
    var g := EarlyGraph();
    CostOfEdge(g, 'A', 'B');
    CostAppend(g, ['A', 'B'], 'C');
    assert ['A', 'B'] + ['C'] == ['A', 'B', 'C'];
  }

  function EarlyGraph(): Graph
  {
    map['A' := map['B' := 1, 'C' := 9], 'B' := map['C' := 1], 'C' := map['A' := 1]]
  }

  /** Every walk from A to C costs at least 2: the direct edge costs 9,
      and a longer walk has at least two edges of latency at least 1. */
  lemma EarlyWalks(v: seq<Node>)
    requires WalkFromTo(EarlyGraph(), v, 'A', 'C')
    ensures Cost(EarlyGraph(), v) >= 2
  {
    var g := EarlyGraph();
    if |v| == 2 {
      assert v == ['A', 'C'];
      CostOfEdge(g, 'A', 'C');
    } else {
      CostAtLeastLength(g, v);
    }
  }

  /** With A-B 1, B-A 1, A-C 1 and C-C 1, the cycle A-B-A costs 2, but
      the search from C back to A finds nothing, and MAX_VALUE + 1 wraps to
      a negative value that empties the result. Skipping C gives 2. */
  method WrappedCycle() returns (g: Graph, asWritten: Option<nat>, intended: Option<nat>, w: seq<Node>)
    ensures Closed(g) && IsCycle(g, 'A', w) && Cost(g, w) == 2
    ensures asWritten == None && intended == Some(2)
  {
    g := WrapGraph();
    asWritten := WrapAsWritten();
    intended := WrapIntended();
    w := ['A', 'B', 'A'];
    WrapWalk();
  }

  function WrapGraph(): Graph
  {
    map['A' := map['B' := 1, 'C' := 1], 'B' := map['A' := 1], 'C' := map['C' := 1]]
  }

  lemma WrapWalk()
    ensures Closed(WrapGraph()) && IsCycle(WrapGraph(), 'A', ['A', 'B', 'A'])
    ensures Cost(WrapGraph(), ['A', 'B', 'A']) == 2
  {
    var g := WrapGraph();
    CostOfEdge(g, 'A', 'B');
    CostAppend(g, ['A', 'B'], 'A');
    assert ['A', 'B'] + ['A'] == ['A', 'B', 'A'];
  }

  method WrapAsWritten() returns (r: Option<nat>)
    ensures r == None
  {
    var g := WrapGraph();
    assert forall v, u :: v in {'C'} && HasEdge(g, v, u) ==> u in {'C'};
    ClosedSetTraps(g, {'C'}, 'C', 'A');
    assert Poisoned(g, 'A');
    r := ShortestTraceLength(g, 'A', 'A');
  }

  method WrapIntended() returns (r: Option<nat>)
    ensures r == Some(2)
  {
    var g := WrapGraph();
    WrapWalk();
    r := LeastTraceLength(g, 'A', 'A');
    ghost var v :| IsCycle(g, 'A', v) && Cost(g, v) == r.value;
    assert v[1] != 'A';
    CostAtLeastLength(g, v);
  }

  lemma SampleShape()
    ensures Closed(Sample()) && PositiveWeights(Sample())
  {
  }

  /** From C back to C: C-D-C and C-E-B-C stop at their first return
      within three hops, and only C-E-B-C has exactly three. */
  lemma SampleCountTraces()
    ensures CountTraces(Sample(), 'C', 'C', 3, true) == 2
    ensures CountTraces(Sample(), 'C', 'C', 3, false) == 1
  {
    SampleCountShort();
    SampleCountExact();
  }

  /** C-D-C and C-E-B-C come back to C within 3 hops. */
  lemma SampleCountShort()
    ensures CountTraces(Sample(), 'C', 'C', 3, true) == 2
  {
    var g := Sample();
    assert g['B'].Keys == {'C'} && g['E'].Keys == {'B'};
    assert g['C'].Keys == {'D', 'E'} && g['D'].Keys == {'C', 'E'};
    assert {'D', 'E'} - {'D'} == {'E'} && {'C', 'E'} - {'C'} == {'E'};
    assert {'E'} - {'E'} == {} && {'B'} - {'B'} == {} && {'C'} - {'C'} == {};
    assert NextKey({'B'}) == 'B' && NextKey({'C'}) == 'C' && NextKey({'E'}) == 'E';
    assert TracesOver(g, {}, 'C', 1, true) == 0;
    assert TracesOver(g, {}, 'C', 2, true) == 0;
    assert CountTraces(g, 'B', 'C', 1, true) == 1;
    assert CountTraces(g, 'E', 'C', 2, true) == 1;
    assert CountTraces(g, 'E', 'C', 1, true) == 0;
    TracesOverAnyOrder(g, 'D', {'C', 'E'}, 'C', 2, true, 'C');
    assert CountTraces(g, 'D', 'C', 2, true) == 1;
    TracesOverAnyOrder(g, 'C', {'D', 'E'}, 'C', 3, true, 'D');
  }

  /** Only C-E-B-C comes back to C in exactly 3 hops. */
  lemma SampleCountExact()
    ensures CountTraces(Sample(), 'C', 'C', 3, false) == 1
  {
    var g := Sample();
    assert g['B'].Keys == {'C'} && g['E'].Keys == {'B'};
    assert g['C'].Keys == {'D', 'E'} && g['D'].Keys == {'C', 'E'};
    assert {'D', 'E'} - {'D'} == {'E'} && {'C', 'E'} - {'C'} == {'E'};
    assert {'E'} - {'E'} == {} && {'B'} - {'B'} == {} && {'C'} - {'C'} == {};
    assert NextKey({'B'}) == 'B' && NextKey({'C'}) == 'C' && NextKey({'E'}) == 'E';
    assert TracesOver(g, {}, 'C', 1, false) == 0;
    assert TracesOver(g, {}, 'C', 2, false) == 0;
    assert TracesOver(g, {}, 'C', 3, false) == 0;
    assert CountTraces(g, 'B', 'C', 1, false) == 1;
    assert CountTraces(g, 'E', 'C', 2, false) == 1;
    assert CountTraces(g, 'E', 'C', 1, false) == 0;
    assert CountTraces(g, 'D', 'C', 0, false) == 0;
    TracesOverAnyOrder(g, 'C', {'D', 'E'}, 'C', 1, false, 'D');
    assert CountTraces(g, 'C', 'C', 1, false) == 0;
    TracesOverAnyOrder(g, 'D', {'C', 'E'}, 'C', 2, false, 'C');
    assert CountTraces(g, 'D', 'C', 2, false) == 0;
    TracesOverAnyOrder(g, 'C', {'D', 'E'}, 'C', 3, false, 'D');
  }

  /** No edge enters A, so no walk from another node reaches it. */
  lemma NothingReachesA(v: Node)
    requires v in {'B', 'C', 'D', 'E'}
    ensures !Reachable(Sample(), v, 'A')
  {
    var g := Sample();
    assert forall x, u :: x in {'B', 'C', 'D', 'E'} && HasEdge(g, x, u) ==> u in {'B', 'C', 'D', 'E'};
    ClosedSetTraps(g, {'B', 'C', 'D', 'E'}, v, 'A');
  }

  /** Hence neither count finds a trace from C to A. */
  lemma NoTracesToA()
    ensures CountTraces(Sample(), 'C', 'A', 10, true) == 0
    ensures CountTracesUnderLatency(Sample(), 'C', 'A', 10) == 0
  {
    NothingReachesA('C');
    UnreachableNoTraces(Sample(), 'C', 'A', 10);
    SampleShape();
    UnreachableNoCheapTraces(Sample(), 'C', 'A', 10);
  }

  /** Below 12 from A to E: A-E, A-D-E and A-B-C-E; below 11 only A-E
      is left, and nothing is below 0. */
  lemma SampleCheapTraces()
    ensures CountTracesUnderLatency(Sample(), 'A', 'E', 12) == 3
    ensures CountTracesUnderLatency(Sample(), 'A', 'E', 11) == 1
    ensures CountTracesUnderLatency(Sample(), 'A', 'E', 0) == 0
  {
    SampleShape();
    CheapFromA12();
    CheapFromA11();
  }

  /** countTracesUnderLatency over a node with one, two or three
      neighbours, each neighbour's share taken in turn. */
  lemma UnderOne(g: Graph, s: Node, k: Node, e: Node, L: int)
    requires Closed(g) && PositiveWeights(g) && L > 0 && s in g && g[s].Keys == {k}
    ensures CountTracesUnderLatency(g, s, e, L) == UnderStep(g, s, k, e, L)
  {
    UnderOverAnyOrder(g, s, {k}, e, L, k);
    assert {k} - {k} == {};
  }

  lemma UnderTwo(g: Graph, s: Node, j: Node, k: Node, e: Node, L: int)
    requires Closed(g) && PositiveWeights(g) && L > 0 && s in g && g[s].Keys == {j, k} && j != k
    ensures CountTracesUnderLatency(g, s, e, L) == UnderStep(g, s, j, e, L) + UnderStep(g, s, k, e, L)
  {
    UnderOverAnyOrder(g, s, {j, k}, e, L, j);
    assert {j, k} - {j} == {k};
    UnderOverAnyOrder(g, s, {k}, e, L, k);
    assert {k} - {k} == {};
  }

  lemma UnderThree(g: Graph, s: Node, i: Node, j: Node, k: Node, e: Node, L: int)
    requires Closed(g) && PositiveWeights(g) && L > 0 && s in g
    requires g[s].Keys == {i, j, k} && i != j && j != k && i != k
    ensures CountTracesUnderLatency(g, s, e, L) ==
      UnderStep(g, s, i, e, L) + UnderStep(g, s, j, e, L) + UnderStep(g, s, k, e, L)
  {
    UnderOverAnyOrder(g, s, {i, j, k}, e, L, i);
    assert {i, j, k} - {i} == {j, k};
    UnderOverAnyOrder(g, s, {j, k}, e, L, j);
    assert {j, k} - {j} == {k};
    UnderOverAnyOrder(g, s, {k}, e, L, k);
    assert {k} - {k} == {};
  }

  lemma CheapFromA12()
    ensures CountTracesUnderLatency(Sample(), 'A', 'E', 12) == 3
  {
    var g := Sample();
    SampleShape();
    UnderOne(g, 'E', 'B', 'E', 1);
    UnderTwo(g, 'C', 'D', 'E', 'E', 3);
    UnderOne(g, 'B', 'C', 'E', 7);
    UnderTwo(g, 'D', 'C', 'E', 'E', 7);
    UnderOne(g, 'B', 'C', 'E', 2);
    UnderOne(g, 'E', 'B', 'E', 5);
    UnderThree(g, 'A', 'B', 'D', 'E', 'E', 12);
  }

  lemma CheapFromA11()
    ensures CountTracesUnderLatency(Sample(), 'A', 'E', 11) == 1
  {
    var g := Sample();
    SampleShape();
    UnderTwo(g, 'C', 'D', 'E', 'E', 2);
    UnderOne(g, 'B', 'C', 'E', 6);
    UnderTwo(g, 'D', 'C', 'E', 'E', 6);
    UnderOne(g, 'B', 'C', 'E', 1);
    UnderOne(g, 'E', 'B', 'E', 4);
    UnderThree(g, 'A', 'B', 'D', 'E', 'E', 11);
  }

  /** Nothing reaches A, so the search from C to A comes back empty. */
  method SearchToA() returns (ca: Option<nat>)
    ensures ca == None
  {
    SampleShape();
    NothingReachesA('C');
    ca := DijkstraSearch(Sample(), 'C', 'A');
  }

  /** The shortest traces on the sample: none from C to A; none from A
      back to A, since no neighbour of A gets back to it; 9 for the cycle
      through C; 9 or 13 from A to C, as for the search; and 7 from A to E
      over the direct edge. */
  method SampleShortest() returns (ca: Option<nat>, aa: Option<nat>, cc: Option<nat>,
                                   ac: Option<nat>, ae: Option<nat>)
    ensures ca == None && aa == None && cc == Some(9) && ae == Some(7)
    ensures ac == Some(9) || ac == Some(13)
  {
    var g := Sample();
    SampleShape();
    NothingReachesA('C');
    ca := ShortestTraceLength(g, 'C', 'A');
    NothingReachesA('B');
    assert Poisoned(g, 'A');
    aa := ShortestTraceLength(g, 'A', 'A');
    cc := CycleThroughC();
    ac := ShortestAToC();
    ae := ShortestTraceLength(g, 'A', 'E');
  }

  /** The cycle through C: from E the search back to C can only give 7,
      and from D only 8, so C-E-B-C at 2 + 7 beats C-D-C at 8 + 8. */
  method CycleThroughC() returns (cc: Option<nat>)
    ensures cc == Some(9)
  {
    var g := Sample();
    SampleShape();
    BackToC();
    cc := ShortestTraceLength(g, 'C', 'C');
    assert cc.Some?;
    assert exists v: nat :: SearchValue(g, 'E', 'C', v) && cc.value <= g['C']['E'] + v;
    CycleNine(cc);
  }

  /** A value made of an edge out of C and a search value back to C, and
      no greater than the way back through E, is 9. */
  lemma CycleNine(r: Option<nat>)
    requires r.Some?
    requires exists n, v: nat :: (n in Sample()['C'] && SearchValue(Sample(), n, 'C', v) &&
                                  r.value == Sample()['C'][n] + v)
    requires exists v: nat :: SearchValue(Sample(), 'E', 'C', v) && r.value <= Sample()['C']['E'] + v
    ensures r == Some(9)
  {
    var g := Sample();
    var n: Node, v: nat :| n in g['C'] && SearchValue(g, n, 'C', v) && r.value == g['C'][n] + v;
    if n == 'E' {
      ValueFromE(v);
    } else {
      ValueFromD(v);
    }
    var v': nat :| SearchValue(g, 'E', 'C', v') && r.value <= g['C']['E'] + v';
    ValueFromE(v');
  }

  /** Both neighbours of C get back to it. */
  lemma BackToC()
    ensures Reachable(Sample(), 'D', 'C') && Reachable(Sample(), 'E', 'C')
    ensures !Poisoned(Sample(), 'C')
  {
    var g := Sample();
    assert WalkFromTo(g, ['D', 'C'], 'D', 'C');
    assert WalkFromTo(g, ['E', 'B', 'C'], 'E', 'C');
  }

  /** Seen from E, the nearest in-neighbour of C is B at 3, since D is at
      least 7 away: the search from E to C can only give 3 + 4. */
  lemma ValueFromE(v: nat)
    requires SearchValue(Sample(), 'E', 'C', v)
    ensures v == 7
  {
    var g := Sample();
    var c: Node, d: nat :| NearestEntry(g, 'E', 'C', c, d) && v == d + Weight(g, c, 'C');
    assert c == 'B' || c == 'D';
    NearEThree();
    assert d <= 3;
    var w :| WalkFromTo(g, w, 'E', c) && Cost(g, w) == d;
    assert c == 'B' by {
      if c == 'D' {
        FromEToD(w);
      }
    }
    Leaving('E', w, 'B', 3);
  }

  /** Seen from D, D itself is an in-neighbour of C at distance 0, and B
      is not at 0: the search from D to C can only give 0 + 8. */
  lemma ValueFromD(v: nat)
    requires SearchValue(Sample(), 'D', 'C', v)
    ensures v == 8
  {
    var g := Sample();
    var c: Node, d: nat :| NearestEntry(g, 'D', 'C', c, d) && v == d + Weight(g, c, 'C');
    assert WalkFromTo(g, ['D'], 'D', 'D') && Cost(g, ['D']) == 0;
    assert ShortestDistance(g, 'D', 'D', 0);
    assert HasEdge(g, 'D', 'C');
    assert d == 0;
    var w :| WalkFromTo(g, w, 'D', c) && Cost(g, w) == d;
    assert c == 'D' by {
      if c == 'B' {
        SampleShape();
        CostAtLeastLength(g, w);
      }
    }
  }

  /** B is at distance 3 from E, over E's only edge. */
  lemma NearEThree()
    ensures ShortestDistance(Sample(), 'E', 'B', 3)
  {
    var g := Sample();
    CostOfEdge(g, 'E', 'B');
    assert WalkFromTo(g, ['E', 'B'], 'E', 'B');
    forall w | WalkFromTo(g, w, 'E', 'B') ensures Cost(g, w) >= 3 {
      Leaving('E', w, 'B', 3);
    }
  }

  /** A walk from E to D starts E-B and then leaves B over its edge of 4. */
  lemma FromEToD(w: seq<Node>)
    requires WalkFromTo(Sample(), w, 'E', 'D')
    ensures Cost(Sample(), w) >= 7
  {
    var g := Sample();
    CostSplit(g, w, 1);
    assert w[..2] == [w[0], w[1]];
    CostOfEdge(g, w[0], w[1]);
    assert WalkFromTo(g, w[1..], 'B', 'D');
    Leaving('B', w[1..], 'D', 4);
  }

  /** From A to C the shortest trace is one of the search's two values. */
  method ShortestAToC() returns (ac: Option<nat>)
    ensures ac == Some(9) || ac == Some(13)
  {
    var g := Sample();
    SampleShape();
    CostOfEdge(g, 'A', 'B');
    CostAppend(g, ['A', 'B'], 'C');
    assert WalkFromTo(g, ['A', 'B'] + ['C'], 'A', 'C');
    ac := ShortestTraceLength(g, 'A', 'C');
    ghost var c: Node, d: nat :| NearestEntry(g, 'A', 'C', c, d) && ac.value == d + Weight(g, c, 'C');
    EntriesOfC(c, d);
  }

  /** When every edge out of a costs at least m, so does every walk from a
      to another node. */
  lemma Leaving(a: Node, w: seq<Node>, v: Node, m: nat)
    requires a in Sample() && WalkFromTo(Sample(), w, a, v) && v != a
    requires forall u :: u in Sample()[a] ==> Sample()[a][u] >= m
    ensures Cost(Sample(), w) >= m
  {
    var g := Sample();
    CostSplit(g, w, 1);
    assert w[..2] == [w[0], w[1]];
    CostOfEdge(g, w[0], w[1]);
  }

  /** B and D are both at distance 5 from A. */
  lemma NearAFive(c: Node)
    requires c == 'B' || c == 'D'
    ensures ShortestDistance(Sample(), 'A', c, 5)
  {
    var g := Sample();
    CostOfEdge(g, 'A', c);
    assert WalkFromTo(g, ['A', c], 'A', c);
    forall w | WalkFromTo(g, w, 'A', c) ensures Cost(g, w) >= 5 {
      Leaving('A', w, c, 5);
    }
  }

  /** A nearest in-neighbour of C seen from A is B or D, both at 5. */
  lemma EntriesOfC(c: Node, d: nat)
    requires NearestEntry(Sample(), 'A', 'C', c, d)
    ensures d + Weight(Sample(), c, 'C') == 9 || d + Weight(Sample(), c, 'C') == 13
  {
    var g := Sample();
    assert c == 'B' || c == 'D';
    NearAFive(c);
    var w :| WalkFromTo(g, w, 'A', c) && Cost(g, w) == d;
    var w5 :| WalkFromTo(g, w5, 'A', c) && Cost(g, w5) == 5;
  }

  /** The search from A to C settles B and D, both at 5, in either order,
      and whichever is picked first offers its edge into C: 9 through B or
      13 through D. The value 9 depends on the HashSet scanning order. */
  method SampleTie() returns (ac: Option<nat>)
    ensures ac == Some(9) || ac == Some(13)
  {
    var g := Sample();
    SampleShape();
    ac := DijkstraSearch(g, 'A', 'C');
    CostOfEdge(g, 'A', 'B');
    CostAppend(g, ['A', 'B'], 'C');
    assert WalkFromTo(g, ['A', 'B'] + ['C'], 'A', 'C');
    ghost var c: Node, d: nat :| NearestEntry(g, 'A', 'C', c, d) && ac.value == d + Weight(g, c, 'C');
    EntriesOfC(c, d);
  }
}
