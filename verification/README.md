# Distributed tracing graph, modelled in Dafny

This project models `GraphProcessing`, the core of a small tool that answers
questions about a latency graph of services. It covers these parts:

- **Building the graph.** The graph is given as text such as
  `AB5,BC4,CD8`. Each token `<from><to><digit>` is a directed edge with a
  latency of 0 to 9.
- **Trace latency.** `averageLatency` gives the summed latency of a given
  trace.
- **Counting traces by hops.** `countTraces` counts traces within a hop
  budget, either stopping at the first arrival or requiring an exact hop
  count.
- **Counting traces by latency.** `countTracesUnderLatency` counts traces
  whose latency is below a bound.
- **Searching.** `dijkstraSearch` is a Dijkstra search that stops early.
  `shortestTraceLength` uses it. For equal start and end it adds each
  neighbour's latency to a search back from that neighbour and keeps the
  least. "## Findings" shows where this misses the shortest cycle.

Modules, one file each:

| file | module | what it holds |
|---|---|---|
| `graph.dfy` | `Graph` | nodes as `char`; the graph as `map<Node, map<Node, nat>>`; walks and their cost; reachability; the finite set of walks up to a length |
| `split.dfy` | `Split` | `String.split(",")` with its default limit: trailing empty pieces dropped, a text without commas returned whole |
| `parser.dfy` | `Parser` | the constructor: token checks, duplicate edges, the resulting graph, the text form of a graph |
| `latency.dfy` | `Latency` | `averageLatency` |
| `traces.dfy` | `Traces` | `countTraces` and `countTracesUnderLatency` as recursive functions, with what they count as sets of walks |
| `search.dfy` | `Search` | `dijkstraSearch`, `shortestTraceLength`, and the corrected searches |
| `examples.dfy` | `Examples` | the sample graph of the tests and small graphs that show the findings |

How Java's values are represented:

- `Integer.MAX_VALUE` used as "unreached" is `None`.
- The thrown `RuntimeException`s of the constructor are a `Result` with a
  `BuildError`.
- The order in which a `HashMap` or `HashSet` is scanned is unspecified:
  - The counting functions take the least key first. Separate lemmas show
    that any key taken first gives the same count.
  - Dijkstra's selection of the closest frontier node is nondeterministic
    (`Closest`). Every property of the search holds for every tie-break.

Where each Java operation is in the model:

| Java | Dafny definition | what its meaning is proved by |
|---|---|---|
| the constructor (65-86) | `Parser.Build`, looping with `Parser.Load` over `Split.JavaSplit` | `Parser.BuildSpec`, `Parser.LoadSpec`, `Split.JavaSplitSpec` |
| `averageLatency` (95-107) | `Latency.AverageLatency` | its own contract |
| `countTraces` (119-133) | `Traces.CountTraces`, with its neighbour loop `Traces.TracesOver` | `Traces.CountTracesExact`, `Traces.CountTracesShort` |
| `shortestTraceLength` (146-164) | `Search.ShortestTraceLength`, with `Search.CycleSearch`, `Search.Absorb` and `Search.Outcome` | its own contract, `Search.CycleOutcome` |
| `countTracesUnderLatency` (176-192) | `Traces.CountTracesUnderLatency`, with `Traces.UnderOver` and `Traces.UnderStep` | `Traces.CountUnderLatencyCounts` |
| `dijkstraSearch` (203-245) | `Search.DijkstraSearch`, with `Search.Settle`, `Search.Visit` and `Search.RelaxEdges` | its own contract |

`Traces.NextKey` stands for the unspecified scanning order of a key set: it takes the least key.

## Model

| member | source | states |
|---|---|---|
| Split.SplitAllPieces | src/main/java/xyz/umarhussain/GraphProcessing.java:66 | splitting at every comma gives comma-free pieces, one more than there are commas |
| Split.JoinSplitAll | src/main/java/xyz/umarhussain/GraphProcessing.java:66 | gluing the pieces back with commas gives the text again |
| Split.SplitAllJoin | src/main/java/xyz/umarhussain/GraphProcessing.java:66 | splitting a comma-join of comma-free pieces gives those pieces back |
| Split.DropTrailingEmpty | src/main/java/xyz/umarhussain/GraphProcessing.java:66 | the kept pieces are a prefix ending in a non-empty piece (or none are kept), and only empty pieces are dropped |
| Split.JavaSplitSpec | src/main/java/xyz/umarhussain/GraphProcessing.java:66 | a text without a comma is one piece, even when empty; otherwise the pieces are the comma-separated fields up to the last non-empty one, all comma-free |
| Split.JavaSplitJoin | src/main/java/xyz/umarhussain/GraphProcessing.java:66 | splitting a comma-join of non-empty comma-free pieces gives exactly those pieces |
| Split.JavaSplitTrailing | src/main/java/xyz/umarhussain/GraphProcessing.java:66 | one trailing comma after non-empty comma-free pieces is dropped: the split gives exactly those pieces |
| Parser.ParseToken | src/main/java/xyz/umarhussain/GraphProcessing.java:70-75 | a token is accepted exactly when it has 3 characters and a decimal digit third; the length is tested first; an accepted token is the text form of the edge read from it |
| Parser.ParseEncode | src/main/java/xyz/umarhussain/GraphProcessing.java:73-75 | reading the text form of an edge with latency 0-9 gives the edge back |
| Parser.AddEdge | src/main/java/xyz/umarhussain/GraphProcessing.java:76-84 | fails with the duplicate pair exactly when the edge is already present; otherwise adds exactly that edge with its latency, keeps every other edge and latency, and adds only its from-node as a key |
| Parser.LoadSpec | src/main/java/xyz/umarhussain/GraphProcessing.java:69-85 | the token loop succeeds exactly when the tokens are clean: all well formed, all new, no ordered pair repeated; the graph then holds exactly the earlier edges and the tokens' edges, with the tokens' digits as latencies |
| Parser.LoadFault | src/main/java/xyz/umarhussain/GraphProcessing.java:69-85 | a failed token loop reports the error of a token whose predecessors are clean, of the kind that token deserves |
| Parser.BuildSpec | src/main/java/xyz/umarhussain/GraphProcessing.java:65-86 | the constructor accepts a text exactly when its split pieces are clean; the graph then has exactly the named edges, with latencies equal to the digits (at most 9), and every key has an out-edge; a rejection names the fault of the first bad piece |
| Parser.EncodeClean | src/main/java/xyz/umarhussain/GraphProcessing.java:65-86 | the text of distinct edges splits back into their tokens, which are clean and encode those edges |
| Parser.BuildEncode | src/main/java/xyz/umarhussain/GraphProcessing.java:65-86 | the constructor reads the text of a list of distinct edges back into a graph with exactly those edges and latencies |
| Parser.TokensMatch | src/main/java/xyz/umarhussain/GraphProcessing.java:73-84 | a graph holding exactly the edges named by the tokens holds exactly the edges they encode, with their latencies |
| Latency.AverageLatency | src/main/java/xyz/umarhussain/GraphProcessing.java:95-107 | the result is present exactly when every consecutive pair of the trace is an edge, and is then the trace's summed latency |
| Traces.CountTracesExact | src/main/java/xyz/umarhussain/GraphProcessing.java:119-133 | without countShort, the count is the number of walks from start with exactly `hops` edges ending at find |
| Traces.TracesOverExact | src/main/java/xyz/umarhussain/GraphProcessing.java:124-131 | the neighbour loop without countShort counts exactly the exact-length walks through the neighbours still to visit |
| Traces.CountTracesShort | src/main/java/xyz/umarhussain/GraphProcessing.java:119-133 | with countShort, the count is the number of walks of 1 to `hops` edges from start that reach find only at their last node |
| Traces.TracesOverShort | src/main/java/xyz/umarhussain/GraphProcessing.java:124-131 | the neighbour loop with countShort counts exactly the first-arrival walks through the neighbours still to visit |
| Traces.TracesOverAnyOrder | src/main/java/xyz/umarhussain/GraphProcessing.java:124-131 | the neighbour loop gives the same total whichever neighbour is visited first |
| Traces.UnreachableNoTraces | src/main/java/xyz/umarhussain/GraphProcessing.java:119-133 | when find cannot be reached from start, both counts are 0 |
| Traces.CountUnderLatencyCounts | src/main/java/xyz/umarhussain/GraphProcessing.java:176-192 | the count is the number of walks of at least one edge from start to end whose latency is strictly below the bound; 0 for a bound of 0 or less |
| Traces.UnderOverCounts | src/main/java/xyz/umarhussain/GraphProcessing.java:181-190 | the neighbour loop counts exactly the cheap walks through the neighbours still to visit |
| Traces.UnderStepCounts | src/main/java/xyz/umarhussain/GraphProcessing.java:182-189 | one neighbour adds exactly the cheap walks that leave start through it, the one-edge walk included when the neighbour is end |
| Traces.CountUnderLatencyMonotone | src/main/java/xyz/umarhussain/GraphProcessing.java:176-192 | raising the bound never lowers the count |
| Traces.UnderOverAnyOrder | src/main/java/xyz/umarhussain/GraphProcessing.java:181-190 | the neighbour loop gives the same total whichever neighbour is visited first |
| Traces.UnreachableNoCheapTraces | src/main/java/xyz/umarhussain/GraphProcessing.java:176-192 | when end cannot be reached from start, the count is 0 for every bound |
| Search.Closest | src/main/java/xyz/umarhussain/GraphProcessing.java:236-242 | the selection loop returns a frontier node whose tentative distance is no larger than any other frontier node's |
| Search.ClosestIsShortest | src/main/java/xyz/umarhussain/GraphProcessing.java:236-242 | once every settled node's edges are relaxed, the closest frontier node's tentative distance is its exact distance, and no walk to any unsettled node is cheaper |
| Search.RelaxEdge | src/main/java/xyz/umarhussain/GraphProcessing.java:221-232 | one pass over a peer keeps every distance witnessed by a real walk, relaxes the edge to an unvisited peer, and reports found exactly when the peer is end and end differs from start |
| Search.RelaxEdges | src/main/java/xyz/umarhussain/GraphProcessing.java:219-233 | the peer loop either relaxes every edge out of current or stops at the edge into end, setting end's distance to current's plus that edge |
| Search.VisitStops | src/main/java/xyz/umarhussain/GraphProcessing.java:229-235 | when the edge into end is found or the frontier runs dry, the settled distances are exact; on an empty frontier no edge leaves the settled set; on found, current is the only settled node with an edge into end |
| Search.VisitContinues | src/main/java/xyz/umarhussain/GraphProcessing.java:235-242 | otherwise the node picked next is at its exact distance and nearest among all unsettled nodes |
| Search.Visit | src/main/java/xyz/umarhussain/GraphProcessing.java:216-243 | one pass of the search loop settles current and either stops in the state above or hands the search state on to the next node |
| Search.Settle | src/main/java/xyz/umarhussain/GraphProcessing.java:203-244 | the search loop terminates; every recorded distance is the cost of a real walk and exact for settled nodes; without found the settled set is closed under edges and end is unreached |
| Search.EntryIsNearest | src/main/java/xyz/umarhussain/GraphProcessing.java:227-230 | the settled node through which end was found is an in-neighbour of end at least as near to start as every other in-neighbour |
| Search.DijkstraSearch | src/main/java/xyz/umarhussain/GraphProcessing.java:203-245 | 0 when start is end; otherwise empty exactly when end is unreachable, and a result is the cost of a real walk equal to the distance of a nearest in-neighbour of end plus its edge; a direct edge gives its own latency |
| Search.SettledSearch | src/main/java/xyz/umarhussain/GraphProcessing.java:203-245 | the search stopped when end is picked rather than when it is first relaxed: empty exactly when end is unreachable, and otherwise the least latency of a walk |
| Search.Absorb | src/main/java/xyz/umarhussain/GraphProcessing.java:152-157 | one neighbour round: an unreachable neighbour behind a positive latency wraps to a negative value, which stays; a reachable one gives latency plus result when that is smaller |
| Search.AbsorbStep | src/main/java/xyz/umarhussain/GraphProcessing.java:152-157 | a round keeps the running value equal to the least latency-plus-result over the neighbours seen, or wrapped when one of them wrapped |
| Search.CycleSearch | src/main/java/xyz/umarhussain/GraphProcessing.java:150-158 | the neighbour loop leaves the least latency-plus-result over all neighbours, each result being what dijkstraSearch from that neighbour back to start gives |
| Search.CycleOutcome | src/main/java/xyz/umarhussain/GraphProcessing.java:147-163 | for start equal to end: empty exactly when a neighbour behind a positive latency cannot get back or no neighbour can; a result is a real cycle through start, no longer than any two-edge cycle |
| Search.CycleValue | src/main/java/xyz/umarhussain/GraphProcessing.java:150-158 | a result for start equal to end is latency(s, n) plus a value `DijkstraSearch`'s contract allows for (n, s), for some neighbour n, and is no larger than that for any neighbour that gets back |
| Search.ShortestTraceLength | src/main/java/xyz/umarhussain/GraphProcessing.java:146-164 | for distinct nodes, the search result, empty exactly when end is unreachable; for equal nodes, the cycle result above; every result is the cost of a real walk of at least one edge |
| Search.LeastStep | src/main/java/xyz/umarhussain/GraphProcessing.java:152-157 | in the corrected cycle loop a neighbour's exact distance back plus its edge competes with the best so far, and an unreachable neighbour changes nothing |
| Search.LeastFinal | src/main/java/xyz/umarhussain/GraphProcessing.java:146-164 | after every neighbour, the best value is the cost of a cycle and no cycle through start is cheaper; it is empty exactly when there is no cycle |
| Search.LeastTraceLength | src/main/java/xyz/umarhussain/GraphProcessing.java:146-164 | the corrected shortestTraceLength: the least latency of a trace from start to end, of at least one edge when they are equal, empty exactly when there is none |
| Examples.SampleLatencies | src/test/java/xyz/umarhussain/GraphProcessingTest.java:46-57 | on the sample graph A-B-C costs 9 and A-E-B-C-D costs 22, while A-E-D and C-A-D-E have no result |
| Examples.SearchToA | src/test/java/xyz/umarhussain/GraphProcessingTest.java:59-63 | the search from C to A on the sample graph finds nothing |
| Examples.SampleTie | src/test/java/xyz/umarhussain/GraphProcessingTest.java:65-69 | the search from A to C on the sample graph gives 9 or 13, depending on the tie-break between B and D |
| Examples.NoTracesToA | src/test/java/xyz/umarhussain/GraphProcessingTest.java:71-75 | no trace from C reaches A, by hops or under a latency bound |
| Examples.SampleCountTraces | src/test/java/xyz/umarhussain/GraphProcessingTest.java:77-87 | from C back to C there are 2 traces within 3 hops and 1 with exactly 3 |
| Examples.SampleCheapTraces | src/test/java/xyz/umarhussain/GraphProcessingTest.java:95-107 | from A to E there are 3 traces below 12, 1 below 11 and none below 0 |
| Examples.SampleShortest | src/test/java/xyz/umarhussain/GraphProcessingTest.java:109-134 | on the sample graph the shortest trace from C to A and the shortest cycle through A are empty, the shortest cycle through C is 9, from A to C it is 9 or 13, and from A to E it is 7 |
| Examples.CycleThroughC | src/test/java/xyz/umarhussain/GraphProcessingTest.java:116-119 | the shortest cycle through C is 9: the search back from E can only give 7 and the one from D only 8 |
| Examples.ShortestAToC | src/test/java/xyz/umarhussain/GraphProcessingTest.java:126-129 | the shortest trace from A to C is 9 or 13, depending on the tie-break between B and D |
| Examples.LongToken | src/test/java/xyz/umarhussain/GraphProcessingTest.java:22-26 | a four-character token after three good ones is rejected as malformed |
| Examples.RepeatedLastEdge | src/test/java/xyz/umarhussain/GraphProcessingTest.java:28-32 | a repeated C-E token is rejected as a duplicate |
| Examples.EmptyText | src/test/java/xyz/umarhussain/GraphProcessingTest.java:34-38 | the empty text is one empty piece and is rejected |
| Examples.TrailingComma | src/test/java/xyz/umarhussain/GraphProcessingTest.java:40-44 | a trailing comma is ignored and the three edges are built |
| Examples.LoneComma | src/main/java/xyz/umarhussain/GraphProcessing.java:66 | a lone comma splits into no pieces and gives the empty graph |
| Examples.LeadingComma | src/main/java/xyz/umarhussain/GraphProcessing.java:66-72 | an empty piece before a comma is kept and rejected |
| Examples.LetterLatency | src/main/java/xyz/umarhussain/GraphProcessing.java:75 | a letter in the latency position is rejected |
| Examples.RepeatedPair | src/main/java/xyz/umarhussain/GraphProcessing.java:80-83 | the same ordered pair twice is rejected whatever the latencies |
| Examples.EarlyExitOverestimates | src/main/java/xyz/umarhussain/GraphProcessing.java:227-230 | on a four-edge graph the search as written reports 9 from A to C while A-B-C costs 2, and the corrected search reports 2 |
| Examples.WrappedCycle | src/main/java/xyz/umarhussain/GraphProcessing.java:152-163 | on a four-edge graph the cycle A-B-A costs 2, but one neighbour that cannot get back empties the result as written, while the corrected version gives 2 |

## Left out

- `main`, file reading, printing and the text of the exception messages are not modelled.
- Java's 32-bit `int` arithmetic is not modelled. Distances, counts and latencies are unbounded integers. The one exception is `MAX_VALUE + latency` at line 154, which is modelled because it changes the result. Latency sums would overflow only beyond 2^31 from latencies of at most 9. The counters of `countTraces` and `countTracesUnderLatency` are Java `int`s too: they wrap once there are more than 2^31 - 1 traces, and the model's counts do not wrap.
- `Parser.ParseToken`: a digit is `'0'..'9'`. `Integer.valueOf` also accepts other Unicode decimal digits, which are not modelled.
- `Parser.ParseToken` and `Parser.BuildSpec`: a token is a sequence of Unicode characters, and its length counts characters. Java's `length()` counts UTF-16 code units, so the two disagree on characters outside the Basic Multilingual Plane. Java rejects a token such as `"\U{1F600}B5"`, four units long, which the model accepts. Java accepts `"\U{1F600}5"`, three units long, as an edge between the two surrogate halves, which the model rejects.
- The concrete scanning order of `HashMap` and `HashSet` is not modelled. The counts are shown not to depend on it. The search result may depend on it, as `Examples.SampleTie` shows.
- Calls that would throw a `NullPointerException` become preconditions:
  - `Search.DijkstraSearch` requires every edge target to be a key (`Closed`) and start to be a key.
  - `Search.ShortestTraceLength` also requires end to be a key. For distinct nodes, Java unboxes the `null` that `distances.get(end)` gives otherwise.
  - `Traces.CountTracesUnderLatency` requires start to be a key when the bound is positive.
- `Latency.AverageLatency` requires a non-empty trace. Java fails on an empty list with an `IndexOutOfBoundsException` from `nodes.get(0)` (line 97).
- `Search.DijkstraSearch`: with latency-0 edges, the contract also allows a nearest in-neighbour of end that Java never settles before stopping. It states that the value is the exact distance of some nearest in-neighbour plus its edge into end, but not that this in-neighbour is the one settled first. Take the edges S-P 5, P-Q 0, P-E 1, Q-E 3, E-S 1. P and Q are both at 5 from S, so the contract allows 5 + 3 = 8 from S to E. Java settles S and then P, and stops at the edge P-E with 6 in every scanning order, because Q is discovered only from P.
- `Search.DijkstraSearch`: when end is not a node of the graph, Java returns the `null` of `distances.get(end)`. The model returns `None`, its stand-in for `Integer.MAX_VALUE`. `dijkstraSearch` is public, so a direct caller gets `null` where the model gives `None`. `shortestTraceLength` with such an end throws when it unboxes that `null`, and `Search.ShortestTraceLength`'s precondition that end is a key excludes that case.
- The constructor can build a graph that breaks `Closed`, for example `"AB3"`, where B has no out-edges. The searches on such a graph are not modelled.
- `Traces.CountTraces`: the hop budget is a `nat`. With a negative `hops`, Java recurses until the stack overflows whenever a cycle is reachable from start. With `countShort`, that has to be a cycle avoiding find, reachable without stepping onto find, because an edge into find is counted and not followed (lines 127-129). On `"AB1,BA1"`, `countTraces(A, B, -1, true)` returns 1. Otherwise it returns a count: on `"AB1"`, `countTraces(A, B, -1, false)` gives 0 and `countTraces(A, B, -1, true)` gives 1. Neither case is modelled.
- `Traces.CountTracesUnderLatency` requires `Closed`: every edge target is a key. Java also answers some graphs that break this, as long as the recursion never reaches a node without out-edges. On `"AB5"`, the query from A to B below 5 gives 0 without looking up B. Those graphs are not modelled.
- `Traces.CountTracesUnderLatency` requires every latency to be at least 1. An edge of latency 0 lets Java recurse forever around a zero-latency cycle. The precondition also excludes graphs with a 0 edge that lies on no such cycle, because their count is not modelled.
- `Search.ShortestTraceLength` and `Search.CycleValue`: the cycle result is described through the values `DijkstraSearch`'s contract allows for each inner search. It is not pinned to a number, because the inner searches depend on the tie-break, and because that contract also admits values Java never gives when there are latency-0 edges (see the `Search.DijkstraSearch` line above).
- `Examples.SampleTie`: the test's 9 for A to C is only one of the values the model allows.
- `Examples.SampleShortest` and `Examples.ShortestAToC`: the test's 9 for the shortest trace from A to C is only one of the two values the model allows, as for `Examples.SampleTie`.

## Findings

| source | as written | input that shows it | evidently intended | confidence | as-written member | corrected member |
|---|---|---|---|---|---|---|
| src/main/java/xyz/umarhussain/GraphProcessing.java:227-230 | the search returns end's tentative distance as soon as an edge into end is first relaxed | edges A-B 1, A-C 9, B-C 1, C-A 1; dijkstraSearch(A, C) gives 9, while A-B-C costs 2 | the least latency from start to end, by stopping only when end is the node picked | not executed | Examples.EarlyExitOverestimates | Search.SettledSearch |
| src/main/java/xyz/umarhussain/GraphProcessing.java:152-157 | `MAX_VALUE + latency` for a neighbour that cannot get back wraps to a negative value, which becomes the minimum, and the final test then empties the result | edges A-B 1, B-A 1, A-C 1, C-C 1; shortestTraceLength(A, A) is empty, while A-B-A costs 2 | such a neighbour is skipped, giving the shortest cycle, 2 | not executed | Examples.WrappedCycle | Search.LeastTraceLength |

`Search.ShortestTraceLength` and `Search.DijkstraSearch` keep the code as written. `Search.LeastTraceLength` is the corrected operation. It is built on `Search.SettledSearch` and skips unreachable neighbours.
