/** Building the latency graph from its text form (the GraphProcessing
    constructor): the text is split at commas, and each piece must be a
    three-character token "<from><to><digit>" naming a directed edge that
    has not been given before. */
module Parser {
  import opened Graph
  import opened Split

  datatype Edge = Edge(from: Node, to: Node, latency: nat)

  /** Why the constructor throws. */
  datatype BuildError =
    | MalformedToken(token: String)       // a piece whose length is not 3
    | BadLatency(token: String)           // a third character that is not a digit
    | DuplicateEdge(from: Node, to: Node) // the same ordered pair given twice

  datatype Result<T> = Ok(value: T) | Err(error: BuildError)

  predicate IsDigit(c: char)
  {
    '0' <= c <= '9'
  }

  function DigitValue(c: char): nat
    requires IsDigit(c)
  {
    c as int - '0' as int
  }

  /** A token the constructor accepts on its own. */
  predicate WellFormed(t: String)
  {
    |t| == 3 && IsDigit(t[2])
  }

  /** The text form of an edge, which ParseToken reads back. */
  function EncodeEdge(e: Edge): String
    requires e.latency <= 9
  {
    [e.from, e.to, (e.latency + '0' as int) as char]
  }

  /** One token: the length test comes first, then the digit; the latency
      is the digit's value. An accepted token is the text form of the edge
      read from it. */
  function ParseToken(t: String): (r: Result<Edge>)
    ensures r.Ok? ==> r.value.latency <= 9 && EncodeEdge(r.value) == t
    ensures r.Ok? <==> WellFormed(t)
    ensures r.Err? ==> r.error == (if |t| != 3 then MalformedToken(t) else BadLatency(t))
  {
    if |t| != 3 then Err(MalformedToken(t))
    else if !IsDigit(t[2]) then Err(BadLatency(t))
    else Ok(Edge(t[0], t[1], DigitValue(t[2])))
  }

  /** Reading the text form of an edge gives the edge back. */
  lemma ParseEncode(e: Edge)
    requires e.latency <= 9
    ensures ParseToken(EncodeEdge(e)) == Ok(e)
  {
  }

  /** Put one edge into the graph, creating the from-node's adjacency on
      first use; an edge already present is a duplicate. */
  function AddEdge(g: Graph, e: Edge): (r: Result<Graph>)
    ensures r.Err? <==> HasEdge(g, e.from, e.to)
    ensures r.Err? ==> r.error == DuplicateEdge(e.from, e.to)
    ensures r.Ok? ==> r.value.Keys == g.Keys + {e.from}
    ensures r.Ok? ==> forall a, b :: HasEdge(r.value, a, b) <==> HasEdge(g, a, b) || (a == e.from && b == e.to)
    ensures r.Ok? ==> forall a, b :: HasEdge(g, a, b) ==> HasEdge(r.value, a, b) && r.value[a][b] == g[a][b]
    ensures r.Ok? ==> HasEdge(r.value, e.from, e.to) && r.value[e.from][e.to] == e.latency
  {
    var peers := if e.from in g then g[e.from] else map[];
    if e.to in peers then Err(DuplicateEdge(e.from, e.to))
    else Ok(g[e.from := peers[e.to := e.latency]])
  }

  /** The constructor's loop over the tokens, from the graph built so far;
      the first token that fails stops the build. */
  function Load(ts: seq<String>, acc: Graph): Result<Graph>
    decreases |ts|
  {
    if ts == [] then Ok(acc)
    else
      match ParseToken(ts[0])
      case Err(x) => Err(x)
      case Ok(e) =>
        match AddEdge(acc, e)
        case Err(x) => Err(x)
        case Ok(acc') => Load(ts[1..], acc')
  }

  /** new GraphProcessing(s). */
  function Build(s: String): Result<Graph>
  {
    Load(JavaSplit(s), map[])
  }

  // ---------------------------------------------------------------------
  // What a build accepts and what it yields

  /** Every token is well formed, names an edge not in acc, and no two
      tokens name the same ordered pair. */
  predicate Clean(acc: Graph, ts: seq<String>)
  {
    (forall i :: 0 <= i < |ts| ==> WellFormed(ts[i])) &&
    (forall i :: 0 <= i < |ts| ==> !HasEdge(acc, ts[i][0], ts[i][1])) &&
    (forall i, j :: 0 <= i < j < |ts| ==> ts[i][0] != ts[j][0] || ts[i][1] != ts[j][1])
  }

  /** Some well-formed token names the edge from a to b. */
  ghost predicate Names(ts: seq<String>, a: Node, b: Node)
  {
    exists i :: 0 <= i < |ts| && |ts[i]| == 3 && ts[i][0] == a && ts[i][1] == b
  }

  /** Some well-formed token starts at a. */
  ghost predicate Starts(ts: seq<String>, a: Node)
  {
    exists i :: 0 <= i < |ts| && |ts[i]| == 3 && ts[i][0] == a
  }

  /** g holds the edges of acc and of the tokens and nothing else, with
      their latencies, and its keys are acc's and the tokens' from-nodes. */
  ghost predicate Holds(g: Graph, acc: Graph, ts: seq<String>)
  {
    (forall a, b :: HasEdge(g, a, b) <==> HasEdge(acc, a, b) || Names(ts, a, b)) &&
    (forall a, b :: HasEdge(acc, a, b) ==> g[a][b] == acc[a][b]) &&
    (forall i :: 0 <= i < |ts| ==>
      WellFormed(ts[i]) && HasEdge(g, ts[i][0], ts[i][1]) && g[ts[i][0]][ts[i][1]] == DigitValue(ts[i][2])) &&
    (forall a :: a in g <==> a in acc || Starts(ts, a))
  }

  /** The first failing token is at index i: all before it are clean, and
      e is the fault the constructor reports for it. */
  ghost predicate FaultAt(acc: Graph, ts: seq<String>, i: int, e: BuildError)
  {
    0 <= i < |ts| && Clean(acc, ts[..i]) &&
    if |ts[i]| != 3 then e == MalformedToken(ts[i])
    else if !IsDigit(ts[i][2]) then e == BadLatency(ts[i])
    else (e == DuplicateEdge(ts[i][0], ts[i][1]) &&
          (HasEdge(acc, ts[i][0], ts[i][1]) || Names(ts[..i], ts[i][0], ts[i][1])))
  }

  /** After a clean first token, the rest is clean against the graph with
      that token's edge exactly when the whole is clean against acc. */
  lemma CleanStep(acc: Graph, ts: seq<String>, acc': Graph)
    requires ts != [] && WellFormed(ts[0]) && !HasEdge(acc, ts[0][0], ts[0][1])
    requires forall a, b :: HasEdge(acc', a, b) <==> HasEdge(acc, a, b) || (a == ts[0][0] && b == ts[0][1])
    ensures Clean(acc, ts) <==> Clean(acc', ts[1..])
  {
    var rest := ts[1..];
    assert forall i :: 0 <= i < |rest| ==> rest[i] == ts[i + 1];
    if Clean(acc', rest) {
      forall i, j | 0 <= i < j < |ts| ensures ts[i][0] != ts[j][0] || ts[i][1] != ts[j][1] {
        if i == 0 {
          assert ts[j] == rest[j - 1];
        } else {
          assert ts[i] == rest[i - 1] && ts[j] == rest[j - 1];
        }
      }
      forall i | 0 <= i < |ts| ensures WellFormed(ts[i]) && !HasEdge(acc, ts[i][0], ts[i][1]) {
        if i > 0 {
          assert ts[i] == rest[i - 1];
        }
      }
    }
    if Clean(acc, ts) {
      forall i | 0 <= i < |rest| ensures !HasEdge(acc', rest[i][0], rest[i][1]) {
        assert rest[i] == ts[i + 1];
        assert ts[0][0] != ts[i + 1][0] || ts[0][1] != ts[i + 1][1];
      }
      forall i, j | 0 <= i < j < |rest| ensures rest[i][0] != rest[j][0] || rest[i][1] != rest[j][1] {
        assert rest[i] == ts[i + 1] && rest[j] == ts[j + 1];
      }
    }
  }

  /** What the rest of the tokens yields from the graph with the first
      token's edge is what the whole yields from acc. */
  lemma HoldsStep(g: Graph, acc: Graph, ts: seq<String>, acc': Graph)
    requires ts != [] && WellFormed(ts[0]) && !HasEdge(acc, ts[0][0], ts[0][1])
    requires acc'.Keys == acc.Keys + {ts[0][0]}
    requires forall a, b :: HasEdge(acc', a, b) <==> HasEdge(acc, a, b) || (a == ts[0][0] && b == ts[0][1])
    requires forall a, b :: HasEdge(acc, a, b) ==> HasEdge(acc', a, b) && acc'[a][b] == acc[a][b]
    requires HasEdge(acc', ts[0][0], ts[0][1]) && acc'[ts[0][0]][ts[0][1]] == DigitValue(ts[0][2])
    requires Holds(g, acc', ts[1..])
    ensures Holds(g, acc, ts)
  {
    var rest := ts[1..];
    forall a, b ensures HasEdge(g, a, b) <==> HasEdge(acc, a, b) || Names(ts, a, b) {
      NamesStep(ts, a, b);
    }
    forall i | 0 <= i < |ts|
      ensures WellFormed(ts[i]) && HasEdge(g, ts[i][0], ts[i][1]) && g[ts[i][0]][ts[i][1]] == DigitValue(ts[i][2])
    {
      if i > 0 {
        assert ts[i] == rest[i - 1];
      }
    }
    forall a ensures a in g <==> a in acc || Starts(ts, a) {
      StartsStep(ts, a);
    }
  }

  /** The tokens name an edge exactly when the first one does or the
      rest do. */
  lemma NamesStep(ts: seq<String>, a: Node, b: Node)
    requires ts != [] && |ts[0]| == 3
    ensures Names(ts, a, b) <==> (a == ts[0][0] && b == ts[0][1]) || Names(ts[1..], a, b)
  {
    var rest := ts[1..];
    if Names(rest, a, b) {
      var i :| 0 <= i < |rest| && |rest[i]| == 3 && rest[i][0] == a && rest[i][1] == b;
      assert ts[i + 1] == rest[i];
    }
    if Names(ts, a, b) && !(a == ts[0][0] && b == ts[0][1]) {
      var i :| 0 <= i < |ts| && |ts[i]| == 3 && ts[i][0] == a && ts[i][1] == b;
      assert rest[i - 1] == ts[i];
    }
    if a == ts[0][0] && b == ts[0][1] {
      assert 0 < |ts| && |ts[0]| == 3;
    }
  }

  /** Likewise for the from-nodes. */
  lemma StartsStep(ts: seq<String>, a: Node)
    requires ts != [] && |ts[0]| == 3
    ensures Starts(ts, a) <==> a == ts[0][0] || Starts(ts[1..], a)
  {
    var rest := ts[1..];
    if Starts(rest, a) {
      var i :| 0 <= i < |rest| && |rest[i]| == 3 && rest[i][0] == a;
      assert ts[i + 1] == rest[i];
    }
    if Starts(ts, a) && a != ts[0][0] {
      var i :| 0 <= i < |ts| && |ts[i]| == 3 && ts[i][0] == a;
      assert rest[i - 1] == ts[i];
    }
    if a == ts[0][0] {
      assert 0 < |ts| && |ts[0]| == 3;
    }
  }

  /** Load succeeds exactly on clean tokens, and then holds exactly the
      edges of acc and of the tokens. */
  lemma {:induction false} LoadSpec(ts: seq<String>, acc: Graph)
    ensures Load(ts, acc).Ok? <==> Clean(acc, ts)
    ensures Load(ts, acc).Ok? ==> Holds(Load(ts, acc).value, acc, ts)
    decreases |ts|
  {
    if ts != [] {
      var t := ts[0];
      if WellFormed(t) {
        var e := ParseToken(t).value;
        if !HasEdge(acc, e.from, e.to) {
          var acc' := AddEdge(acc, e).value;
          LoadSpec(ts[1..], acc');
          CleanStep(acc, ts, acc');
          if Load(ts, acc).Ok? {
            HoldsStep(Load(ts, acc).value, acc, ts, acc');
          }
        }
      }
    }
  }

  /** A failed Load reports the fault of its first unclean token. */
  lemma {:induction false} LoadFault(ts: seq<String>, acc: Graph)
    ensures Load(ts, acc).Err? ==> exists i :: FaultAt(acc, ts, i, Load(ts, acc).error)
    decreases |ts|
  {
    if ts != [] && Load(ts, acc).Err? {
      var t := ts[0];
      assert ts[..0] == [];
      if WellFormed(t) && !HasEdge(acc, t[0], t[1]) {
        var e := ParseToken(t).value;
        var acc' := AddEdge(acc, e).value;
        var rest := ts[1..];
        LoadFault(rest, acc');
        var i' :| FaultAt(acc', rest, i', Load(rest, acc').error);
        var i := i' + 1;
        assert ts[..i][1..] == rest[..i'];
        CleanStep(acc, ts[..i], acc');
        assert ts[i] == rest[i'];
        var u := ts[i];
        if |u| == 3 && IsDigit(u[2]) && !HasEdge(acc', u[0], u[1]) {
          var j :| 0 <= j < i' && |rest[..i'][j]| == 3 && rest[..i'][j][0] == u[0] && rest[..i'][j][1] == u[1];
          assert ts[..i][j + 1] == rest[..i'][j];
        } else if |u| == 3 && IsDigit(u[2]) && !HasEdge(acc, u[0], u[1]) {
          assert ts[..i][0] == t && |t| == 3;
        }
        assert FaultAt(acc, ts, i, Load(ts, acc).error);
      } else {
        assert FaultAt(acc, ts, 0, Load(ts, acc).error);
      }
    }
  }

  /** The constructor accepts s exactly when every piece of s.split(",")
      is a clean token, and then the graph has exactly the edges the
      tokens name, with their latencies, all digits; every key has an
      out-edge. A rejected s is rejected for its first faulty piece. */
  lemma BuildSpec(s: String)
    ensures Build(s).Ok? <==> Clean(map[], JavaSplit(s))
    ensures Build(s).Ok? ==> forall a, b :: HasEdge(Build(s).value, a, b) <==> Names(JavaSplit(s), a, b)
    ensures Build(s).Ok? ==> forall i :: 0 <= i < |JavaSplit(s)| ==> (WellFormed(JavaSplit(s)[i]) &&
      HasEdge(Build(s).value, JavaSplit(s)[i][0], JavaSplit(s)[i][1]) &&
      Build(s).value[JavaSplit(s)[i][0]][JavaSplit(s)[i][1]] == DigitValue(JavaSplit(s)[i][2]))
    ensures Build(s).Ok? ==> forall a, b :: HasEdge(Build(s).value, a, b) ==> Build(s).value[a][b] <= 9
    ensures Build(s).Ok? ==> forall a :: a in Build(s).value ==> Build(s).value[a] != map[]
    ensures Build(s).Err? ==> exists i :: FaultAt(map[], JavaSplit(s), i, Build(s).error)
  {
    var ts := JavaSplit(s);
    LoadSpec(ts, map[]);
    LoadFault(ts, map[]);
    if Build(s).Ok? {
      var g := Build(s).value;
      forall a, b | HasEdge(g, a, b) ensures g[a][b] <= 9 {
        var i :| 0 <= i < |ts| && |ts[i]| == 3 && ts[i][0] == a && ts[i][1] == b;
      }
      forall a | a in g ensures g[a] != map[] {
        var i :| 0 <= i < |ts| && |ts[i]| == 3 && ts[i][0] == a;
        assert HasEdge(g, a, ts[i][1]);
      }
    }
  }

  // ---------------------------------------------------------------------
  // The text form of a graph

  /** An edge that has a text form the constructor reads back: a digit
      latency and no comma for a node. */
  predicate Encodable(e: Edge)
  {
    e.latency <= 9 && e.from != Comma && e.to != Comma
  }

  /** No two edges share an ordered pair. */
  predicate DistinctPairs(es: seq<Edge>)
  {
    forall i, j :: 0 <= i < j < |es| ==> es[i].from != es[j].from || es[i].to != es[j].to
  }

  function EncodeAll(es: seq<Edge>): (ts: seq<String>)
    requires forall i :: 0 <= i < |es| ==> Encodable(es[i])
    ensures |ts| == |es| && forall i :: 0 <= i < |es| ==> Encodable(es[i]) && ts[i] == EncodeEdge(es[i])
    decreases |es|
  {
    if es == [] then []
    else
      assert Encodable(es[0]);
      [EncodeEdge(es[0])] + EncodeAll(es[1..])
  }

  /** The comma-separated text of a non-empty list of edges. */
  function Encode(es: seq<Edge>): String
    requires |es| >= 1 && forall i :: 0 <= i < |es| ==> Encodable(es[i])
  {
    Join(EncodeAll(es))
  }

  /** The text of distinct edges splits back into their tokens, all clean. */
  lemma EncodeClean(es: seq<Edge>)
    requires |es| >= 1 && (forall i :: 0 <= i < |es| ==> Encodable(es[i])) && DistinctPairs(es)
    ensures JavaSplit(Encode(es)) == EncodeAll(es)
    ensures Clean(map[], EncodeAll(es))
    ensures forall i :: 0 <= i < |es| ==> (|EncodeAll(es)[i]| == 3 && IsDigit(EncodeAll(es)[i][2]) &&
      EncodeAll(es)[i][0] == es[i].from && EncodeAll(es)[i][1] == es[i].to &&
      DigitValue(EncodeAll(es)[i][2]) == es[i].latency)
  {
    var ts := EncodeAll(es);
    forall i | 0 <= i < |ts| ensures NoComma(ts[i]) && ts[i] != [] {
      assert ts[i] == EncodeEdge(es[i]);
    }
    JavaSplitJoin(ts);
    forall i | 0 <= i < |ts| ensures WellFormed(ts[i]) && ParseToken(ts[i]) == Ok(es[i]) {
      ParseEncode(es[i]);
    }
  }

  /** The constructor reads the text of a list of distinct edges back into
      a graph with exactly those edges and latencies. */
  lemma BuildEncode(es: seq<Edge>)
    requires |es| >= 1 && (forall i :: 0 <= i < |es| ==> Encodable(es[i])) && DistinctPairs(es)
    ensures Build(Encode(es)).Ok?
    ensures forall a, b :: HasEdge(Build(Encode(es)).value, a, b) <==>
      exists i :: 0 <= i < |es| && es[i].from == a && es[i].to == b
    ensures forall i :: 0 <= i < |es| ==> (HasEdge(Build(Encode(es)).value, es[i].from, es[i].to) &&
      Build(Encode(es)).value[es[i].from][es[i].to] == es[i].latency)
  {
    var ts := EncodeAll(es);
    var s := Encode(es);
    EncodeClean(es);
    BuildSpec(s);
    TokensMatch(ts, es, Build(s).value);
  }

  /** A graph holding exactly the edges named by the tokens holds exactly
      the edges they encode. */
  lemma TokensMatch(ts: seq<String>, es: seq<Edge>, g: Graph)
    requires |ts| == |es|
    requires forall i :: 0 <= i < |es| ==> (|ts[i]| == 3 && IsDigit(ts[i][2]) && ts[i][0] == es[i].from &&
      ts[i][1] == es[i].to && DigitValue(ts[i][2]) == es[i].latency)
    requires forall a, b :: HasEdge(g, a, b) <==> Names(ts, a, b)
    requires forall i :: 0 <= i < |ts| ==> (WellFormed(ts[i]) && HasEdge(g, ts[i][0], ts[i][1]) &&
      g[ts[i][0]][ts[i][1]] == DigitValue(ts[i][2]))
    ensures forall a, b :: HasEdge(g, a, b) <==> exists i :: 0 <= i < |es| && es[i].from == a && es[i].to == b
    ensures forall i :: 0 <= i < |es| ==> HasEdge(g, es[i].from, es[i].to) && g[es[i].from][es[i].to] == es[i].latency
  {
    forall a, b ensures HasEdge(g, a, b) <==> exists i :: 0 <= i < |es| && es[i].from == a && es[i].to == b {
      if HasEdge(g, a, b) {
        var i :| 0 <= i < |ts| && |ts[i]| == 3 && ts[i][0] == a && ts[i][1] == b;
        assert es[i].from == a && es[i].to == b;
      }
      if exists i :: 0 <= i < |es| && es[i].from == a && es[i].to == b {
        var i :| 0 <= i < |es| && es[i].from == a && es[i].to == b;
        assert |ts[i]| == 3 && ts[i][0] == a && ts[i][1] == b;
      }
    }
  }
}
