/** Java's String.split(",") with its default limit of 0: the pieces
    between commas, with every trailing empty piece dropped, except that a
    string without any comma comes back whole, even when it is empty. */
module Split {

  type String = seq<char>

  const Comma: char := ','

  /** Every piece between commas, trailing empty ones included: one more
      piece than there are commas. */
  function SplitAll(s: String): (ps: seq<String>)
    ensures |ps| >= 1
    decreases |s|
  {
    if s == [] then [[]]
    else
      var rest := SplitAll(s[1..]);
      if s[0] == Comma then [[]] + rest
      else [[s[0]] + rest[0]] + rest[1..]
  }

  /** The pieces glued back together, a comma between each two. */
  function Join(ps: seq<String>): String
    requires |ps| >= 1
    decreases |ps|
  {
    if |ps| == 1 then ps[0] else ps[0] + [Comma] + Join(ps[1..])
  }

  predicate NoComma(s: String)
  {
    forall i :: 0 <= i < |s| ==> s[i] != Comma
  }

  function CommaCount(s: String): nat
    decreases |s|
  {
    if s == [] then 0 else (if s[0] == Comma then 1 else 0) + CommaCount(s[1..])
  }

  /** No piece holds a comma, and there is one piece more than commas. */
  lemma {:induction false} SplitAllPieces(s: String)
    ensures forall i :: 0 <= i < |SplitAll(s)| ==> NoComma(SplitAll(s)[i])
    ensures |SplitAll(s)| == CommaCount(s) + 1
    decreases |s|
  {
    if s != [] {
      SplitAllPieces(s[1..]);
    }
  }

  /** Splitting then joining gives the string back. */
  lemma {:induction false} JoinSplitAll(s: String)
    ensures Join(SplitAll(s)) == s
    decreases |s|
  {
    if s != [] {
      var rest := SplitAll(s[1..]);
      JoinSplitAll(s[1..]);
      if s[0] == Comma {
        assert SplitAll(s)[1..] == rest;
      } else if |rest| == 1 {
        assert SplitAll(s) == [[s[0]] + rest[0]];
        assert s == [s[0]] + s[1..];
      } else {
        var ps := SplitAll(s);
        assert ps[1..] == rest[1..];
        assert Join(rest) == rest[0] + [Comma] + Join(rest[1..]);
        assert s == [s[0]] + s[1..];
      }
    }
  }

  /** Joining comma-free pieces then splitting gives the pieces back. */
  lemma {:induction false} SplitAllJoin(ps: seq<String>)
    requires |ps| >= 1 && forall i :: 0 <= i < |ps| ==> NoComma(ps[i])
    ensures SplitAll(Join(ps)) == ps
    decreases |ps|
  {
    if |ps| == 1 {
      PieceSplits(ps[0], []);
    } else {
      SplitAllJoin(ps[1..]);
      PieceSplits(ps[0], ps[1..]);
    }
  }

  /** A comma-free piece in front of a comma and the rest of the string
      becomes the first piece, and the rest splits as before. With an
      empty rest, the piece is the only one. */
  lemma {:induction false} PieceSplits(p: String, rest: seq<String>)
    requires NoComma(p)
    requires rest != [] ==> SplitAll(Join(rest)) == rest
    ensures rest == [] ==> SplitAll(p) == [p]
    ensures rest != [] ==> SplitAll(p + [Comma] + Join(rest)) == [p] + rest
    decreases |p|
  {
    if p == [] {
      if rest != [] {
        assert ([Comma] + Join(rest))[1..] == Join(rest);
        assert p + [Comma] + Join(rest) == [Comma] + Join(rest);
      }
    } else {
      PieceSplits(p[1..], rest);
      assert p[0] != Comma;
      if rest == [] {
        assert SplitAll(p[1..]) == [p[1..]];
        assert SplitAll(p) == [[p[0]] + p[1..]] + SplitAll(p[1..])[1..];
        assert [p[0]] + p[1..] == p;
      } else {
        var s := p + [Comma] + Join(rest);
        assert s[1..] == p[1..] + [Comma] + Join(rest);
        assert s[0] == p[0];
        assert [p[0]] + p[1..] == p;
      }
    }
  }

  /** Drop the empty pieces at the end: what is left is a prefix of the
      pieces that ends in a non-empty piece (or nothing is left), and only
      empty pieces were dropped. */
  function DropTrailingEmpty(ps: seq<String>): (r: seq<String>)
    ensures r <= ps
    ensures r == [] || r[|r| - 1] != []
    ensures forall j :: |r| <= j < |ps| ==> ps[j] == []
    decreases |ps|
  {
    if ps == [] then []
    else if ps[|ps| - 1] == [] then DropTrailingEmpty(ps[..|ps| - 1])
    else ps
  }

  /** String.split(",") with limit 0. */
  function JavaSplit(s: String): seq<String>
  {
    if Comma in s then DropTrailingEmpty(SplitAll(s)) else [s]
  }

  /** The pieces JavaSplit returns are exactly the comma-separated fields
      up to the last non-empty one; when there is a comma, the remaining
      fields are empty and the pieces hold no comma. */
  lemma JavaSplitSpec(s: String)
    ensures Comma !in s ==> JavaSplit(s) == [s]
    ensures Comma in s ==> (JavaSplit(s) <= SplitAll(s) &&
      (forall j :: |JavaSplit(s)| <= j < |SplitAll(s)| ==> SplitAll(s)[j] == []) &&
      (JavaSplit(s) == [] || JavaSplit(s)[|JavaSplit(s)| - 1] != []) &&
      (forall i :: 0 <= i < |JavaSplit(s)| ==> NoComma(JavaSplit(s)[i])))
  {
    SplitAllPieces(s);
  }

  /** Splitting a join of non-empty comma-free pieces gives them back. */
  lemma JavaSplitJoin(ps: seq<String>)
    requires |ps| >= 1
    requires forall i :: 0 <= i < |ps| ==> NoComma(ps[i]) && ps[i] != []
    ensures JavaSplit(Join(ps)) == ps
  {
    SplitAllJoin(ps);
    if Comma !in Join(ps) {
      SplitAllPieces(Join(ps));
      assert CommaCount(Join(ps)) == 0 by {
        NoCommaCount(Join(ps));
      }
    }
  }

  /** A trailing comma after non-empty comma-free pieces is dropped. */
  lemma JavaSplitTrailing(ps: seq<String>)
    requires |ps| >= 1
    requires forall i :: 0 <= i < |ps| ==> NoComma(ps[i]) && ps[i] != []
    ensures JavaSplit(Join(ps + [[]])) == ps
  {
    var qs := ps + [[]];
    assert forall i :: 0 <= i < |qs| ==> NoComma(qs[i]) by {
      forall i | 0 <= i < |qs| ensures NoComma(qs[i]) {
        if i < |ps| {
          assert qs[i] == ps[i];
        }
      }
    }
    SplitAllJoin(qs);
    var s := Join(qs);
    assert Comma in s by {
      assert s == qs[0] + [Comma] + Join(qs[1..]);
      assert s[|qs[0]|] == Comma;
    }
    assert qs[..|qs| - 1] == ps;
    assert DropTrailingEmpty(ps) == ps by {
      assert ps[|ps| - 1] != [];
    }
    assert DropTrailingEmpty(qs) == DropTrailingEmpty(ps);
  }

  lemma {:induction false} NoCommaCount(s: String)
    requires Comma !in s
    ensures CommaCount(s) == 0
    decreases |s|
  {
    if s != [] {
      assert s[0] in s;
      assert forall c :: c in s[1..] ==> c in s;
      NoCommaCount(s[1..]);
    }
  }
}
