/** The two forms of java.lang.String.split that the container grammars use,
    for a delimiter that is a single literal character:
    - `s.split(d)` (limit 0): every piece between delimiters, except that
      trailing empty pieces are removed, and an input with no delimiter at
      all is returned whole;
    - `s.split(d, 2)`: at most two pieces, cut at the first delimiter, with
      empty pieces kept. */
module JavaStrings {

  /** Position of the first occurrence of `d` in `s` (String.indexOf). */
  function FirstIndex(s: string, d: char): (i: nat)
    requires d in s
    ensures i < |s| && s[i] == d
    ensures d !in s[..i]
  {
    if s[0] == d then 0
    else
      assert d in s[1..] by { assert s == [s[0]] + s[1..]; }
      var j := FirstIndex(s[1..], d);
      assert s[..j + 1] == [s[0]] + s[1..][..j];
      j + 1
  }

  /** `s.split(d, 2)`: one piece when `d` does not occur, otherwise the part
      before the first `d` and everything after it (which may contain `d`). */
  function SplitFirst(s: string, d: char): (r: seq<string>)
    ensures 1 <= |r| <= 2
    ensures |r| == 1 <==> d !in s
    ensures |r| == 1 ==> r[0] == s
    ensures |r| == 2 ==> r[0] + [d] + r[1] == s && d !in r[0]
  {
    if d in s then
      var i := FirstIndex(s, d);
      assert s == s[..i] + [d] + s[i + 1..];
      [s[..i], s[i + 1..]]
    else
      [s]
  }

  /** Every piece between occurrences of `d`, empty pieces included
      (`s.split(d, -1)`); always at least one piece. */
  function SplitAll(s: string, d: char): (r: seq<string>)
    ensures |r| >= 1
    decreases |s|
  {
    var e := SplitFirst(s, d);
    if |e| == 1 then e else [e[0]] + SplitAll(e[1], d)
  }

  /** Removes the empty strings at the end of `ts`. */
  function StripTrailingEmpty(ts: seq<string>): (r: seq<string>)
    ensures r <= ts
    ensures r == [] || r[|r| - 1] != ""
    ensures forall i :: |r| <= i < |ts| ==> ts[i] == ""
  {
    if ts == [] then []
    else if ts[|ts| - 1] == "" then StripTrailingEmpty(ts[..|ts| - 1])
    else ts
  }

  /** `s.split(d)` with the default limit 0. */
  function Split(s: string, d: char): (r: seq<string>)
    ensures d !in s ==> r == [s]
    ensures d in s ==> r <= SplitAll(s, d) && (r == [] || r[|r| - 1] != "")
  {
    if d !in s then [s] else StripTrailingEmpty(SplitAll(s, d))
  }

  /** The pieces glued back together with `d` between them (String.join). */
  function Join(ts: seq<string>, d: char): string
  {
    if |ts| == 0 then ""
    else if |ts| == 1 then ts[0]
    else ts[0] + [d] + Join(ts[1..], d)
  }

  /** Gluing the pieces of SplitAll back together gives the input: no
      character is lost or invented. */
  lemma {:induction false} JoinSplitAll(s: string, d: char)
    ensures Join(SplitAll(s, d), d) == s
    decreases |s|
  {
    var e := SplitFirst(s, d);
    if |e| == 2 {
      JoinSplitAll(e[1], d);
      var r := SplitAll(e[1], d);
      assert SplitAll(s, d) == [e[0]] + r;
      assert ([e[0]] + r)[1..] == r;
    }
  }

  /** No piece of SplitAll contains the delimiter, and there is one piece
      more than there are delimiters. */
  lemma {:induction false} SplitAllPieces(s: string, d: char)
    ensures forall t :: t in SplitAll(s, d) ==> d !in t
    ensures |SplitAll(s, d)| == multiset(s)[d] + 1
    decreases |s|
  {
    var e := SplitFirst(s, d);
    if |e| == 2 {
      SplitAllPieces(e[1], d);
      assert multiset(s) == multiset(e[0]) + multiset{d} + multiset(e[1]) by {
        assert s == e[0] + [d] + e[1];
      }
      assert multiset(e[0])[d] == 0;
    } else {
      assert multiset(s)[d] == 0;
    }
  }

  /** SplitFirst is pinned down by its contract: any cut of `s` at a `d`
      with no `d` before it is the one SplitFirst makes. */
  lemma SplitFirstUnique(s: string, d: char, a: string, b: string)
    requires s == a + [d] + b && d !in a
    ensures SplitFirst(s, d) == [a, b]
  {
    assert s[|a|] == d;
    var i := FirstIndex(s, d);
    assert i == |a|;
    assert s[..i] == a;
    assert s[i + 1..] == b;
  }

  /** Appending a delimiter adds exactly one empty piece at the end. */
  lemma SplitAllAppendDelimiter(s: string, d: char)
    ensures SplitAll(s + [d], d) == SplitAll(s, d) + [""]
  {
    SplitAllConcat(s, "", d);
    assert s + [d] + "" == s + [d];
    assert SplitAll("", d) == [""];
  }

  /** Splitting `s1 + d + s2` on every `d` gives the pieces of `s1` followed
      by the pieces of `s2`. */
  lemma SplitAllConcat(s1: string, s2: string, d: char)
    ensures SplitAll(s1 + [d] + s2, d) == SplitAll(s1, d) + SplitAll(s2, d)
  {
    var t1, t2 := SplitAll(s1, d), SplitAll(s2, d);
    SplitAllPieces(s1, d);
    SplitAllPieces(s2, d);
    JoinSplitAll(s1, d);
    JoinSplitAll(s2, d);
    JoinAppend(t1, t2, d);
    SplitAllJoin(t1 + t2, d);
  }

  /** Joining a concatenation puts one delimiter between the two joins. */
  lemma {:induction false} JoinAppend(t1: seq<string>, t2: seq<string>, d: char)
    requires t1 != [] && t2 != []
    ensures Join(t1 + t2, d) == Join(t1, d) + [d] + Join(t2, d)
  {
    var t := t1 + t2;
    assert t[0] == t1[0];
    if |t1| == 1 {
      assert t[1..] == t2;
    } else {
      assert t[1..] == t1[1..] + t2;
      JoinAppend(t1[1..], t2, d);
      Reassociate(t1[0], Join(t1[1..], d), Join(t2, d), d);
    }
  }

  lemma Reassociate(a: string, b: string, c: string, d: char)
    ensures (a + [d] + b) + [d] + c == a + [d] + (b + [d] + c)
  {
  }

  /** Splitting a join on every delimiter recovers the pieces, provided no
      piece contains the delimiter. */
  lemma {:induction false} SplitAllJoin(ts: seq<string>, d: char)
    requires ts != []
    requires forall i :: 0 <= i < |ts| ==> d !in ts[i]
    ensures SplitAll(Join(ts, d), d) == ts
  {
    if |ts| == 1 {
      assert Join(ts, d) == ts[0];
      assert SplitFirst(ts[0], d) == [ts[0]];
    } else {
      var head, tail := ts[0], ts[1..];
      assert forall i :: 0 <= i < |tail| ==> d !in tail[i] by {
        forall i | 0 <= i < |tail| ensures d !in tail[i] { assert tail[i] == ts[i + 1]; }
      }
      SplitAllJoin(tail, d);
      var rest := Join(tail, d);
      assert Join(ts, d) == head + [d] + rest;
      SplitFirstUnique(Join(ts, d), d, head, rest);
      assert SplitAll(Join(ts, d), d) == [head] + SplitAll(rest, d);
      assert ts == [head] + tail;
    }
  }

  /** `split` undoes a join when no piece contains the delimiter and the last
      piece is not empty (otherwise `split` would drop it). */
  lemma SplitJoin(ts: seq<string>, d: char)
    requires ts != [] && ts[|ts| - 1] != ""
    requires forall i :: 0 <= i < |ts| ==> d !in ts[i]
    ensures Split(Join(ts, d), d) == ts
  {
    SplitAllJoin(ts, d);
    if d in Join(ts, d) {
      assert StripTrailingEmpty(ts) == ts;
    } else {
      assert SplitAll(Join(ts, d), d) == [Join(ts, d)];
    }
  }

  /** What `s.split(d)` returns, stated against SplitAll: the whole input
      when `d` is absent; otherwise a prefix of the pieces, ending in a
      non-empty piece, where only empty pieces were dropped. */
  lemma SplitSpec(s: string, d: char)
    ensures d !in s ==> Split(s, d) == [s]
    ensures d in s ==> Split(s, d) <= SplitAll(s, d)
    ensures d in s ==> Split(s, d) == [] || Split(s, d)[|Split(s, d)| - 1] != ""
    ensures forall i :: |Split(s, d)| <= i < |SplitAll(s, d)| ==> SplitAll(s, d)[i] == ""
    ensures forall t :: t in Split(s, d) ==> d !in t
  {
    var all, r := SplitAll(s, d), Split(s, d);
    SplitAllPieces(s, d);
    if d !in s {
      assert all == [s];
    } else {
      assert r == StripTrailingEmpty(all);
      forall t | t in r ensures d !in t {
        var i :| 0 <= i < |r| && r[i] == t;
        assert all[i] == t;
      }
    }
  }

  /** When the input does not end in the delimiter nothing is dropped: the
      token count is the number of delimiters plus one. */
  lemma SplitKeepsAllPieces(s: string, d: char)
    requires s == [] || s[|s| - 1] != d
    ensures Split(s, d) == SplitAll(s, d)
    ensures |Split(s, d)| == multiset(s)[d] + 1
  {
    SplitAllPieces(s, d);
    SplitAllLastPiece(s, d);
  }

  /** The last piece of SplitAll is the text after the last delimiter: it is
      empty exactly when the input is empty or ends in the delimiter. */
  lemma SplitAllLastPiece(s: string, d: char)
    ensures Last(SplitAll(s, d)) == "" <==> s == [] || s[|s| - 1] == d
  {
    JoinSplitAll(s, d);
    SplitAllPieces(s, d);
    LastPieceOfJoin(SplitAll(s, d), s, d);
  }

  /** For delimiter-free pieces, the last piece is empty exactly when their
      join is empty or ends in the delimiter. */
  lemma LastPieceOfJoin(ts: seq<string>, s: string, d: char)
    requires ts != [] && Join(ts, d) == s
    requires forall t :: t in ts ==> d !in t
    ensures Last(ts) == "" <==> s == [] || s[|s| - 1] == d
  {
    var last := ts[|ts| - 1];
    assert d !in last;
    if |ts| == 1 {
      assert s == last;
    } else {
      JoinLast(ts, d);
      if last != "" {
        assert s[|s| - 1] == last[|last| - 1];
      }
    }
  }

  /** A join of two or more pieces ends with a delimiter and the last piece. */
  lemma JoinLast(ts: seq<string>, d: char)
    requires |ts| >= 2
    ensures Join(ts, d) == Join(ts[..|ts| - 1], d) + [d] + ts[|ts| - 1]
  {
    var init := ts[..|ts| - 1];
    assert ts == init + [ts[|ts| - 1]];
    JoinAppend(init, [ts[|ts| - 1]], d);
  }

  /** The last element of a non-empty sequence of pieces. */
  function Last(ts: seq<string>): string
    requires ts != []
  {
    ts[|ts| - 1]
  }

  /** A trailing delimiter after a non-empty input changes nothing. */
  lemma SplitIgnoresTrailingDelimiter(s: string, d: char)
    requires s != ""
    ensures Split(s + [d], d) == Split(s, d)
  {
    SplitAllAppendDelimiter(s, d);
    assert d in s + [d] by { assert (s + [d])[|s|] == d; }
    var a := SplitAll(s, d);
    assert (a + [""])[..|a + [""]| - 1] == a;
    if d !in s {
      assert a == [s];
    }
  }

  /** A lone delimiter splits into no token at all: both pieces are empty
      and both are dropped. */
  lemma SplitLoneDelimiter(d: char)
    ensures Split([d], d) == []
  {
    SplitFirstUnique([d], d, "", "");
    assert SplitAll("", d) == [""];
    assert SplitAll([d], d) == ["", ""];
    assert StripTrailingEmpty(["", ""]) == [] by {
      assert ["", ""][..1] == [""];
      assert [""][..0] == [];
    }
  }

  /** The empty input is one empty token, and a leading empty token is kept. */
  lemma SplitLeadingExamples()
    ensures Split("", ',') == [""]
    ensures Split(",a", ',') == ["", "a"]
  {
    SplitFirstUnique(",a", ',', "", "a");
    assert SplitAll("a", ',') == ["a"];
  }

  /** The cases of `split("=", 2)`: only the first `=` cuts, and empty parts
      are kept. */
  lemma SplitFirstExamples()
    ensures SplitFirst("k=x=y", '=') == ["k", "x=y"]
    ensures SplitFirst("=5", '=') == ["", "5"]
    ensures SplitFirst("k=", '=') == ["k", ""]
  {
    SplitFirstUnique("k=x=y", '=', "k", "x=y");
    SplitFirstUnique("=5", '=', "", "5");
    SplitFirstUnique("k=", '=', "k", "");
  }
}
