/**
  The three string operations of the Java library that the request handler relies on:
  `endsWith`, `split(" ")` (with Java's rule for empty pieces) and the last path segment
  that `java.io.File.getName` returns.
*/
module JavaString {

  /** `s.endsWith(suffix)`: a case-sensitive suffix test. */
  predicate EndsWith(s: string, suffix: string)
  {
    |suffix| <= |s| && s[|s| - |suffix|..] == suffix
  }

  /** `s.startsWith(prefix)`. */
  predicate StartsWith(s: string, prefix: string)
  {
    |prefix| <= |s| && s[..|prefix|] == prefix
  }

  /** True when `s` holds only spaces (vacuously for the empty string). */
  predicate AllSpaces(s: string)
  {
    forall i :: 0 <= i < |s| ==> s[i] == ' '
  }

  /** True when every piece is the empty string. */
  predicate AllEmpty(ps: seq<string>)
  {
    forall i :: 0 <= i < |ps| ==> ps[i] == ""
  }

  /**
    The text between consecutive spaces of `s`, empty pieces included: one piece more
    than there are spaces. This is the list `split` collects before it drops trailing
    empty strings.
  */
  function Pieces(s: string): (r: seq<string>)
    ensures |r| >= 1
    ensures forall i :: 0 <= i < |r| ==> ' ' !in r[i]
  {
    if s == [] then [""]
    else
      var rest := Pieces(s[1..]);
      if s[0] == ' ' then [""] + rest
      else [[s[0]] + rest[0]] + rest[1..]
  }

  /** The pieces put back together with one space between neighbours. */
  function Join(ps: seq<string>): string
    requires |ps| >= 1
  {
    if |ps| == 1 then ps[0] else ps[0] + " " + Join(ps[1..])
  }

  /** Regrouping a concatenation of four strings. */
  lemma ConcatAssoc(a: string, b: string, c: string, d: string)
    ensures a + (b + c + d) == (a + b) + c + d
  {
  }

  /** Splitting on spaces loses nothing: joining the pieces gives the string back. */
  lemma {:induction false} JoinPieces(s: string)
    ensures Join(Pieces(s)) == s
  {
    if s != [] {
      JoinPieces(s[1..]);
      var rest := Pieces(s[1..]);
      if s[0] == ' ' {
        assert ([""] + rest)[1..] == rest;
      } else {
        var ps := [[s[0]] + rest[0]] + rest[1..];
        if |rest| == 1 {
          assert Join(ps) == [s[0]] + rest[0];
        } else {
          assert ps[1..] == rest[1..];
          assert Join(rest) == rest[0] + " " + Join(rest[1..]);
          assert Join(ps) == ([s[0]] + rest[0]) + " " + Join(rest[1..]);
          ConcatAssoc([s[0]], rest[0], " ", Join(rest[1..]));
        }
        assert s == [s[0]] + s[1..];
      }
    }
  }

  /** A space-free word in front of `t` fuses with the first piece of `t`. */
  lemma {:induction false} PiecesAfterWord(w: string, t: string)
    requires ' ' !in w
    ensures Pieces(w + t) == [w + Pieces(t)[0]] + Pieces(t)[1..]
  {
    if w != [] {
      assert (w + t)[1..] == w[1..] + t;
      PiecesAfterWord(w[1..], t);
      assert [w[0]] + (w[1..] + Pieces(t)[0]) == w + Pieces(t)[0];
    } else {
      assert w + t == t;
      assert w + Pieces(t)[0] == Pieces(t)[0];
      assert Pieces(t) == [Pieces(t)[0]] + Pieces(t)[1..];
    }
  }

  /** A string without spaces is a single piece. */
  lemma PiecesOfWord(w: string)
    requires ' ' !in w
    ensures Pieces(w) == [w]
  {
    PiecesAfterWord(w, "");
    assert w + "" == w;
  }

  /** The converse round trip: space-free pieces survive joining and splitting again. */
  lemma {:induction false} PiecesJoin(ps: seq<string>)
    requires |ps| >= 1
    requires forall i :: 0 <= i < |ps| ==> ' ' !in ps[i]
    ensures Pieces(Join(ps)) == ps
  {
    if |ps| == 1 {
      PiecesOfWord(ps[0]);
    } else {
      PiecesJoin(ps[1..]);
      var t := " " + Join(ps[1..]);
      assert ps[0] + " " + Join(ps[1..]) == ps[0] + t;
      PiecesAfterWord(ps[0], t);
      assert t[1..] == Join(ps[1..]);
      assert Pieces(t) == [""] + ps[1..];
      assert ps[0] + "" == ps[0];
    }
  }

  /**
    The list without its trailing empty strings: what is left is a prefix of `ps`,
    everything cut off is empty, and the last piece kept is not.
  */
  function DropTrailingEmpty(ps: seq<string>): (r: seq<string>)
    ensures |r| <= |ps| && r == ps[..|r|]
    ensures forall i :: |r| <= i < |ps| ==> ps[i] == ""
    ensures |r| > 0 ==> r[|r| - 1] != ""
  {
    if |ps| == 0 then []
    else if ps[|ps| - 1] == "" then DropTrailingEmpty(ps[..|ps| - 1])
    else ps
  }

  /**
    `s.split(" ")`. A string without a space gives itself as the only element (so ""
    gives [""]); otherwise the pieces between spaces are kept in order, leading and
    inner empty pieces included, and trailing empty pieces are removed.
  */
  function Split(s: string): (r: seq<string>)
    ensures forall i :: 0 <= i < |r| ==> ' ' !in r[i]
    ensures ' ' !in s ==> r == [s]
    ensures |r| <= |Pieces(s)| && r == Pieces(s)[..|r|]
    ensures forall i :: |r| <= i < |Pieces(s)| ==> Pieces(s)[i] == ""
    ensures ' ' in s && |r| > 0 ==> r[|r| - 1] != ""
  {
    if ' ' !in s then
      PiecesOfWord(s);
      [s]
    else DropTrailingEmpty(Pieces(s))
  }

  /** Pieces that are all empty join to a string of spaces. */
  lemma {:induction false} JoinAllEmpty(ps: seq<string>)
    requires |ps| >= 1 && AllEmpty(ps)
    ensures AllSpaces(Join(ps)) && |Join(ps)| == |ps| - 1
  {
    if |ps| > 1 {
      assert AllEmpty(ps[1..]) by {
        forall i | 0 <= i < |ps[1..]| ensures ps[1..][i] == "" {
          assert ps[1..][i] == ps[i + 1];
        }
      }
      JoinAllEmpty(ps[1..]);
      assert Join(ps) == " " + Join(ps[1..]);
    }
  }

  /** A string of only spaces splits into empty pieces. */
  lemma {:induction false} PiecesOfSpaces(s: string)
    requires AllSpaces(s)
    ensures AllEmpty(Pieces(s))
  {
    if s != [] {
      PiecesOfSpaces(s[1..]);
    }
  }

  /**
    `split(" ")` returns an empty array exactly when the string is non-empty and holds
    nothing but spaces.
  */
  lemma SplitEmptyIff(s: string)
    ensures |Split(s)| == 0 <==> s != "" && AllSpaces(s)
  {
    if s != "" && AllSpaces(s) {
      assert s[0] == ' ';
      PiecesOfSpaces(s);
    }
    if |Split(s)| == 0 {
      JoinPieces(s);
      JoinAllEmpty(Pieces(s));
    }
  }

  /**
    A request line `method SP path` followed by nothing or by text starting with a space
    splits into `method` and `path` as its first two elements, when both are space-free
    and the path is not empty.
  */
  lemma SplitRequestLine(m: string, p: string, tail: string)
    requires ' ' !in m && ' ' !in p && p != ""
    requires tail == "" || tail[0] == ' '
    ensures var parts := Split(m + " " + p + tail);
      |parts| >= 2 && parts[0] == m && parts[1] == p
  {
    var s := m + " " + p + tail;
    var u := " " + (p + tail);
    assert s == m + u;
    assert s[|m|] == ' ';
    PiecesAfterWord(m, u);
    assert u[1..] == p + tail;
    PiecesAfterWord(p, tail);
    assert Pieces(tail)[0] == "";
    assert p + "" == p;
    assert m + "" == m;
    assert Pieces(s)[0] == m;
    assert Pieces(s)[1] == p;
  }

  /** For a line with at least one space, `split(" ")` gives back the pieces without trailing empty ones. */
  lemma SplitJoin(ps: seq<string>)
    requires |ps| >= 2
    requires forall i :: 0 <= i < |ps| ==> ' ' !in ps[i]
    ensures Split(Join(ps)) == DropTrailingEmpty(ps)
  {
    assert Join(ps)[|ps[0]|] == ' ';
    PiecesJoin(ps);
  }

  /** The behaviour of `split(" ")` on the edge cases of a request line. */
  lemma SplitExamples()
    ensures Split("GET") == ["GET"]
    ensures Split("") == [""]
    ensures Split(" ") == []
    ensures Split("GET ") == ["GET"]
    ensures Split("GET  /") == ["GET", "", "/"]
    ensures Split("GET / HTTP/1.1") == ["GET", "/", "HTTP/1.1"]
  {
    SplitAllSpaces();
    SplitTrailingSpace();
    SplitInnerEmpty();
    SplitFullLine();
  }

  /** A line of one space has only empty pieces, and all of them are dropped. */
  lemma SplitAllSpaces()
    ensures Split(" ") == []
  {
    assert Join(["", ""]) == " ";
    SplitJoin(["", ""]);
    assert DropTrailingEmpty(["", ""][..1]) == [];
  }

  /** A trailing space leaves a trailing empty piece, which is dropped. */
  lemma SplitTrailingSpace()
    ensures Split("GET ") == ["GET"]
  {
    assert Join(["GET", ""]) == "GET ";
    SplitJoin(["GET", ""]);
    assert ["GET", ""][..1] == ["GET"];
  }

  /** A doubled space leaves an empty token between its neighbours. */
  lemma SplitInnerEmpty()
    ensures Split("GET  /") == ["GET", "", "/"]
  {
    assert Join(["GET", "", "/"]) == "GET  /";
    SplitJoin(["GET", "", "/"]);
  }

  /** A full request line gives method, path and protocol version. */
  lemma SplitFullLine()
    ensures Split("GET / HTTP/1.1") == ["GET", "/", "HTTP/1.1"]
  {
    assert Join(["GET", "/", "HTTP/1.1"]) == "GET / HTTP/1.1";
    SplitJoin(["GET", "/", "HTTP/1.1"]);
  }

  /**
    The last segment of a path, as `java.io.File.getName` gives it: the text after the
    last '/', or the whole string when there is none.
  */
  function LastSegment(s: string): (r: string)
    ensures '/' !in r
    ensures EndsWith(s, r)
    ensures |r| < |s| ==> s[|s| - |r| - 1] == '/'
  {
    if '/' !in s then
      assert s[0..] == s;
      s
    else
      var r := LastSegment(s[1..]);
      assert s[1..][|s| - 1 - |r|..] == s[|s| - |r|..];
      assert |r| < |s| - 1 ==> s[1..][|s| - 1 - |r| - 1] == s[|s| - |r| - 1];
      assert |r| == |s| - 1 ==> r == s[1..] && s[0] == '/';
      r
  }
}
