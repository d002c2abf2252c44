/** The java.lang.String operations the query parser of App.java relies
    on: trim, and split on a one-character pattern, which drops the empty
    strings at the end of its result. */
module Text {

  /** A character String.trim removes at either end of a string. */
  predicate Blank(c: char) {
    c <= ' '
  }

  /** The blanks at the start of `s` removed. */
  function TrimStart(s: string): (t: string)
    ensures |t| <= |s| && t == s[|s| - |t|..]
    ensures forall i :: 0 <= i < |s| - |t| ==> Blank(s[i])
    ensures t != [] ==> !Blank(t[0])
  {
    if s != [] && Blank(s[0]) then TrimStart(s[1..]) else s
  }

  /** The blanks at the end of `s` removed. */
  function TrimEnd(s: string): (t: string)
    ensures |t| <= |s| && t == s[..|t|]
    ensures forall i :: |t| <= i < |s| ==> Blank(s[i])
    ensures t != [] ==> !Blank(t[|t| - 1])
  {
    if s != [] && Blank(s[|s| - 1]) then TrimEnd(s[..|s| - 1]) else s
  }

  /** String.trim. */
  function Trim(s: string): string {
    TrimEnd(TrimStart(s))
  }

  /** A string with no blank at either end is its own trim, so trimming
      twice is trimming once. */
  lemma TrimmedIsFixed(s: string)
    requires s != [] ==> !Blank(s[0]) && !Blank(s[|s| - 1])
    ensures Trim(s) == s
  {
  }

  lemma TrimIdempotent(s: string)
    ensures Trim(Trim(s)) == Trim(s)
  {
    var t := Trim(s);
    if t != [] {
      var u := TrimStart(s);
      assert t == u[..|t|] && t[0] == u[0];
    }
    TrimmedIsFixed(t);
  }

  /** Blanks around a string without blanks at its ends are what trim
      removes. */
  lemma TrimPadded(pre: string, s: string, post: string)
    requires forall i :: 0 <= i < |pre| ==> Blank(pre[i])
    requires forall i :: 0 <= i < |post| ==> Blank(post[i])
    requires s != [] && !Blank(s[0]) && !Blank(s[|s| - 1])
    ensures Trim(pre + s + post) == s
  {
    TrimStartPadded(pre, s + post);
    assert pre + s + post == pre + (s + post);
    TrimEndPadded(s, post);
  }

  lemma {:induction false} TrimStartPadded(pre: string, s: string)
    requires forall i :: 0 <= i < |pre| ==> Blank(pre[i])
    requires s != [] && !Blank(s[0])
    ensures TrimStart(pre + s) == s
  {
    if pre != [] {
      var rest := pre[1..];
      assert (pre + s)[0] == pre[0] && (pre + s)[1..] == rest + s;
      assert forall i :: 0 <= i < |rest| ==> Blank(rest[i]) by {
        forall i | 0 <= i < |rest| ensures Blank(rest[i]) {
          assert rest[i] == pre[i + 1];
        }
      }
      TrimStartPadded(rest, s);
    }
  }

  lemma {:induction false} TrimEndPadded(s: string, post: string)
    requires forall i :: 0 <= i < |post| ==> Blank(post[i])
    requires s != [] && !Blank(s[|s| - 1])
    ensures TrimEnd(s + post) == s
  {
    if post != [] {
      assert (s + post)[..|s + post| - 1] == s + post[..|post| - 1];
      TrimEndPadded(s, post[..|post| - 1]);
    } else {
      assert s + post == s;
    }
  }

  // ---------------------------------------------------------------------
  // split
  // ---------------------------------------------------------------------

  /** The pieces joined back with `sep` between them. */
  function Join(pieces: seq<string>, sep: char): string
    requires pieces != []
  {
    if |pieces| == 1 then pieces[0]
    else Join(pieces[..|pieces| - 1], sep) + [sep] + pieces[|pieces| - 1]
  }

  /** The pieces of `s` between the occurrences of `sep`, empty pieces
      included: one more piece than there are separators. */
  function Pieces(s: string, sep: char): (r: seq<string>)
    ensures r != [] && forall i :: 0 <= i < |r| ==> sep !in r[i]
    ensures Join(r, sep) == s
    ensures sep !in s ==> r == [s]
    ensures s != [] && s[|s| - 1] != sep ==> r[|r| - 1] != []
  {
    if s == [] then [[]]
    else
      var front := s[..|s| - 1];
      var c := s[|s| - 1];
      assert s == front + [c];
      var r := Pieces(front, sep);
      if c == sep then
        r + [[]]
      else
        var last := r[|r| - 1] + [c];
        JoinLast(r, sep, c);
        r[..|r| - 1] + [last]
  }

  /** Extending the last piece extends the joined string. */
  lemma JoinLast(r: seq<string>, sep: char, c: char)
    requires r != []
    ensures Join(r[..|r| - 1] + [r[|r| - 1] + [c]], sep) == Join(r, sep) + [c]
  {
    var r' := r[..|r| - 1] + [r[|r| - 1] + [c]];
    if |r| > 1 {
      assert r'[..|r'| - 1] == r[..|r| - 1];
    }
  }

  /** The empty strings at the end of `r` removed. */
  function DropTrailingEmpty(r: seq<string>): (d: seq<string>)
    ensures |d| <= |r| && d == r[..|d|]
    ensures forall i :: |d| <= i < |r| ==> r[i] == []
    ensures d != [] ==> d[|d| - 1] != []
  {
    if r != [] && r[|r| - 1] == [] then DropTrailingEmpty(r[..|r| - 1]) else r
  }

  /** String.split with a pattern matching the one character `sep`: the
      whole string when it holds no `sep`, and otherwise the pieces
      between separators without the empty ones at the end. */
  function Split(s: string, sep: char): (r: seq<string>)
    ensures forall i :: 0 <= i < |r| ==> sep !in r[i]
  {
    if sep !in s then [s]
    else
      var p := Pieces(s, sep);
      var d := DropTrailingEmpty(p);
      assert forall i :: 0 <= i < |d| ==> d[i] == p[i];
      d
  }

  /** A string that does not end with the separator is what its pieces
      give joined back. */
  lemma SplitJoin(s: string, sep: char)
    requires s == [] || s[|s| - 1] != sep
    ensures Split(s, sep) != [] && Join(Split(s, sep), sep) == s
  {
    if sep in s {
      var p := Pieces(s, sep);
      assert s != [];
      assert DropTrailingEmpty(p) == p;
    }
  }

  /** Splitting the join of pieces that hold no separator, the last of
      which is not empty, gives the pieces back. */
  lemma JoinSplit(pieces: seq<string>, sep: char)
    requires pieces != [] && pieces[|pieces| - 1] != []
    requires forall i :: 0 <= i < |pieces| ==> sep !in pieces[i]
    ensures Split(Join(pieces, sep), sep) == pieces
  {
    JoinPieces(pieces, sep);
    var s := Join(pieces, sep);
    if sep !in s {
      assert |pieces| == 1;
    }
  }

  /** The pieces of a join are the joined pieces. */
  lemma {:induction false} JoinPieces(pieces: seq<string>, sep: char)
    requires pieces != []
    requires forall i :: 0 <= i < |pieces| ==> sep !in pieces[i]
    ensures Pieces(Join(pieces, sep), sep) == pieces
    ensures |pieces| > 1 ==> sep in Join(pieces, sep)
  {
    if |pieces| == 1 {
      assert Join(pieces, sep) == pieces[0];
    } else {
      var front := pieces[..|pieces| - 1];
      var last := pieces[|pieces| - 1];
      JoinPieces(front, sep);
      PiecesAppend(Join(front, sep), sep, last);
      assert front + [last] == pieces;
      SeparatorInJoin(Join(front, sep), sep, last);
    }
  }

  lemma SeparatorInJoin(s: string, sep: char, t: string)
    ensures sep in s + [sep] + t
  {
    assert (s + [sep] + t)[|s|] == sep;
  }

  /** The pieces of `s + [sep] + t`, for `t` without separators, are those
      of `s` and then `t`. */
  lemma {:induction false} PiecesAppend(s: string, sep: char, t: string)
    requires sep !in t
    ensures Pieces(s + [sep] + t, sep) == Pieces(s, sep) + [t]
  {
    if t == [] {
      assert (s + [sep] + t)[..|s + [sep] + t| - 1] == s;
    } else {
      var front := t[..|t| - 1];
      assert (s + [sep] + t)[..|s + [sep] + t| - 1] == s + [sep] + front;
      PiecesAppend(s, sep, front);
      assert front + [t[|t| - 1]] == t;
    }
  }

  /** A joined string starts with its first piece and ends with its
      last. */
  lemma {:induction false} JoinEnds(pieces: seq<string>, sep: char)
    requires pieces != []
    ensures pieces[0] <= Join(pieces, sep)
    ensures |pieces[|pieces| - 1]| <= |Join(pieces, sep)|
    ensures Join(pieces, sep)[|Join(pieces, sep)| - |pieces[|pieces| - 1]|..] == pieces[|pieces| - 1]
  {
    if |pieces| > 1 {
      var front := pieces[..|pieces| - 1];
      JoinEnds(front, sep);
      assert front[0] == pieces[0];
    }
  }

  /** A character that is neither the separator nor in any piece is not in
      their join. */
  lemma {:induction false} JoinAvoids(pieces: seq<string>, sep: char, c: char)
    requires pieces != [] && c != sep
    requires forall i :: 0 <= i < |pieces| ==> c !in pieces[i]
    ensures c !in Join(pieces, sep)
  {
    if |pieces| > 1 {
      var front := pieces[..|pieces| - 1];
      JoinAvoids(front, sep, c);
      assert c !in pieces[|pieces| - 1];
    }
  }
}
