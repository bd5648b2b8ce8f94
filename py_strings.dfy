/** Python's `str.split(sep)` with a one-character separator, and its inverse
    `sep.join(pieces)`. */
module PyStrings {

  /** `sep.join(pieces)`. */
  function Join(pieces: seq<string>, sep: char): (r: string)
    requires |pieces| >= 1
    decreases |pieces|
  {
    if |pieces| == 1 then pieces[0] else pieces[0] + [sep] + Join(pieces[1..], sep)
  }

  /** `s.split(sep)`: the maximal separator-free pieces of `s`, one more than
      there are separators; an empty string splits into one empty piece. */
  function Split(s: string, sep: char): (r: seq<string>)
    decreases |s|
    ensures |r| >= 1
  {
    if s == [] then [[]]
    else
      var rest := Split(s[1..], sep);
      if s[0] == sep then [[]] + rest
      else [[s[0]] + rest[0]] + rest[1..]
  }

  /** No piece contains the separator. */
  lemma {:induction false} SplitPiecesWithoutSep(s: string, sep: char)
    decreases |s|
    ensures forall k :: 0 <= k < |Split(s, sep)| ==> sep !in Split(s, sep)[k]
  {
    if s != [] {
      SplitPiecesWithoutSep(s[1..], sep);
      var rest := Split(s[1..], sep);
      if s[0] != sep {
        assert sep !in [s[0]] + rest[0];
      }
    }
  }

  /** Joining the pieces with the separator gives back the string. */
  lemma {:induction false} SplitJoin(s: string, sep: char)
    decreases |s|
    ensures Join(Split(s, sep), sep) == s
  {
    if s != [] {
      SplitJoin(s[1..], sep);
      var rest := Split(s[1..], sep);
      if s[0] == sep {
        assert [[]] + rest == [[]] + rest;
      } else {
        var r := Split(s, sep);
        if |rest| > 1 {
          assert r[1..] == rest[1..];
        }
      }
    }
  }

  /** There is one piece more than there are separators. */
  lemma {:induction false} SplitCount(s: string, sep: char)
    decreases |s|
    ensures |Split(s, sep)| == multiset(s)[sep] + 1
  {
    if s != [] {
      SplitCount(s[1..], sep);
      assert s == [s[0]] + s[1..];
    }
  }

  /** A string without the separator is a single piece. */
  lemma SplitWithoutSep(s: string, sep: char)
    requires sep !in s
    ensures Split(s, sep) == [s]
  {
    SplitPieces(s, sep);
  }

  /** Splitting at a separator splits the two sides independently. */
  lemma {:induction false} SplitAtSep(a: string, b: string, sep: char)
    ensures Split(a + [sep] + b, sep) == Split(a, sep) + Split(b, sep)
  {
    var s := a + [sep] + b;
    if a == [] {
      assert s[1..] == b;
    } else {
      assert s[1..] == a[1..] + [sep] + b;
      SplitAtSep(a[1..], b, sep);
    }
  }

  /** `s.split(sep)[0]` is the longest prefix of `s` without the separator:
      the text before the first separator, or all of `s`. */
  lemma {:induction false} SplitFirstPiece(s: string, sep: char)
    ensures var p := Split(s, sep)[0];
      |p| <= |s| && p == s[..|p|] && (|p| < |s| ==> s[|p|] == sep)
    decreases |s|
  {
    if s != [] && s[0] != sep {
      SplitFirstPiece(s[1..], sep);
    }
  }

  /** `s.split(sep)[-1]` is the longest suffix of `s` without the separator:
      the text after the last separator, or all of `s`. */
  lemma {:induction false} SplitLastPiece(s: string, sep: char)
    ensures var r := Split(s, sep); var p := r[|r| - 1];
      |p| <= |s| && p == s[|s| - |p|..] && (|p| < |s| ==> s[|s| - |p| - 1] == sep)
    decreases |s|
  {
    if s != [] {
      var t := s[1..];
      SplitLastPiece(t, sep);
      var rest := Split(t, sep);
      var q := rest[|rest| - 1];
      var p := LastPiece(s, sep);
      SplitPieces(t, sep);
      if s[0] != sep && |rest| == 1 {
        assert p == [s[0]] + t == s;
      } else {
        assert p == q;
        if s[0] != sep {
          SplitPiecesWithoutSep(t, sep);
          assert sep !in q;
        }
        SuffixOfTail(s, q);
      }
    }
  }

  /** A string splits into one piece exactly when it holds no separator, and
      that piece is the whole string. */
  lemma {:induction false} SplitPieces(s: string, sep: char)
    decreases |s|
    ensures |Split(s, sep)| == 1 <==> sep !in s
    ensures |Split(s, sep)| == 1 ==> Split(s, sep)[0] == s
  {
    if s != [] {
      SplitPieces(s[1..], sep);
      assert s == [s[0]] + s[1..];
    }
  }

  /** The last piece of a split, by cases on the first character. */
  function LastPiece(s: string, sep: char): (p: string)
    requires s != []
    ensures var r := Split(s, sep); p == r[|r| - 1]
  {
    var rest := Split(s[1..], sep);
    if s[0] != sep && |rest| == 1 then [s[0]] + rest[0] else rest[|rest| - 1]
  }

  /** A suffix of `s[1..]` is a suffix of `s`, and the character before it
      is the same in both. */
  lemma SuffixOfTail(s: string, q: string)
    requires s != [] && |q| <= |s| - 1 && q == s[1..][|s| - 1 - |q|..]
    ensures q == s[|s| - |q|..]
    ensures |q| < |s| - 1 ==> s[1..][|s| - 1 - |q| - 1] == s[|s| - |q| - 1]
  {
  }
}
