/** `split` of src/include/helper.h and helper.h: `strtok_r` over a line,
    collecting the maximal non-empty pieces that contain no delimiter
    character.  Strings are sequences of characters without the C
    terminator; the delimiter string is a set of characters. */
module Split {

  /** The pieces of `s`, built one character at a time: a delimiter ends
      the current piece, any other character starts a new piece after a
      delimiter (or at the start) and extends the current piece otherwise. */
  function Tokens(s: string, delims: set<char>): (t: seq<string>)
    ensures |s| > 0 && s[|s| - 1] !in delims ==> |t| > 0
    decreases |s|
  {
    if s == [] then []
    else
      var t := Tokens(s[..|s| - 1], delims);
      var c := s[|s| - 1];
      if c in delims then t
      else if |s| == 1 || s[|s| - 2] in delims then t + [[c]]
      else t[..|t| - 1] + [t[|t| - 1] + [c]]
  }

  /** The pieces glued back together. */
  function Concat(t: seq<string>): string
    decreases |t|
  {
    if t == [] then [] else Concat(t[..|t| - 1]) + t[|t| - 1]
  }

  /** The characters of `s` that are not delimiters, in order. */
  function Letters(s: string, delims: set<char>): string
    decreases |s|
  {
    if s == [] then [] else Letters(s[..|s| - 1], delims) + (if s[|s| - 1] in delims then [] else [s[|s| - 1]])
  }

  /** Position `i` starts a piece: it is not a delimiter and follows a
      delimiter or the start of the line. */
  predicate PieceStart(s: string, delims: set<char>, i: int)
    requires 0 <= i < |s|
  {
    s[i] !in delims && (i == 0 || s[i - 1] in delims)
  }

  /** The positions where pieces start. */
  function PieceStarts(s: string, delims: set<char>): set<int> {
    set i | 0 <= i < |s| && PieceStart(s, delims, i)
  }

  /** The loop of `split`: clears the output, then pushes each piece in the
      order `strtok_r` returns them (src/include/helper.h:201-210,
      helper.h:175-184). */
  method SplitLine(s: string, delims: set<char>) returns (out: seq<string>)
    ensures out == Tokens(s, delims)
  {
    out := [];
    var cur: string := [];
    for i := 0 to |s|
      invariant out + (if cur == [] then [] else [cur]) == Tokens(s[..i], delims)
      invariant cur != [] <==> i > 0 && s[i - 1] !in delims
    {
      var q := s[..i + 1];
      assert q[..i] == s[..i] && q[i] == s[i];
      ghost var t := Tokens(s[..i], delims);
      if s[i] in delims {
        assert Tokens(q, delims) == t;
        if cur != [] {
          out := out + [cur];
          cur := [];
        }
      } else if cur != [] {
        assert q[i - 1] == s[i - 1];
        assert t[..|t| - 1] == out && t[|t| - 1] == cur;
        assert Tokens(q, delims) == out + [cur + [s[i]]];
        cur := cur + [s[i]];
      } else {
        assert Tokens(q, delims) == out + [[s[i]]];
        cur := [s[i]];
      }
    }
    assert s[..|s|] == s;
    if cur != [] {
      out := out + [cur];
    }
  }

  /** Every piece is non-empty and holds no delimiter. */
  lemma {:induction false} TokensAreWords(s: string, delims: set<char>)
    ensures forall k :: 0 <= k < |Tokens(s, delims)| ==> Tokens(s, delims)[k] != []
    ensures forall k, j :: 0 <= k < |Tokens(s, delims)| && 0 <= j < |Tokens(s, delims)[k]| ==> Tokens(s, delims)[k][j] !in delims
    decreases |s|
  {
    if s != [] {
      TokensAreWords(s[..|s| - 1], delims);
    }
  }

  /** The pieces, glued together, are exactly the non-delimiter characters
      of the line in order: nothing is lost, reordered or invented. */
  lemma {:induction false} TokensConcatToLetters(s: string, delims: set<char>)
    ensures Concat(Tokens(s, delims)) == Letters(s, delims)
    decreases |s|
  {
    if s != [] {
      TokensConcatToLetters(s[..|s| - 1], delims);
      ConcatLast(s, delims);
    }
  }

  /** The last character of a line adds itself to the glued pieces unless
      it is a delimiter. */
  lemma ConcatLast(s: string, delims: set<char>)
    requires s != []
    ensures var c := s[|s| - 1];
      Concat(Tokens(s, delims)) == Concat(Tokens(s[..|s| - 1], delims)) + (if c in delims then [] else [c])
  {
    var t := Tokens(s[..|s| - 1], delims);
    var c := s[|s| - 1];
    if c !in delims {
      if |s| == 1 || s[|s| - 2] in delims {
        assert Tokens(s, delims) == t + [[c]];
        assert (t + [[c]])[..|t|] == t;
      } else {
        var u := t[..|t| - 1] + [t[|t| - 1] + [c]];
        assert Tokens(s, delims) == u;
        assert u[..|u| - 1] == t[..|t| - 1];
        calc {
          Concat(u);
          Concat(t[..|t| - 1]) + (t[|t| - 1] + [c]);
          (Concat(t[..|t| - 1]) + t[|t| - 1]) + [c];
          Concat(t) + [c];
        }
      }
    }
  }

  /** There is one piece per piece start, so pieces are maximal: two
      neighbouring non-delimiter characters always land in the same piece. */
  lemma {:induction false} TokenCountIsPieceStarts(s: string, delims: set<char>)
    ensures |Tokens(s, delims)| == |PieceStarts(s, delims)|
    decreases |s|
  {
    if s == [] {
      assert PieceStarts(s, delims) == {};
    } else {
      var p := s[..|s| - 1];
      var n := |s| - 1;
      TokenCountIsPieceStarts(p, delims);
      PieceStartsLast(s, delims);
      if PieceStart(s, delims, n) {
        assert n !in PieceStarts(p, delims);
      }
    }
  }

  /** The last position of a line adds a piece start exactly when it
      starts a piece, and so does it add a piece. */
  lemma PieceStartsLast(s: string, delims: set<char>)
    requires s != []
    ensures var p, n := s[..|s| - 1], |s| - 1;
      && PieceStarts(s, delims) == PieceStarts(p, delims) + (if PieceStart(s, delims, n) then {n} else {})
      && |Tokens(s, delims)| == |Tokens(p, delims)| + (if PieceStart(s, delims, n) then 1 else 0)
  {
    var p := s[..|s| - 1];
    var n := |s| - 1;
    assert forall i :: 0 <= i < n ==> (PieceStart(s, delims, i) <==> PieceStart(p, delims, i));
    if PieceStart(s, delims, n) {
      assert PieceStarts(s, delims) == PieceStarts(p, delims) + {n};
    } else {
      assert PieceStarts(s, delims) == PieceStarts(p, delims);
    }
  }
}
