/** Java's `String.split` with a one-character, non-regex separator and the
    default limit of zero, as the sensor-file reader uses it (`line.split(",")`).

    Java first cuts the string at every occurrence of the separator, then
    removes every trailing empty string from the result; a string in which the
    separator does not occur at all comes back as the one-element array holding
    the string itself (so the empty line yields `[""]`, one token). */
module JavaText {

  /** The pieces of `s` between occurrences of `sep`, empty ones included:
      always one more piece than there are separators. */
  function Pieces(s: string, sep: char): (r: seq<string>)
    ensures |r| >= 1
    decreases |s|
  {
    if s == [] then [""]
    else
      var rest := Pieces(s[1..], sep);
      if s[0] == sep then [""] + rest
      else [[s[0]] + rest[0]] + rest[1..]
  }

  /** No piece contains the separator. */
  lemma {:induction false} PiecesSeparatorFree(s: string, sep: char)
    ensures forall k :: 0 <= k < |Pieces(s, sep)| ==> sep !in Pieces(s, sep)[k]
    decreases |s|
  {
    if s != [] {
      PiecesSeparatorFree(s[1..], sep);
      var rest := Pieces(s[1..], sep);
      if s[0] != sep {
        assert sep !in [s[0]] + rest[0];
        assert forall k :: 1 <= k < |Pieces(s, sep)| ==> Pieces(s, sep)[k] == rest[k];
      } else {
        assert forall k :: 1 <= k < |Pieces(s, sep)| ==> Pieces(s, sep)[k] == rest[k - 1];
      }
    }
  }

  /** The inverse of `Pieces`: the pieces glued back together with `sep`. */
  function Join(ps: seq<string>, sep: char): string
    requires |ps| >= 1
  {
    if |ps| == 1 then ps[0] else ps[0] + [sep] + Join(ps[1..], sep)
  }

  /** Cutting a string and gluing the pieces back gives the string. */
  lemma {:induction false} JoinPieces(s: string, sep: char)
    ensures Join(Pieces(s, sep), sep) == s
    decreases |s|
  {
    if s != [] {
      var rest := Pieces(s[1..], sep);
      JoinPieces(s[1..], sep);
      if s[0] == sep {
        assert ([""] + rest)[1..] == rest;
        assert s == [sep] + s[1..];
      } else if |rest| == 1 {
        assert s == [s[0]] + s[1..];
      } else {
        var ps := [[s[0]] + rest[0]] + rest[1..];
        assert ps[1..] == rest[1..];
        assert s == [s[0]] + s[1..];
      }
    }
  }

  /** A string without the separator is one piece. */
  lemma {:induction false} PiecesWithoutSeparator(p: string, sep: char)
    requires sep !in p
    ensures Pieces(p, sep) == [p]
    decreases |p|
  {
    if p != [] {
      assert sep !in p[1..] by {
        forall k | 0 <= k < |p[1..]| ensures p[1..][k] != sep {
          assert p[1..][k] == p[k + 1];
        }
      }
      PiecesWithoutSeparator(p[1..], sep);
      assert p == [p[0]] + p[1..];
    }
  }

  /** A separator-free prefix followed by the separator becomes the first piece. */
  lemma {:induction false} PiecesOfPrefix(p: string, sep: char, t: string)
    requires sep !in p
    ensures Pieces(p + [sep] + t, sep) == [p] + Pieces(t, sep)
    decreases |p|
  {
    var s := p + [sep] + t;
    if p == [] {
      assert s[1..] == t;
    } else {
      assert sep !in p[1..] by {
        forall k | 0 <= k < |p[1..]| ensures p[1..][k] != sep {
          assert p[1..][k] == p[k + 1];
        }
      }
      assert s[1..] == p[1..] + [sep] + t;
      PiecesOfPrefix(p[1..], sep, t);
      assert [p[0]] + p[1..] == p;
    }
  }

  /** Gluing separator-free pieces and cutting again gives the pieces back. */
  lemma {:induction false} PiecesJoin(ps: seq<string>, sep: char)
    requires |ps| >= 1
    requires forall k :: 0 <= k < |ps| ==> sep !in ps[k]
    ensures Pieces(Join(ps, sep), sep) == ps
    decreases |ps|
  {
    if |ps| == 1 {
      PiecesWithoutSeparator(ps[0], sep);
    } else {
      PiecesJoin(ps[1..], sep);
      PiecesOfPrefix(ps[0], sep, Join(ps[1..], sep));
      assert ps == [ps[0]] + ps[1..];
    }
  }

  /** The longest prefix of `ps` that does not end in an empty string: what
      Java keeps of the pieces when the split limit is zero. */
  function DropTrailingEmpty(ps: seq<string>): (r: seq<string>)
  {
    if ps != [] && ps[|ps| - 1] == "" then DropTrailingEmpty(ps[..|ps| - 1]) else ps
  }

  /** `DropTrailingEmpty` keeps a prefix, which does not end in an empty
      string, and drops only empty strings. */
  lemma {:induction false} DropTrailingEmptySpec(ps: seq<string>)
    ensures DropTrailingEmpty(ps) <= ps
    ensures DropTrailingEmpty(ps) == [] || DropTrailingEmpty(ps)[|DropTrailingEmpty(ps)| - 1] != ""
    ensures forall k :: |DropTrailingEmpty(ps)| <= k < |ps| ==> ps[k] == ""
    decreases |ps|
  {
    if ps != [] && ps[|ps| - 1] == "" {
      DropTrailingEmptySpec(ps[..|ps| - 1]);
    }
  }

  /** `s.split(String.valueOf(sep))` in Java. A string without the separator
      is one token, itself, so the empty string is one empty token.
      `SplitSpec` says what the tokens are. */
  function Split(s: string, sep: char): (r: seq<string>)
    ensures s == [] ==> r == [""]
  {
    if sep !in s then [s] else DropTrailingEmpty(Pieces(s, sep))
  }

  /** A string without the separator is one token, itself. Otherwise the
      tokens are the pieces up to the last non-empty one and everything
      dropped is empty. No token contains the separator. */
  lemma SplitSpec(s: string, sep: char)
    ensures sep !in s ==> Split(s, sep) == [s]
    ensures sep in s ==> Split(s, sep) <= Pieces(s, sep)
    ensures sep in s ==> Split(s, sep) == [] || Split(s, sep)[|Split(s, sep)| - 1] != ""
    ensures sep in s ==> forall k :: |Split(s, sep)| <= k < |Pieces(s, sep)| ==> Pieces(s, sep)[k] == ""
    ensures forall k :: 0 <= k < |Split(s, sep)| ==> sep !in Split(s, sep)[k]
  {
    DropTrailingEmptySpec(Pieces(s, sep));
    PiecesSeparatorFree(s, sep);
  }

  /** When the line does not end in a separator, no token is dropped and the
      tokens glue back to the line; so such a line with `n` separators yields
      `n + 1` tokens. */
  lemma {:induction false} SplitKeepsEveryPiece(s: string, sep: char)
    requires s == [] || s[|s| - 1] != sep
    ensures Split(s, sep) == Pieces(s, sep)
    ensures Join(Split(s, sep), sep) == s
  {
    var ps := Pieces(s, sep);
    JoinPieces(s, sep);
    if sep in s {
      assert ps[|ps| - 1] != "" by {
        LastPieceEmpty(s, sep);
      }
      assert DropTrailingEmpty(ps) == ps;
    } else {
      PiecesWithoutSeparator(s, sep);
    }
  }

  /** The last piece is empty exactly when the string is empty or ends with
      the separator. */
  lemma {:induction false} LastPieceEmpty(s: string, sep: char)
    ensures var ps := Pieces(s, sep); ps[|ps| - 1] == "" <==> s == [] || s[|s| - 1] == sep
    decreases |s|
  {
    if s != [] {
      var rest := Pieces(s[1..], sep);
      LastPieceEmpty(s[1..], sep);
      if s[0] != sep && |rest| == 1 {
        JoinPieces(s[1..], sep);
        assert s[1..] == rest[0];
        if s[1..] != [] {
          assert s[|s| - 1] == rest[0][|rest[0]| - 1];
        }
      } else if s[1..] != [] {
        assert s[|s| - 1] == s[1..][|s[1..]| - 1];
      }
    }
  }

  /** Splitting fields that were joined with the separator gives the fields
      back, less the trailing empty ones. */
  lemma SplitJoin(ps: seq<string>, sep: char)
    requires |ps| >= 2
    requires forall k :: 0 <= k < |ps| ==> sep !in ps[k]
    ensures Split(Join(ps, sep), sep) == DropTrailingEmpty(ps)
  {
    PiecesJoin(ps, sep);
    assert sep in Join(ps, sep) by {
      assert Join(ps, sep)[|ps[0]|] == sep;
    }
  }

  /** Trailing empty tokens go: `"a,b,,,".split(",")` is `a`, `b`. */
  lemma SplitDropsTrailingEmpty(line: string)
    requires line == "a,b,,,"
    ensures Split(line, ',') == ["a", "b"]
  {
    var ps := ["a", "b", "", "", ""];
    SplitJoin(ps, ',');
    assert Join(ps, ',') == line;
    assert ps[..4] == ["a", "b", "", ""] && ps[..4][..3] == ["a", "b", ""] && ps[..4][..3][..2] == ["a", "b"];
    assert DropTrailingEmpty(["a", "b", ""]) == ["a", "b"];
    assert DropTrailingEmpty(["a", "b", "", ""]) == ["a", "b"];
  }

  /** The empty line is one empty token. */
  lemma SplitEmptyLine()
    ensures Split("", ',') == [""]
  {
  }

  /** A line of separators only has no tokens. */
  lemma SplitOnlySeparators(line: string)
    requires line == ",,"
    ensures Split(line, ',') == []
  {
    var ps := ["", "", ""];
    SplitJoin(ps, ',');
    assert Join(ps, ',') == line;
    assert ps[..2] == ["", ""] && ps[..2][..1] == [""] && ps[..2][..1][..0] == [];
    assert DropTrailingEmpty([""]) == [];
    assert DropTrailingEmpty(["", ""]) == [];
  }

  /** A leading empty token is kept. */
  lemma SplitKeepsLeadingEmpty(line: string)
    requires line == ",a"
    ensures Split(line, ',') == ["", "a"]
  {
    var ps := ["", "a"];
    SplitJoin(ps, ',');
    assert Join(ps, ',') == line;
  }
}
