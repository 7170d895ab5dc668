/** Replacing every occurrence of a text by another, as QString::replace does, seen as cutting
    the text into pieces and gluing them together again. */
module Cutting {
  import opened Rewriting

  /** s with every occurrence of l replaced, from left to right. */
  function Exchanged(l: string, after: string, s: string): string
    requires l != ""
    decreases |s|
  {
    if s == "" then ""
    else if l <= s then after + Exchanged(l, after, s[|l|..])
    else [s[0]] + Exchanged(l, after, s[1..])
  }

  function Prefixed(l: string, pieces: seq<string>): (all: seq<string>)
    requires pieces != []
    ensures |all| == |pieces|
  {
    [l + pieces[0]] + pieces[1..]
  }

  /** The pieces into which s falls when, wherever l stands, its first d characters are cut
      out. */
  function Pieces(l: string, d: nat, s: string): (pieces: seq<string>)
    requires d < |l|
    ensures pieces != []
    decreases |s|
  {
    if s == "" then [""]
    else if l <= s then [""] + Prefixed(l[d..], Pieces(l, d, s[|l|..]))
    else Prefixed([s[0]], Pieces(l, d, s[1..]))
  }

  function Glued(pieces: seq<string>, glue: string): string
    requires pieces != []
  {
    if |pieces| == 1 then pieces[0] else pieces[0] + glue + Glued(pieces[1..], glue)
  }

  lemma GluedPrefixed(l: string, pieces: seq<string>, glue: string)
    requires pieces != []
    ensures Glued(Prefixed(l, pieces), glue) == l + Glued(pieces, glue)
  {
    var all := Prefixed(l, pieces);
    assert all[1..] == pieces[1..];
    if |pieces| > 1 {
      Regroup(l + pieces[0], glue, Glued(pieces[1..], glue));
      Regroup(pieces[0], glue, Glued(pieces[1..], glue));
      Regroup(l, pieces[0], glue + Glued(pieces[1..], glue));
    }
  }

  /** Putting `mark` for the first d characters of l is gluing the pieces with it. */
  lemma {:induction false} ExchangedIsGlued(l: string, d: nat, mark: string, s: string)
    requires d < |l|
    ensures Exchanged(l, mark + l[d..], s) == Glued(Pieces(l, d, s), mark)
    decreases |s|
  {
    if s != "" {
      if l <= s {
        var rest := Pieces(l, d, s[|l|..]);
        ExchangedIsGlued(l, d, mark, s[|l|..]);
        GluedPrefixed(l[d..], rest, mark);
        GluedFirst("", Prefixed(l[d..], rest), mark);
        Regroup(mark, l[d..], Glued(rest, mark));
      } else {
        ExchangedIsGlued(l, d, mark, s[1..]);
        GluedPrefixed([s[0]], Pieces(l, d, s[1..]), mark);
      }
    }
  }

  lemma GluedFirst(first: string, rest: seq<string>, glue: string)
    requires rest != []
    ensures Glued([first] + rest, glue) == first + glue + Glued(rest, glue)
  {
    assert ([first] + rest)[1..] == rest;
  }

  /** Gluing with what was cut out gives the text back. */
  lemma {:induction false} PiecesAreOf(l: string, d: nat, s: string)
    requires d < |l|
    ensures Glued(Pieces(l, d, s), l[..d]) == s
    decreases |s|
  {
    ExchangedIsGlued(l, d, l[..d], s);
    assert l[..d] + l[d..] == l;
    ExchangedForItself(l, s);
  }

  lemma {:induction false} ExchangedForItself(l: string, s: string)
    requires l != ""
    ensures Exchanged(l, l, s) == s
    decreases |s|
  {
    if l <= s {
      assert s == l + s[|l|..];
      ExchangedForItself(l, s[|l|..]);
    } else if s != "" {
      ExchangedForItself(l, s[1..]);
    }
  }

  /** Every piece but the first starts with the rest of l. */
  lemma {:induction false} LaterPiecesStart(l: string, d: nat, s: string)
    requires d < |l|
    ensures forall i :: 0 < i < |Pieces(l, d, s)| ==> l[d..] <= Pieces(l, d, s)[i]
    decreases |s|
  {
    if s != "" {
      LaterPiecesStart(l, d, if l <= s then s[|l|..] else s[1..]);
    }
  }

  /** No occurrence of l is overlooked: what still stands in a piece overlaps the rest of the
      occurrence that the piece starts with. */
  lemma {:induction false} NothingLeft(l: string, d: nat, s: string)
    requires d < |l|
    ensures forall i, x: nat :: 0 <= i < |Pieces(l, d, s)| && Stands(l, Pieces(l, d, s)[i], x) ==> i > 0 && x < |l| - d
    decreases |s|
  {
    if s != "" {
      var pieces := Pieces(l, d, s);
      if l <= s {
        var rest := Pieces(l, d, s[|l|..]);
        NothingLeft(l, d, s[|l|..]);
        forall i, x: nat | 0 <= i < |pieces| && Stands(l, pieces[i], x) ensures i > 0 && x < |l| - d {
          if i == 1 && x >= |l| - d {
            StandsFurther(l, l[d..], rest[0], x);
          } else if i > 1 {
            assert pieces[i] == rest[i - 1];
          }
        }
      } else {
        NothingLeft(l, d, s[1..]);
        var rest := Pieces(l, d, s[1..]);
        FirstPieceStarts(l, d, s);
        StandsHere(l, pieces[0]);
        forall i, x: nat | 0 <= i < |pieces| && Stands(l, pieces[i], x) ensures i > 0 && x < |l| - d {
          assert i > 0 ==> pieces[i] == rest[i];
          if i == 0 && x > 0 {
            StandsFurther(l, [s[0]], rest[0], x);
          }
        }
      }
    }
  }

  lemma StandsFurther(l: string, a: string, b: string, x: nat)
    requires Stands(l, a + b, x) && x >= |a|
    ensures Stands(l, b, x - |a|)
  {
    assert (a + b)[x..x + |l|] == b[x - |a|..x - |a| + |l|];
  }

  lemma {:induction false} FirstPieceStarts(l: string, d: nat, s: string)
    requires d < |l|
    ensures Pieces(l, d, s)[0] <= s
    decreases |s|
  {
    if s != "" && !(l <= s) {
      FirstPieceStarts(l, d, s[1..]);
    }
  }

  lemma {:induction false} NothingExchanged(l: string, after: string, s: string)
    requires l != "" && forall x :: 0 <= x <= |s| ==> !Stands(l, s, x)
    ensures Exchanged(l, after, s) == s
    decreases |s|
  {
    StandsHere(l, s);
    if s != "" {
      hide Stands;
      StandsInTail(l, s, 1);
      NothingExchanged(l, after, s[1..]);
    }
  }

  lemma StandsHere(l: string, s: string)
    ensures l <= s <==> Stands(l, s, 0)
  {
  }

  lemma StandsInTail(l: string, s: string, n: nat)
    requires n <= |s|
    ensures forall x :: 0 <= x <= |s[n..]| ==> (Stands(l, s[n..], x) <==> Stands(l, s, n + x))
  {
    forall x | 0 <= x <= |s[n..]| ensures Stands(l, s[n..], x) <==> Stands(l, s, n + x) {
      if n + x + |l| <= |s| {
        assert s[n..][x..x + |l|] == s[n + x..n + x + |l|];
      }
    }
  }

  lemma ExchangedHere(l: string, after: string, s: string)
    requires l != "" && s != ""
    ensures Exchanged(l, after, s) ==
            if l <= s then after + Exchanged(l, after, s[|l|..]) else [s[0]] + Exchanged(l, after, s[1..])
  {
  }

  lemma {:induction false} OnceExchanged(l: string, after: string, s: string, n: nat)
    requires l != "" && Stands(l, s, n) && forall x :: 0 <= x <= |s| && Stands(l, s, x) ==> x == n
    ensures Exchanged(l, after, s) == s[..n] + after + s[n + |l|..]
    decreases |s|
  {
    hide Exchanged;
    StandsHere(l, s);
    ExchangedHere(l, after, s);
    if n == 0 {
      StandsInTail(l, s, |l|);
      NothingExchanged(l, after, s[|l|..]);
    } else {
      StandsInTail(l, s, 1);
      OnceExchanged(l, after, s[1..], n - 1);
      OneCharacterMore(s, n, after, s[n + |l|..]);
      assert s[1..][n - 1 + |l|..] == s[n + |l|..];
    }
  }

  lemma OneCharacterMore(s: string, n: nat, after: string, rest: string)
    requires 0 < n <= |s|
    ensures [s[0]] + (s[1..][..n - 1] + after + rest) == s[..n] + after + rest
  {
    assert [s[0]] + s[1..][..n - 1] == s[..n];
    Regroup([s[0]] + s[1..][..n - 1], after, rest);
    Regroup(s[1..][..n - 1], after, rest);
    Regroup([s[0]], s[1..][..n - 1], after + rest);
  }

  /** A character comes out only if it went in. */
  lemma {:induction false} ExchangedLetters(l: string, after: string, s: string, c: char)
    requires l != "" && c !in after && c !in s
    ensures c !in Exchanged(l, after, s)
    decreases |s|
  {
    if s != "" {
      ExchangedLetters(l, after, if l <= s then s[|l|..] else s[1..], c);
    }
  }
}
