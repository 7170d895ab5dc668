/** Any kiran-authentication-service text: when it cannot be switched, as one of the two lines
    is not in it or is lost when the other is rewritten, and when the new text covers the old
    one. */
module KiranFailing {
  import opened Patterns
  import opened Cutting
  import opened KiranAuth
  import opened TextEncoding

  /** Where the next match of q stands decides; it may end with the "auth" of the line behind. */
  ghost predicate EndsInAuth(q: string) {
    && WellSpaced(q) && |q| > 4 && q[0] == 'a' && IsPlain(q[1]) && IsPlain(q[2]) && IsPlain(q[3]) && q[4] != '?'
    && q[|q| - 4..] == "auth"
    && forall t :: 0 < t < |q| ==> Clash(q, t, "#a") && (t != |q| - 4 ==> Clash(q, t, "auth "))
  }

  lemma {:induction false} PlainWordIsItself(c: string, w: string)
    requires Matches(c, w) && forall k :: 0 <= k < |c| ==> c[k] != '~' && c[k] != '?'
    ensures w == c
  {
    if c != "" && w != "" {
      PlainWordIsItself(c[1..], w[1..]);
    }
  }

  /** From d on, w goes on as `head` begins. */
  ghost predicate Continues(w: string, d: nat, head: string) {
    forall k :: d <= k < |w| && k - d < |head| ==> w[k] == head[k - d]
  }

  lemma EndsAtHash(q: string, w: string, d: nat)
    requires EndsInAuth(q) && Matches(q, w) && 0 < d <= |w|
    requires Continues(w, d, "#a")
    ensures |w| <= d
  {
    if d < |w| {
      assert w[d] == "#a"[0] == '#';
      var t := CutWord(q, w, d);
      ClashRefutes(q, t, "#a", w[d..]);
    }
  }

  lemma EndsInAuthAtMost(q: string, w: string, d: nat)
    requires EndsInAuth(q) && Matches(q, w) && 0 < d <= |w|
    requires Continues(w, d, "auth ")
    ensures |w| <= d + 4
  {
    if d < |w| {
      assert w[d] == "auth "[0] == 'a';
      var t := CutWord(q, w, d);
      if t == |q| - 4 {
        PlainWordIsItself(q[t..], w[d..]);
      } else {
        ClashRefutes(q, t, "auth ", w[d..]);
      }
    }
  }

  /** A match that starts in front of a mark and an auth line ends with its "auth" at most. */
  lemma MatchStops(q: string, a: string, mark: string, z: string, x: nat)
    requires EndsInAuth(q) && (mark == "" || mark == "#") && "auth " <= z
    requires x < |a| && Found(q, a + mark + z, x)
    ensures MatchEnd(q, a + mark + z, x) <= |a| + |mark| + 4
  {
    var s := a + mark + z;
    var e, d := MatchEnd(q, s, x), |a| - x;
    GreedyIsExact(q, s, x, e);
    if e > |a| {
      var w := s[x..e];
      assert forall k :: d <= k < |w| ==> w[k] == (mark + z)[k - d];
      if mark == "" {
        assert mark + z == z;
        EndsInAuthAtMost(q, w, d);
      } else {
        assert "auth "[0] == z[0] && (mark + z)[0] == '#' && (mark + z)[1] == 'a';
        EndsAtHash(q, w, d);
      }
    }
  }

  lemma FoundStartsWithA(q: string, s: string, x: nat)
    requires EndsInAuth(q) && Found(q, s, x)
    ensures x + 4 < MatchEnd(q, s, x) && s[x] == 'a'
  {
    var w := s[x..MatchEnd(q, s, x)];
    GreedyIsExact(q, s, x, MatchEnd(q, s, x));
    TokenAt(q, w, 0);
    TokenAt(q, w, 4);
  }

  /** What is found within a part of a text is found in the text. */
  lemma FoundInPart(q: string, s: string, x: nat, e: nat, t: string, y: nat)
    requires WellSpaced(q) && Found(q, s, x) && MatchEnd(q, s, x) == e
    requires y + e - x <= |t| && s[x..e] == t[y..y + e - x]
    ensures Contains(q, t)
  {
    Relocate(q, s, x, t, y);
    assert Found(q, t, y);
  }

  lemma ContainsPart(q: string, a: string, b: string, c: string)
    requires WellSpaced(q) && Contains(q, b)
    ensures Contains(q, a + b + c)
  {
    var x := FirstMatch(q, b, 0);
    var e := MatchEnd(q, b, x);
    assert (a + b + c)[|a| + x..|a| + e] == b[x..e];
    FoundInPart(q, b, x, e, a + b + c, |a| + x);
  }

  /** A match in a text glued together is in its first piece, with the "auth" behind the mark,
      or in what is behind. */
  lemma ContainsGlued(q: string, a: string, mark: string, z: string)
    requires EndsInAuth(q) && (mark == "" || mark == "#") && "auth " <= z
    ensures Contains(q, a + mark + z) <==> Contains(q, a + mark + "auth") || Contains(q, z)
  {
    var s, first := a + mark + z, a + mark + "auth";
    var n := |a| + |mark|;
    assert s == "" + first + z[4..] && s == (a + mark) + z + "";
    hide EndsInAuth, Contains, Found;
    if Contains(q, first) {
      ContainsPart(q, "", first, z[4..]);
    }
    if Contains(q, z) {
      ContainsPart(q, a + mark, z, "");
    }
    if Contains(q, s) {
      FoundInOne(q, a, mark, z);
    }
  }

  lemma FoundInOne(q: string, a: string, mark: string, z: string)
    requires EndsInAuth(q) && (mark == "" || mark == "#") && "auth " <= z && Contains(q, a + mark + z)
    ensures Contains(q, a + mark + "auth") || Contains(q, z)
  {
    var s, n := a + mark + z, |a| + |mark|;
    var x := FirstMatch(q, s, 0);
    var e := MatchEnd(q, s, x);
    FoundStartsWithA(q, s, x);
    if x < |a| {
      MatchStops(q, a, mark, z, x);
      assert s[..n + 4] == a + mark + "auth";
      FoundInPart(q, s, x, e, s[..n + 4], x);
    } else {
      assert x >= n;
      SliceOfTail(a, mark, z, x - n, e - n);
      FoundInPart(q, s, x, e, z, x - n);
    }
  }

  /** A '#' in front of the "auth" keeps it from belonging to a match. */
  lemma HashSeparates(q: string, a: string)
    requires EndsInAuth(q)
    ensures Contains(q, a + "#" + "auth") <==> Contains(q, a)
  {
    var s := a + "#" + "auth";
    assert s == "" + a + "#auth";
    if Contains(q, a) {
      ContainsPart(q, "", a, "#auth");
    }
    if Contains(q, s) {
      var x := FirstMatch(q, s, 0);
      var e := MatchEnd(q, s, x);
      FoundStartsWithA(q, s, x);
      assert x < |a|;
      HashEnds(q, a, "auth", x);
      assert s[x..e] == a[x..e];
      FoundInPart(q, s, x, e, a, x);
    }
  }

  lemma HashEnds(q: string, a: string, z: string, x: nat)
    requires EndsInAuth(q) && z != "" && z[0] == 'a' && x < |a| && Found(q, a + "#" + z, x)
    ensures MatchEnd(q, a + "#" + z, x) <= |a|
  {
    var s := a + "#" + z;
    var e := MatchEnd(q, s, x);
    GreedyIsExact(q, s, x, e);
    if e > |a| {
      var w := s[x..e];
      assert forall k :: |a| - x <= k < |w| ==> w[k] == ("#" + z)[k - (|a| - x)];
      assert ("#" + z)[0] == '#' && ("#" + z)[1] == 'a';
      EndsAtHash(q, w, |a| - x);
    }
  }

  // -------------------------------------------------------------- a match in some piece

  /** The text in which a match of the second pattern can be left: a piece, and behind every
      piece but the last the mark and the start of the line that follows. */
  function Place(pieces: seq<string>, mark: string, i: nat): string
    requires i < |pieces|
  {
    if i == |pieces| - 1 then pieces[i] else pieces[i] + mark + "auth"
  }

  ghost predicate InSomePiece(q: string, pieces: seq<string>, mark: string) {
    exists i :: 0 <= i < |pieces| && Contains(q, Place(pieces, mark, i))
  }

  lemma InLaterPiece(q: string, pieces: seq<string>, mark: string)
    requires |pieces| > 1
    ensures InSomePiece(q, pieces, mark) <==>
            Contains(q, pieces[0] + mark + "auth") || InSomePiece(q, pieces[1..], mark)
  {
    forall i | 0 < i < |pieces| ensures Place(pieces, mark, i) == Place(pieces[1..], mark, i - 1) {
    }
    if i :| 0 <= i < |pieces[1..]| && Contains(q, Place(pieces[1..], mark, i)) {
      assert Contains(q, Place(pieces, mark, i + 1));
    }
    if Contains(q, Place(pieces, mark, 0)) {
      assert InSomePiece(q, pieces, mark);
    }
  }

  /** A match is left in the glued text exactly if some piece holds one. */
  lemma {:induction false} LeftInAPiece(q: string, pieces: seq<string>, mark: string)
    requires EndsInAuth(q) && (mark == "" || mark == "#") && pieces != []
    requires forall i :: 0 < i < |pieces| ==> "auth " <= pieces[i]
    ensures Contains(q, Glued(pieces, mark)) <==> InSomePiece(q, pieces, mark)
  {
    if |pieces| == 1 {
      assert Place(pieces, mark, 0) == pieces[0];
    } else {
      StartOfGlued(pieces[1..], mark);
      ContainsGlued(q, pieces[0], mark, Glued(pieces[1..], mark));
      LeftInAPiece(q, pieces[1..], mark);
      InLaterPiece(q, pieces, mark);
    }
  }

  lemma StartOfGlued(pieces: seq<string>, mark: string)
    requires pieces != [] && "auth " <= pieces[0]
    ensures "auth " <= Glued(pieces, mark)
  {
  }

  lemma {:induction false} HashPlaces(q: string, pieces: seq<string>)
    requires EndsInAuth(q)
    ensures InSomePiece(q, pieces, "#") <==> exists i :: 0 <= i < |pieces| && Contains(q, pieces[i])
  {
    forall i | 0 <= i < |pieces| ensures Contains(q, Place(pieces, "#", i)) <==> Contains(q, pieces[i]) {
      HashSeparates(q, pieces[i]);
    }
  }

  // ------------------------------------------------------------------ the actual patterns

  const FACTOR_START := "auth~[success=2 default=bad]"

  lemma EachAInFactorStart()
    ensures |FACTOR_START| == 28 && FACTOR_START[..5] == "auth~"
    ensures forall k :: 0 < k < 28 ==> FACTOR_START[k] != '#' && FACTOR_START[k] != '?'
    ensures forall k :: 0 < k < 28 && FACTOR_START[k] == 'a' ==> k == 19 || k == 25
    ensures FACTOR_START[20] == 'u' && FACTOR_START[21] == 'l' && FACTOR_START[26] == 'd'
  {
  }

  lemma NoHashInDoauth()
    ensures |DOAUTH| == 35 && '#' !in DOAUTH
  {
  }

  lemma DoauthEnds()
    ensures |DOAUTH| == 35 && DOAUTH[31..] == "auth"
  {
    assert DOAUTH[31] == 'a' && DOAUTH[32] == 'u' && DOAUTH[33] == 't' && DOAUTH[34] == 'h';
  }

  lemma EachAInDoauth()
    ensures |DOAUTH| == 35
    ensures forall k :: 0 <= k < 35 && (DOAUTH[k] == 'a' || DOAUTH[k] == '?') ==>
      k == 2 || k == 8 || k == 11 || k == 20 || k == 25 || k == 31
  {
  }

  lemma AroundEachA()
    ensures |DOAUTH| == 35 && DOAUTH[2] == DOAUTH[8] == DOAUTH[11] == DOAUTH[20] == 'a' && DOAUTH[25] == '?'
    ensures DOAUTH[3] == 'm' && DOAUTH[9] == 'n' && DOAUTH[12] == 'u' && DOAUTH[13] == 't' && DOAUTH[14] == 'h'
    ensures DOAUTH[15] == 'e' && DOAUTH[21] == 't' && DOAUTH[26] == 's'
  {
  }

  /** What the pattern consists of, as far as it matters here. */
  ghost predicate LooksLikeFactor(q: string) {
    && |q| == 63
    && (forall t :: 0 < t < |q| ==> q[t] != '#')
    && (forall t :: 0 < t < |q| && q[t] == '?' ==> t == 53)
    && (forall t :: 0 < t < |q| && q[t] == 'a' ==>
          t == 19 || t == 25 || t == 30 || t == 36 || t == 39 || t == 48 || t == 59)
    && q[20] == 'u' && q[21] == 'l' && q[26] == 'd' && q[31] == 'm' && q[37] == 'n' && q[49] == 't'
    && q[40] == 'u' && q[41] == 't' && q[42] == 'h' && q[43] == 'e'
    && q[53] == '?' && q[54] == 's'
    && q[19] == q[25] == q[30] == q[36] == q[39] == q[48] == 'a'
  }

  lemma FactorLooks()
    ensures LooksLikeFactor(FACTOR_START + DOAUTH)
  {
    EachAInFactorStart();
    NoHashInDoauth();
    EachAInDoauth();
    AroundEachA();
    var q := FACTOR_START + DOAUTH;
    assert FACTOR_START[19] == 'a' && FACTOR_START[25] == 'a';
    hide FACTOR_START, DOAUTH;
    assert forall k :: 0 <= k < 28 ==> q[k] == FACTOR_START[k];
    assert forall k :: 0 <= k < 35 ==> q[28 + k] == DOAUTH[k];
    assert forall t :: 28 <= t < 63 ==> q[t] == DOAUTH[t - 28];
  }

  lemma FactorClashes(q: string, t: nat)
    requires LooksLikeFactor(q) && 0 < t < |q|
    ensures Clash(q, t, "#a") && (t != |q| - 4 ==> Clash(q, t, "auth "))
  {
    assert ClashAfter(q, t, "#a", 0) || (t == 53 && ClashAfter(q, t, "#a", 1));
    if t != |q| - 4 {
      assert ClashAfter(q, t, "auth ", 0) || ClashAfter(q, t, "auth ", 1) ||
             (t == 19 && ClashAfter(q, t, "auth ", 2)) || (t == 39 && ClashAfter(q, t, "auth ", 4));
    }
  }

  lemma MultiFactorEndsInAuth()
    ensures EndsInAuth(MULTI_FACTOR)
  {
    MultiFactorIsWellSpaced();
    EachAInFactorStart();
    DoauthEnds();
    var q := FACTOR_START + DOAUTH;
    assert q[|q| - 4..] == DOAUTH[31..];
    assert forall k :: 0 <= k < 5 ==> q[k] == FACTOR_START[..5][k];
    FactorLooks();
    hide WellSpaced, Clash, LooksLikeFactor;
    forall t | 0 < t < |q| ensures Clash(q, t, "#a") && (t != |q| - 4 ==> Clash(q, t, "auth ")) {
      FactorClashes(q, t);
    }
  }

  /** The match that `(.*)(p)` ends with. */
  function LastOnLine(p: string, s: string): (y: nat)
    requires Contains(p, s)
    ensures y <= |s| && Found(p, s, y) && LineStart(s, FirstMatch(p, s, 0)) <= y
  {
    var x := FirstMatch(p, s, 0);
    LastMatch(p, s, x, LineEnd(s, x))
  }

  /** What stands in front of it on its line, and is rewritten wherever the same text stands. */
  function Front(p: string, s: string): string
    requires Contains(p, s)
  {
    s[LineStart(s, FirstMatch(p, s, 0))..LastOnLine(p, s)]
  }

  /** The front starts the first line with a match, and ends at the last match in it. */
  lemma FrontMeans(p: string, s: string)
    requires Contains(p, s)
    ensures var x, y := FirstMatch(p, s, 0), LastOnLine(p, s);
      var n := LineStart(s, x);
      && n <= x <= y <= |s| && Front(p, s) == s[n..y]
      && (n == 0 || s[n - 1] == '\n') && '\n' !in s[n..y]
    ensures forall z :: 0 <= z <= |s| && Found(p, s, z) ==>
              FirstMatch(p, s, 0) <= z && (LastOnLine(p, s) < z ==> '\n' in s[FirstMatch(p, s, 0)..z])
  {
    var x, y := FirstMatch(p, s, 0), LastOnLine(p, s);
    NoBreakInFront(s, x, y);
    forall z | y < z <= |s| && Found(p, s, z) ensures '\n' in s[x..z] {
      BreakBefore(s, x, z);
    }
  }

  lemma NoBreakInFront(s: string, x: nat, y: nat)
    requires x <= |s| && x <= y <= LineEnd(s, x)
    ensures '\n' !in s[LineStart(s, x)..y]
  {
    var n, m := LineStart(s, x), LineEnd(s, x);
    assert s[n..y] == s[n..x] + s[x..y] && s[x..m] == s[x..y] + s[y..m];
  }

  lemma BreakBefore(s: string, x: nat, z: nat)
    requires x <= |s| && LineEnd(s, x) < z <= |s|
    ensures '\n' in s[x..z]
  {
    assert s[x..z][LineEnd(s, x) - x] == '\n';
  }

  /** The pieces of s around all these fronts. */
  function LinePieces(p: string, s: string): (pieces: seq<string>)
    requires Contains(p, s)
    ensures pieces != []
  {
    var n, y := LineStart(s, FirstMatch(p, s, 0)), LastOnLine(p, s);
    var e := MatchEnd(p, s, y);
    if y < e then Pieces(s[n..e], y - n, s) else [s]
  }

  function KiranPieces(s: string): (pieces: seq<string>)
    requires Contains(MULTI_WAY, s)
    ensures pieces != []
  {
    LinePieces(MULTI_WAY, s)
  }

  lemma StartsWithAuth(p: string, w: string)
    requires |p| > 5 && (forall m :: 0 <= m < 5 ==> p[m] == "auth~"[m]) && Matches(p, w)
    ensures "auth " <= w
  {
    assert p[0] == 'a' && p[1] == 'u' && p[2] == 't' && p[3] == 'h' && p[4] == '~';
    TokenAt(p, w, 0);
    TokenAt(p, w, 1);
    TokenAt(p, w, 2);
    TokenAt(p, w, 3);
    TokenAt(p, w, 4);
  }

  lemma MultiWayStartsWithAuth(s: string, y: nat)
    requires Found(MULTI_WAY, s, y)
    ensures y < MatchEnd(MULTI_WAY, s, y) && "auth " <= s[y..MatchEnd(MULTI_WAY, s, y)]
  {
    MultiWayIsWellSpaced();
    MultiWayHead();
    GreedyIsExact(MULTI_WAY, s, y, MatchEnd(MULTI_WAY, s, y));
    hide WellSpaced, Matches, MatchEnd;
    StartsWithAuth(MULTI_WAY, s[y..MatchEnd(MULTI_WAY, s, y)]);
  }

  lemma MultiWayHead()
    ensures |MULTI_WAY| > 5 && forall m :: 0 <= m < 5 ==> MULTI_WAY[m] == "auth~"[m]
  {
  }

  lemma CutBehind(l: string, d: nat, head: string, mark: string, s: string)
    requires d < |l| && head <= l[d..]
    ensures Exchanged(l, mark + l[d..], s) == Glued(Pieces(l, d, s), mark)
    ensures forall i :: 0 < i < |Pieces(l, d, s)| ==> head <= Pieces(l, d, s)[i]
  {
    ExchangedIsGlued(l, d, mark, s);
    LaterPiecesStart(l, d, s);
  }

  /** Marking a line cuts the text at the fronts and glues the pieces with the mark. */
  lemma MarkedIsGlued(p: string, s: string, mark: string, head: string)
    requires Contains(p, s)
    requires var y := LastOnLine(p, s); y < MatchEnd(p, s, y) && head <= s[y..MatchEnd(p, s, y)]
    ensures Marked(p, s, mark) == Rewritten(Glued(LinePieces(p, s), mark))
    ensures Glued(LinePieces(p, s), Front(p, s)) == s
    ensures forall i :: 0 < i < |LinePieces(p, s)| ==> head <= LinePieces(p, s)[i]
  {
    hide MatchEnd, Found, Exchanged, Pieces, Glued, LineStart, LastMatch, LineEnd;
    var n, y := LineStart(s, FirstMatch(p, s, 0)), LastOnLine(p, s);
    var e := MatchEnd(p, s, y);
    assert s[n..e][y - n..] == s[y..e] && s[n..e][..y - n] == s[n..y];
    CutBehind(s[n..e], y - n, head, mark, s);
    PiecesAreOf(s[n..e], y - n, s);
  }

  /** Rewriting fails exactly if the multi-way line is not there or no piece of the text
      holds the multi-factor line. */
  lemma SwitchedFails(s: string, mark: string, mark': string)
    requires mark == "" || mark == "#"
    ensures Switched(MULTI_WAY, MULTI_FACTOR, s, mark, mark') == Failed <==>
            !Contains(MULTI_WAY, s) || !InSomePiece(MULTI_FACTOR, KiranPieces(s), mark)
    ensures Switched(MULTI_WAY, MULTI_FACTOR, s, mark, mark') != Skipped
  {
    if Contains(MULTI_WAY, s) {
      MultiWayStartsWithAuth(s, LastOnLine(MULTI_WAY, s));
      MarkedIsGlued(MULTI_WAY, s, mark, "auth ");
      MultiFactorEndsInAuth();
      LeftInAPiece(MULTI_FACTOR, KiranPieces(s), mark);
    }
  }

  /** Enabling fails exactly if the text has no multi-way line, or, cut where the text before
      it stands, falls into pieces none of which holds a multi-factor line. */
  lemma EnableKiranFails(s: string)
    ensures EnableKiran(s) == Failed <==>
            !Contains(MULTI_WAY, s) || forall i :: 0 <= i < |KiranPieces(s)| ==>
              !Contains(MULTI_FACTOR, KiranPieces(s)[i])
    ensures !EnableKiran(s).Skipped?
  {
    SwitchedFails(s, "#", "");
    if Contains(MULTI_WAY, s) {
      MultiFactorEndsInAuth();
      HashPlaces(MULTI_FACTOR, KiranPieces(s));
    }
  }

  lemma PlainPlaces(pieces: seq<string>)
    ensures forall i :: 0 <= i < |pieces| ==>
              Place(pieces, "", i) == pieces[i] + if i == |pieces| - 1 then "" else "auth"
  {
  }

  /** Disabling fails in the same way, only that a piece in front of another may use the
      "auth" with which the other begins. */
  lemma DisableKiranFails(s: string)
    ensures DisableKiran(s) == Failed <==>
            !Contains(MULTI_WAY, s) || forall i :: 0 <= i < |KiranPieces(s)| ==>
              !Contains(MULTI_FACTOR, KiranPieces(s)[i] + if i == |KiranPieces(s)| - 1 then "" else "auth")
    ensures !DisableKiran(s).Skipped?
  {
    hide Contains, KiranPieces, Switched, MULTI_WAY, MULTI_FACTOR;
    SwitchedFails(s, "", "#");
    if Contains(MULTI_WAY, s) {
      PlainPlaces(KiranPieces(s));
    }
  }

  // ------------------------------------------------------------------ how long the new text is

  lemma {:induction false} GluedBytes(pieces: seq<string>, g: string, h: string)
    requires pieces != []
    ensures |Encoded(Glued(pieces, g))| + (|pieces| - 1) * |Encoded(h)|
         == |Encoded(Glued(pieces, h))| + (|pieces| - 1) * |Encoded(g)|
  {
    if |pieces| > 1 {
      var rest, n := pieces[1..], |pieces| - 2;
      GluedBytes(rest, g, h);
      GluedOnce(pieces, g);
      GluedOnce(pieces, h);
      OnceMore(n, |Encoded(g)|);
      OnceMore(n, |Encoded(h)|);
    }
  }

  lemma GluedOnce(pieces: seq<string>, g: string)
    requires |pieces| > 1
    ensures |Encoded(Glued(pieces, g))| == |Encoded(pieces[0])| + |Encoded(g)| + |Encoded(Glued(pieces[1..], g))|
  {
    EncodedAppend(pieces[0], g);
    EncodedAppend(pieces[0] + g, Glued(pieces[1..], g));
  }

  lemma OnceMore(n: nat, k: nat)
    ensures (n + 1) * k == n * k + k
  {
  }

  /** How often a line of p is marked. */
  function Fronts(p: string, s: string): nat
    requires Contains(p, s)
  {
    |LinePieces(p, s)| - 1
  }

  function Bytes(n: nat, text: string): nat {
    n * |Encoded(text)|
  }

  lemma MarkedBytes(p: string, s: string, mark: string)
    requires WithinLine(p) && Contains(p, s)
    ensures Marked(p, s, mark).Rewritten?
    ensures |Encoded(Marked(p, s, mark).text)| + Bytes(Fronts(p, s), Front(p, s))
         == |Encoded(s)| + Bytes(Fronts(p, s), mark)
  {
    hide WithinLine, Marked, MatchEnd, Found, LastOnLine, LinePieces, Front, Encoded;
    MatchWithinLine(p, s, LastOnLine(p, s));
    MarkedIsGlued(p, s, mark, "");
    GluedBytes(LinePieces(p, s), mark, Front(p, s));
  }

  /** What the two lines have in front of them takes no more bytes than what is put there; the
      second line is looked for after the first has been marked, in t. */
  ghost predicate FrontsFit(p: string, q: string, s: string, t: string, mp: string, mq: string)
    requires Contains(p, s) && Contains(q, t)
  {
    Bytes(Fronts(p, s), Front(p, s)) + Bytes(Fronts(q, t), Front(q, t))
    <= Bytes(Fronts(p, s), mp) + Bytes(Fronts(q, t), mq)
  }

  /** Writing over the file leaves exactly the new text if and only if the marks put in take
      at least the bytes that the fronts took, over both lines and as often as they stand. */
  lemma SwitchedWritesExactly(p: string, q: string, s: string, mp: string, mq: string)
    requires WithinLine(p) && WithinLine(q) && Switched(p, q, s, mp, mq).Rewritten?
    ensures Contains(p, s) && Marked(p, s, mp).Rewritten? && Contains(q, Marked(p, s, mp).text)
    ensures WritesExactly(s, Switched(p, q, s, mp, mq).text) <==>
            FrontsFit(p, q, s, Marked(p, s, mp).text, mp, mq)
  {
    hide WithinLine, Bytes, WritesExactly;
    assert Contains(p, s) && Contains(q, Marked(p, s, mp).text);
    hide Marked, Contains;
    MarkedBytes(p, s, mp);
    MarkedBytes(q, Marked(p, s, mp).text, mq);
    LongEnoughToCover(s, Switched(p, q, s, mp, mq).text);
  }

  lemma OneByteEach(n: nat)
    ensures Bytes(n, "#") == n && Bytes(n, "") == 0
  {
    HashIsOneByte();
  }

  /** For enabling: what stands in front of the lines may take as many bytes as there are
      multi-way lines to be commented out. */
  lemma EnableKiranWritesExactly(s: string)
    requires EnableKiran(s).Rewritten?
    ensures Contains(MULTI_WAY, s) && Marked(MULTI_WAY, s, "#").Rewritten?
    ensures Contains(MULTI_FACTOR, Marked(MULTI_WAY, s, "#").text)
    ensures var t := Marked(MULTI_WAY, s, "#").text;
      WritesExactly(s, EnableKiran(s).text) <==>
        Bytes(Fronts(MULTI_WAY, s), Front(MULTI_WAY, s)) + Bytes(Fronts(MULTI_FACTOR, t), Front(MULTI_FACTOR, t))
        <= Fronts(MULTI_WAY, s)
  {
    KiranPatternsAreWithinLine();
    hide WithinLine, Bytes, Fronts, Front, Marked, Switched, WritesExactly, Contains, MULTI_WAY, MULTI_FACTOR;
    SwitchedWritesExactly(MULTI_WAY, MULTI_FACTOR, s, "#", "");
    OneByteEach(Fronts(MULTI_WAY, s));
    OneByteEach(Fronts(MULTI_FACTOR, Marked(MULTI_WAY, s, "#").text));
  }

  /** For disabling: as there are multi-factor lines then. */
  lemma DisableKiranWritesExactly(s: string)
    requires DisableKiran(s).Rewritten?
    ensures Contains(MULTI_WAY, s) && Marked(MULTI_WAY, s, "").Rewritten?
    ensures Contains(MULTI_FACTOR, Marked(MULTI_WAY, s, "").text)
    ensures var t := Marked(MULTI_WAY, s, "").text;
      WritesExactly(s, DisableKiran(s).text) <==>
        Bytes(Fronts(MULTI_WAY, s), Front(MULTI_WAY, s)) + Bytes(Fronts(MULTI_FACTOR, t), Front(MULTI_FACTOR, t))
        <= Fronts(MULTI_FACTOR, t)
  {
    KiranPatternsAreWithinLine();
    hide WithinLine, Bytes, Fronts, Front, Marked, Switched, WritesExactly, Contains, MULTI_WAY, MULTI_FACTOR;
    SwitchedWritesExactly(MULTI_WAY, MULTI_FACTOR, s, "", "#");
    OneByteEach(Fronts(MULTI_WAY, s));
    OneByteEach(Fronts(MULTI_FACTOR, Marked(MULTI_WAY, s, "").text));
  }
}
