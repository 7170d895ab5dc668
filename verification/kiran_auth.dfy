/** The kiran-authentication-service half of switching multi-factor authentication
    (enableMultiFactorAuthState and disableMultiFactorAuthState in
    src/daemon/account/manager.cpp): one of two lines is a comment. */
module KiranAuth {
  import opened Patterns
  import opened Rewriting
  import opened Cutting
  import opened TextEncoding

  const DOAUTH := "~pam_kiran_authentication?so~doauth"

  /** The two ways of authenticating, one of which is commented out. */
  const MULTI_WAY := "auth~[success=done ignore=2 " + "default=bad authinfo_unavail=die]" + DOAUTH
  const MULTI_FACTOR := "auth~[success=2 default=bad]" + DOAUTH

  lemma MultiWayIsWellSpaced()
    ensures WellSpaced(MULTI_WAY)
  {
    var way, bad := "auth~[success=done ignore=2 ", "default=bad authinfo_unavail=die]";
    BlankAt(way, 4, 4);
    assert '~' !in bad;
    WellSpacedInParts(way, bad);
    BlankAt(DOAUTH, 0, 28);
    WellSpacedInParts(way + bad, DOAUTH);
  }

  lemma MultiFactorIsWellSpaced()
    ensures WellSpaced(MULTI_FACTOR)
  {
    BlankAt("auth~[success=2 default=bad]", 4, 4);
    BlankAt(DOAUTH, 0, 28);
    WellSpacedInParts("auth~[success=2 default=bad]", DOAUTH);
  }

  // --------------------------------------------------------- kiran-authentication-service

  function LineStart(s: string, i: nat): (n: nat)
    requires i <= |s|
    ensures n <= i && (n == 0 || s[n - 1] == '\n') && '\n' !in s[n..i]
  {
    if i == 0 || s[i - 1] == '\n' then i
    else
      var n := LineStart(s, i - 1);
      assert s[n..i] == s[n..i - 1] + [s[i - 1]];
      n
  }

  function LineEnd(s: string, i: nat): (n: nat)
    requires i <= |s|
    ensures i <= n <= |s| && '\n' !in s[i..n] && (n < |s| ==> s[n] == '\n')
    decreases |s| - i
  {
    if i == |s| || s[i] == '\n' then i
    else
      var n := LineEnd(s, i + 1);
      assert s[i..n] == [s[i]] + s[i + 1..n];
      n
  }

  /** The last match that starts between x and i. */
  function LastMatch(p: string, s: string, x: nat, i: nat): (y: nat)
    requires x <= i <= |s| && Found(p, s, x)
    ensures x <= y <= i && Found(p, s, y) && forall z :: y < z <= i ==> !Found(p, s, z)
    decreases i - x
  {
    if Found(p, s, i) then i else LastMatch(p, s, x, i - 1)
  }

  /** `(.*)(p)` takes the first line with a match, up to the last match in it; wherever that
      text stands, what is before the match gives way to `mark`. */
  function Marked(p: string, s: string, mark: string): Outcome {
    var x := FirstMatch(p, s, 0);
    if x == -1 then Failed
    else
      var y := LastMatch(p, s, x, LineEnd(s, x));
      var n, e := LineStart(s, x), MatchEnd(p, s, y);
      Rewritten(if n < e then Exchanged(s[n..e], mark + s[y..e], s) else s)
  }

  /** First the line of p is marked, then the line of q. */
  function Switched(p: string, q: string, s: string, markP: string, markQ: string): Outcome {
    match Marked(p, s, markP)
    case Rewritten(t) => Marked(q, t, markQ)
    case other => other
  }

  /** The kiran-authentication-service half of enabling: the multi-way line becomes a comment,
      the multi-factor line stops being one. */
  function EnableKiran(s: string): Outcome {
    Switched(MULTI_WAY, MULTI_FACTOR, s, "#", "")
  }

  function DisableKiran(s: string): Outcome {
    Switched(MULTI_WAY, MULTI_FACTOR, s, "", "#")
  }

  /** A file after seek(0) and write: nothing is cut off its end. */
  function WrittenOver(file: seq<byte>, written: seq<byte>): seq<byte> {
    if |written| < |file| then written + file[|written|..] else written
  }

  /** What is written stands at the start, and the file as it was behind it. */
  lemma WrittenOverMeans(file: seq<byte>, written: seq<byte>)
    ensures var after := WrittenOver(file, written);
      && written <= after && |after| == (if |written| < |file| then |file| else |written|)
      && forall k :: |written| <= k < |after| ==> after[k] == file[k]
  {
  }

  /** Writing the text over the file leaves exactly that text in it. */
  ghost predicate WritesExactly(file: string, text: string) {
    WrittenOver(Encoded(file), Encoded(text)) == Encoded(text)
  }

  lemma LongEnoughToCover(file: string, text: string)
    ensures WritesExactly(file, text) <==> |Encoded(text)| >= |Encoded(file)|
  {
  }

  lemma MarkedLetters(p: string, s: string, mark: string, c: char)
    requires c !in s && c !in mark && Marked(p, s, mark).Rewritten?
    ensures c !in Marked(p, s, mark).text
  {
    var x := FirstMatch(p, s, 0);
    var y := LastMatch(p, s, x, LineEnd(s, x));
    var n, e := LineStart(s, x), MatchEnd(p, s, y);
    if n < e {
      ExchangedLetters(s[n..e], mark + s[y..e], s, c);
    }
  }

  /** No other character comes in than the '#'. */
  lemma SwitchedLetters(p: string, q: string, s: string, mp: string, mq: string, c: char)
    requires c !in s && c !in mp && c !in mq && Switched(p, q, s, mp, mq).Rewritten?
    ensures c !in Switched(p, q, s, mp, mq).text
  {
    hide Marked;
    MarkedLetters(p, s, mp, c);
    MarkedLetters(q, Marked(p, s, mp).text, mq, c);
  }

  lemma {:induction false} LineStartIs(s: string, n: nat, i: nat)
    requires n <= i <= |s| && (n == 0 || s[n - 1] == '\n') && '\n' !in s[n..i]
    ensures LineStart(s, i) == n
    decreases i
  {
    if n < i {
      assert s[n..i][i - 1 - n] != '\n';
      assert s[n..i] == s[n..i - 1] + [s[i - 1]];
      LineStartIs(s, n, i - 1);
    }
  }

  /** Where the text of the one match stands, with what is before it, there is the match. */
  lemma LineStandsOnce(p: string, s: string, u: nat, n: nat, x: nat)
    requires WellSpaced(p) && Unique(p, s, u) && n <= u
    requires var line := s[n..MatchEnd(p, s, u)]; x + |line| <= |s| && s[x..x + |line|] == line
    ensures x == n
  {
    hide MatchEnd, WellSpaced;
    var e := MatchEnd(p, s, u);
    var line, d := s[n..e], u - n;
    SliceOfSlice(s, x, x + |line|, d);
    SliceOfSlice(s, n, e, d);
    Relocate(p, s, u, s, x + d);
  }

  lemma SliceOfSlice(s: string, i: nat, j: nat, d: nat)
    requires i + d <= j <= |s|
    ensures s[i..j][d..] == s[i + d..j]
  {
  }

  lemma SliceOfTail(a: string, x: string, b: string, i: nat, j: nat)
    requires i <= j <= |b|
    ensures (a + x + b)[|a| + |x| + i..|a| + |x| + j] == b[i..j]
  {
  }

  lemma LineIsReplaced(p: string, s: string, u: nat, n: nat, mark: string)
    requires WellSpaced(p) && Unique(p, s, u) && n <= u < MatchEnd(p, s, u)
    ensures var e := MatchEnd(p, s, u);
      Exchanged(s[n..e], mark + s[u..e], s) == s[..n] + (mark + s[u..e]) + s[e..]
  {
    var e := MatchEnd(p, s, u);
    forall x | 0 <= x <= |s| && Stands(s[n..e], s, x) ensures x == n {
      LineStandsOnce(p, s, u, n, x);
    }
    OnceExchanged(s[n..e], mark + s[u..e], s, n);
  }

  lemma MarkInFront(s: string, n: nat, u: nat, e: nat, mark: string)
    requires n <= u <= e <= |s|
    ensures s[..n] + (mark + s[u..e]) + s[e..] == s[..n] + mark + s[u..]
  {
  }

  /** With one match in the text, the line is rewritten in just that place. */
  lemma UniqueIsMarked(p: string, s: string, u: nat, mark: string)
    requires WellSpaced(p) && Unique(p, s, u) && MatchEnd(p, s, u) > u
    ensures Marked(p, s, mark) == Rewritten(s[..LineStart(s, u)] + mark + s[u..])
  {
    UniqueIsFirst(p, s, u);
    LineIsReplaced(p, s, u, LineStart(s, u), mark);
    MarkInFront(s, LineStart(s, u), u, MatchEnd(p, s, u), mark);
  }

  // ------------------------------------------------- two marked lines, one of each pattern

  ghost predicate EndsLine(a: string) { a == "" || a[|a| - 1] == '\n' }

  /** A pattern for text within a line that starts with an ordinary letter. */
  ghost predicate WithinLine(p: string) {
    WellSpaced(p) && '\n' !in p && p != "" && IsPlain(p[0]) && p[0] != '#'
  }

  lemma MatchWithinLine(p: string, s: string, x: nat)
    requires WithinLine(p) && Found(p, s, x)
    ensures '\n' !in s[x..MatchEnd(p, s, x)] && x < MatchEnd(p, s, x) && s[x] == p[0]
  {
    var e := MatchEnd(p, s, x);
    GreedyIsExact(p, s, x, e);
    NoNewlineInWord(p, s[x..e]);
    TokenAt(p, s[x..e], 0);
  }

  /** A match in A + X + B outside X is found again in A + Y + B. */
  lemma MatchCarries(p: string, a: string, x: string, y: string, b: string, u: nat)
    requires WithinLine(p) && EndsLine(a) && Found(p, a + x + b, u) && (u < |a| || |a| + |x| <= u)
    ensures Found(p, a + y + b, if u < |a| then u else u - |x| + |y|)
  {
    hide MatchEnd, WellSpaced;
    var s, t := a + x + b, a + y + b;
    var e := MatchEnd(p, s, u);
    MatchWithinLine(p, s, u);
    if u < |a| {
      if e >= |a| {
        InSlice(s, u, e, |a| - 1);
        assert false;
      }
      assert t[u..e] == s[u..e];
      Relocate(p, s, u, t, u);
    } else {
      var n := |a| + |x|;
      SliceOfTail(a, x, b, u - n, e - n);
      SliceOfTail(a, y, b, u - n, e - n);
      Relocate(p, s, u, t, u - |x| + |y|);
    }
  }

  lemma OnlyAHash(a: string, y: string, b: string, v: nat)
    requires |a| <= v < |a| + |y| && (y == "" || y == "#")
    ensures (a + y + b)[v] == '#'
  {
  }

  /** Changing the mark of one line moves the one match of p, and makes no other. */
  lemma UniqueCarries(p: string, a: string, x: string, y: string, b: string, u: nat)
    requires WithinLine(p) && EndsLine(a) && Unique(p, a + x + b, u) && (u < |a| || |a| + |x| <= u)
    requires y == "" || y == "#"
    ensures Unique(p, a + y + b, if u < |a| then u else u - |x| + |y|)
  {
    var t := a + y + b;
    MatchCarries(p, a, x, y, b, u);
    forall v | 0 <= v <= |t| && Found(p, t, v) ensures v == if u < |a| then u else u - |x| + |y| {
      MatchWithinLine(p, t, v);
      if |a| <= v < |a| + |y| {
        OnlyAHash(a, y, b, v);
        assert false;
      }
      MatchCarries(p, a, y, x, b, v);
    }
  }

  function Five(a: string, x: string, m: string, y: string, b: string): string {
    a + x + m + y + b
  }

  /** Two lines with the marks x and y in front of the one match of p and the one of q. */
  ghost predicate Placed(p: string, q: string, a: string, x: string, m: string, y: string, b: string) {
    && WithinLine(p) && WithinLine(q) && EndsLine(a) && m != "" && EndsLine(m)
    && '\n' !in x && '\n' !in y
    && Unique(p, Five(a, x, m, y, b), |a| + |x|)
    && Unique(q, Five(a, x, m, y, b), |a| + |x| + |m| + |y|)
  }

  /** The mark of a line whose pattern matches once is replaced, and nothing else. */
  lemma MarkedAt(p: string, a: string, x: string, rest: string, mark: string)
    requires WithinLine(p) && EndsLine(a) && '\n' !in x && Unique(p, a + x + rest, |a| + |x|)
    ensures Marked(p, a + x + rest, mark) == Rewritten(a + mark + rest)
  {
    hide WellSpaced, MatchEnd, Marked;
    var s, u := a + x + rest, |a| + |x|;
    MatchWithinLine(p, s, u);
    UniqueIsMarked(p, s, u, mark);
    assert s[|a|..u] == x;
    LineStartIs(s, |a|, u);
    assert s[..|a|] == a && s[u..] == rest;
  }

  lemma Grouped(a: string, x: string, m: string, y: string, b: string)
    ensures Five(a, x, m, y, b) == a + x + (m + y + b)
    ensures Five(a, x, m, y, b) == (a + x + m) + y + b
  {
  }

  lemma FirstMarkMoves(p: string, a: string, x: string, m: string, y: string, b: string, mark: string, u: nat)
    requires WithinLine(p) && EndsLine(a) && Unique(p, Five(a, x, m, y, b), u) && |a| + |x| <= u
    requires mark == "" || mark == "#"
    ensures Unique(p, Five(a, mark, m, y, b), u - |x| + |mark|)
  {
    Grouped(a, x, m, y, b);
    Grouped(a, mark, m, y, b);
    UniqueCarries(p, a, x, mark, m + y + b, u);
  }

  lemma SecondMarkMoves(p: string, a: string, x: string, m: string, y: string, b: string, mark: string, u: nat)
    requires WithinLine(p) && EndsLine(a + x + m) && Unique(p, Five(a, x, m, y, b), u)
    requires u < |a + x + m| || |a + x + m| + |y| <= u
    requires mark == "" || mark == "#"
    ensures Unique(p, Five(a, x, m, mark, b), if u < |a + x + m| then u else u - |y| + |mark|)
  {
    UniqueCarries(p, a + x + m, y, mark, b, u);
  }

  lemma FirstMarkPlaced(p: string, q: string, a: string, x: string, m: string, y: string, b: string, mark: string)
    requires Placed(p, q, a, x, m, y, b) && (mark == "" || mark == "#")
    ensures Placed(p, q, a, mark, m, y, b)
  {
    FirstMarkMoves(p, a, x, m, y, b, mark, |a| + |x|);
    FirstMarkMoves(q, a, x, m, y, b, mark, |a| + |x| + |m| + |y|);
  }

  lemma SecondMarkPlaced(p: string, q: string, a: string, x: string, m: string, y: string, b: string, mark: string)
    requires Placed(p, q, a, x, m, y, b) && (mark == "" || mark == "#")
    ensures Placed(p, q, a, x, m, mark, b)
  {
    SecondMarkMoves(p, a, x, m, y, b, mark, |a| + |x|);
    SecondMarkMoves(q, a, x, m, y, b, mark, |a| + |x| + |m| + |y|);
  }

  lemma FirstMarked(p: string, a: string, x: string, m: string, y: string, b: string, mark: string)
    requires WithinLine(p) && EndsLine(a) && '\n' !in x && Unique(p, Five(a, x, m, y, b), |a| + |x|)
    ensures Marked(p, Five(a, x, m, y, b), mark) == Rewritten(Five(a, mark, m, y, b))
  {
    Grouped(a, x, m, y, b);
    Grouped(a, mark, m, y, b);
    MarkedAt(p, a, x, m + y + b, mark);
  }

  lemma SecondMarked(p: string, a: string, x: string, m: string, y: string, b: string, mark: string)
    requires WithinLine(p) && EndsLine(a + x + m) && '\n' !in y && Unique(p, Five(a, x, m, y, b), |a + x + m| + |y|)
    ensures Marked(p, Five(a, x, m, y, b), mark) == Rewritten(Five(a, x, m, mark, b))
  {
    MarkedAt(p, a + x + m, y, b, mark);
  }

  /** Two such texts with the same lines are the same exactly if the marks are. */
  lemma SameMarks(p: string, q: string, a: string, x: string, m: string, y: string, b: string, x': string, y': string)
    requires Placed(p, q, a, x, m, y, b) && Placed(p, q, a, x', m, y', b)
    ensures Five(a, x, m, y, b) == Five(a, x', m, y', b) <==> x == x' && y == y'
  {
    var s, s' := Five(a, x, m, y, b), Five(a, x', m, y', b);
    if s == s' {
      assert |a| + |x| == |a| + |x'|;
      assert s[|a|..|a| + |x|] == x && s'[|a|..|a| + |x|] == x';
      var n := |a| + |x| + |m|;
      assert s[n..n + |y|] == y && s'[n..n + |y|] == y';
    }
  }

  lemma KiranPatternsAreWithinLine()
    ensures WithinLine(MULTI_WAY) && WithinLine(MULTI_FACTOR)
  {
    hide WellSpaced;
    MultiWayIsWellSpaced();
    MultiFactorIsWellSpaced();
    assert '\n' !in "auth~[success=done ignore=2 " && '\n' !in "default=bad authinfo_unavail=die]";
    assert '\n' !in "auth~[success=2 default=bad]" && '\n' !in DOAUTH;
  }

  lemma BothMarksPlaced(
      p: string, q: string, a: string, x: string, m: string, y: string, b: string, x': string, y': string)
    requires Placed(p, q, a, x, m, y, b) && (x' == "" || x' == "#") && (y' == "" || y' == "#")
    ensures Placed(p, q, a, x', m, y', b)
  {
    FirstMarkPlaced(p, q, a, x, m, y, b, x');
    SecondMarkPlaced(p, q, a, x', m, y, b, y');
  }

  lemma FirstOfTwoMarked(p: string, q: string, a: string, x: string, m: string, y: string, b: string, mark: string)
    requires Placed(p, q, a, x, m, y, b)
    ensures Marked(p, Five(a, x, m, y, b), mark) == Rewritten(Five(a, mark, m, y, b))
  {
    FirstMarked(p, a, x, m, y, b, mark);
  }

  lemma SecondOfTwoMarked(p: string, q: string, a: string, x: string, m: string, y: string, b: string, mark: string)
    requires Placed(p, q, a, x, m, y, b)
    ensures Marked(q, Five(a, x, m, y, b), mark) == Rewritten(Five(a, x, m, mark, b))
  {
    SecondMarked(q, a, x, m, y, b, mark);
  }

  lemma SwitchedInSteps(p: string, q: string, s: string, t: string, u: string, mp: string, mq: string)
    requires Marked(p, s, mp) == Rewritten(t) && Marked(q, t, mq) == Rewritten(u)
    ensures Switched(p, q, s, mp, mq) == Rewritten(u)
  {
  }

  /** What switching makes of the two lines when p's comes first. */
  lemma SwitchedInOrder(
      p: string, q: string, a: string, x: string, m: string, y: string, b: string, mp: string, mq: string)
    requires Placed(p, q, a, x, m, y, b) && (mp == "" || mp == "#")
    ensures Switched(p, q, Five(a, x, m, y, b), mp, mq) == Rewritten(Five(a, mp, m, mq, b))
  {
    FirstOfTwoMarked(p, q, a, x, m, y, b, mp);
    FirstMarkPlaced(p, q, a, x, m, y, b, mp);
    SecondOfTwoMarked(p, q, a, mp, m, y, b, mq);
    SwitchedInSteps(p, q, Five(a, x, m, y, b), Five(a, mp, m, y, b), Five(a, mp, m, mq, b), mp, mq);
  }

  /** And when q's comes first. */
  lemma SwitchedInReverse(
      p: string, q: string, a: string, x: string, m: string, y: string, b: string, mp: string, mq: string)
    requires Placed(q, p, a, x, m, y, b) && (mp == "" || mp == "#")
    ensures Switched(p, q, Five(a, x, m, y, b), mp, mq) == Rewritten(Five(a, mq, m, mp, b))
  {
    SecondOfTwoMarked(q, p, a, x, m, y, b, mp);
    SecondMarkPlaced(q, p, a, x, m, y, b, mp);
    FirstOfTwoMarked(q, p, a, x, m, mp, b, mq);
    SwitchedInSteps(p, q, Five(a, x, m, y, b), Five(a, x, m, mp, b), Five(a, mq, m, mp, b), mp, mq);
  }

  /** The text between the start of the line and position i: "#" for a comment. */
  function Mark(s: string, i: nat): string
    requires i <= |s|
  {
    s[LineStart(s, i)..i]
  }

  lemma LinesApart(s: string, i: nat, j: nat)
    requires i < j <= |s|
    ensures LineStart(s, i) == LineStart(s, j) || i < LineStart(s, j)
  {
    var k := LineStart(s, j);
    if k <= i {
      assert s[k..j][..i - k] == s[k..i];
      LineStartIs(s, k, i);
    }
  }

  lemma CutInFive(s: string, n: nat, i: nat, k: nat, j: nat)
    requires n <= i <= k <= j <= |s|
    ensures s == Five(s[..n], s[n..i], s[i..k], s[k..j], s[j..])
  {
    SlicesJoin(s, n, i);
    SlicesJoin(s, i, k);
    SlicesJoin(s, k, j);
    assert s == s[..j] + s[j..];
  }

  lemma SlicesJoin(s: string, i: nat, j: nat)
    requires i <= j <= |s|
    ensures s[..i] + s[i..j] == s[..j]
  {
  }

  lemma Decomposed(p: string, q: string, s: string, i: nat, j: nat)
    requires WithinLine(p) && WithinLine(q) && Unique(p, s, i) && Unique(q, s, j)
    requires i < j && LineStart(s, i) != LineStart(s, j)
    ensures var n, k := LineStart(s, i), LineStart(s, j);
      && i < k && s == Five(s[..n], s[n..i], s[i..k], s[k..j], s[j..])
      && Placed(p, q, s[..n], s[n..i], s[i..k], s[k..j], s[j..])
  {
    hide WellSpaced, WithinLine, Five, MatchEnd;
    var n, k := LineStart(s, i), LineStart(s, j);
    LinesApart(s, i, j);
    CutInFive(s, n, i, k, j);
    assert s[..n] == "" || s[..n][n - 1] == '\n';
    assert s[i..k] != "" && s[i..k][k - i - 1] == '\n';
  }

  /** The conditions under which a kiran-authentication-service file is looked at here: one
      match of each pattern, on lines of their own. */
  ghost predicate OneOfEach(s: string, i: nat, j: nat) {
    Unique(MULTI_WAY, s, i) && Unique(MULTI_FACTOR, s, j) && LineStart(s, i) != LineStart(s, j)
  }

  /** How many bytes the two marks take. */
  function MarkBytes(s: string, i: nat, j: nat): nat
    requires i <= |s| && j <= |s|
  {
    |Encoded(Mark(s, i))| + |Encoded(Mark(s, j))|
  }

  /** Switching the marks one way gives `there`, switching them back gives `again`. */
  ghost predicate ThereAndBack(p: string, q: string, s: string, i: nat, j: nat, mp: string, mq: string,
                               there: string, again: string)
    requires i <= |s| && j <= |s|
  {
    && Switched(p, q, s, mp, mq) == Rewritten(there)
    && Switched(p, q, there, mq, mp) == Rewritten(again)
    && |Encoded(there)| + MarkBytes(s, i, j) == |Encoded(s)| + |Encoded(mp)| + |Encoded(mq)|
    && |Encoded(again)| == |Encoded(there)|
    && (again == s <==> Mark(s, i) == mq && Mark(s, j) == mp)
  }

  lemma BackInOrder(p: string, q: string, s: string, i: nat, j: nat, mp: string, mq: string)
    returns (there: string, again: string)
    requires WithinLine(p) && WithinLine(q) && Unique(p, s, i) && Unique(q, s, j)
    requires i < j && LineStart(s, i) != LineStart(s, j)
    requires (mp == "" || mp == "#") && (mq == "" || mq == "#")
    ensures ThereAndBack(p, q, s, i, j, mp, mq, there, again)
  {
    Decomposed(p, q, s, i, j);
    var a, x, m, y, b := s[..LineStart(s, i)], Mark(s, i), s[i..LineStart(s, j)], Mark(s, j), s[j..];
    there, again := Five(a, mp, m, mq, b), Five(a, mq, m, mp, b);
    SwitchedInOrder(p, q, a, x, m, y, b, mp, mq);
    BothMarksPlaced(p, q, a, x, m, y, b, mp, mq);
    SwitchedInOrder(p, q, a, mp, m, mq, b, mq, mp);
    BothMarksPlaced(p, q, a, x, m, y, b, mq, mp);
    SameMarks(p, q, a, x, m, y, b, mq, mp);
    FiveBytes(a, x, m, y, b);
    FiveBytes(a, mp, m, mq, b);
    FiveBytes(a, mq, m, mp, b);
  }

  lemma BackInReverse(p: string, q: string, s: string, i: nat, j: nat, mp: string, mq: string)
    returns (there: string, again: string)
    requires WithinLine(p) && WithinLine(q) && Unique(p, s, i) && Unique(q, s, j)
    requires j < i && LineStart(s, i) != LineStart(s, j)
    requires (mp == "" || mp == "#") && (mq == "" || mq == "#")
    ensures ThereAndBack(p, q, s, i, j, mp, mq, there, again)
  {
    Decomposed(q, p, s, j, i);
    var a, x, m, y, b := s[..LineStart(s, j)], Mark(s, j), s[j..LineStart(s, i)], Mark(s, i), s[i..];
    there, again := Five(a, mq, m, mp, b), Five(a, mp, m, mq, b);
    SwitchedInReverse(p, q, a, x, m, y, b, mp, mq);
    BothMarksPlaced(q, p, a, x, m, y, b, mq, mp);
    SwitchedInReverse(p, q, a, mq, m, mp, b, mq, mp);
    BothMarksPlaced(q, p, a, x, m, y, b, mp, mq);
    SameMarks(q, p, a, x, m, y, b, mp, mq);
    FiveBytes(a, x, m, y, b);
    FiveBytes(a, mq, m, mp, b);
    FiveBytes(a, mp, m, mq, b);
  }

  lemma FiveBytes(a: string, x: string, m: string, y: string, b: string)
    ensures |Encoded(Five(a, x, m, y, b))|
         == |Encoded(a)| + |Encoded(x)| + |Encoded(m)| + |Encoded(y)| + |Encoded(b)|
  {
    EncodedAppend(a, x);
    EncodedAppend(a + x, m);
    EncodedAppend(a + x + m, y);
    EncodedAppend(a + x + m + y, b);
  }

  lemma HashIsOneByte()
    ensures |Encoded("#")| == 1 && |Encoded("")| == 0
  {
    assert "#"[1..] == "";
    assert Encoded("#") == Utf8('#') + Encoded("");
  }

  lemma Back(p: string, q: string, s: string, i: nat, j: nat, mp: string, mq: string)
    returns (there: string, again: string)
    requires WithinLine(p) && WithinLine(q) && Unique(p, s, i) && Unique(q, s, j)
    requires LineStart(s, i) != LineStart(s, j)
    requires (mp == "" || mp == "#") && (mq == "" || mq == "#")
    ensures ThereAndBack(p, q, s, i, j, mp, mq, there, again)
  {
    if i < j {
      there, again := BackInOrder(p, q, s, i, j, mp, mq);
    } else {
      there, again := BackInReverse(p, q, s, i, j, mp, mq);
    }
  }

  /** With one match of each pattern on lines of their own, whatever stands before them,
      enabling and then disabling succeeds, and gives the text back exactly if the multi-way
      line was plain and the multi-factor line commented with a single '#'. Writing the first
      new text over the file is right exactly if the marks found take at most one byte, that
      of the '#' put in; writing the second over the first always is. */
  lemma EnableThenDisable(s: string, i: nat, j: nat) returns (on: string, off: string)
    requires OneOfEach(s, i, j)
    ensures EnableKiran(s) == Rewritten(on) && DisableKiran(on) == Rewritten(off)
    ensures off == s <==> Mark(s, i) == "" && Mark(s, j) == "#"
    ensures WritesExactly(s, on) <==> MarkBytes(s, i, j) <= 1
    ensures WritesExactly(on, off)
  {
    KiranPatternsAreWithinLine();
    on, off := Back(MULTI_WAY, MULTI_FACTOR, s, i, j, "#", "");
    HashIsOneByte();
    LongEnoughToCover(s, on);
    LongEnoughToCover(on, off);
  }

  /** The other way round it is the multi-factor line that must have been plain. */
  lemma DisableThenEnable(s: string, i: nat, j: nat) returns (off: string, on: string)
    requires OneOfEach(s, i, j)
    ensures DisableKiran(s) == Rewritten(off) && EnableKiran(off) == Rewritten(on)
    ensures on == s <==> Mark(s, i) == "#" && Mark(s, j) == ""
    ensures WritesExactly(s, off) <==> MarkBytes(s, i, j) <= 1
    ensures WritesExactly(off, on)
  {
    KiranPatternsAreWithinLine();
    off, on := Back(MULTI_WAY, MULTI_FACTOR, s, i, j, "", "#");
    HashIsOneByte();
    LongEnoughToCover(s, off);
    LongEnoughToCover(off, on);
  }
}
