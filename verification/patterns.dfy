/** The part of regular expressions that the PAM rewriting in
    src/daemon/account/manager.cpp uses: matching, searching and replacing. */
module Patterns {

  /** A pattern is text in which '~' stands for `[ ]+`, '?' for `.`, and every other character
      for itself. After a '~' comes a character that is not a blank. */
  predicate WellSpaced(p: string) {
    forall k :: 0 <= k < |p| && p[k] == '~' ==> k + 1 < |p| && IsPlain(p[k + 1])
  }

  predicate IsPlain(c: char) { c != ' ' && c != '~' && c != '?' }

  predicate TokenFits(token: char, c: char) {
    if token == '~' then c == ' ' else if token == '?' then c != '\n' else c == token
  }

  /** The words a pattern stands for. */
  ghost predicate Matches(p: string, w: string)
    decreases |w|
  {
    if p == "" || w == "" then p == w
    else
      && TokenFits(p[0], w[0])
      && (Matches(p[1..], w[1..]) || (p[0] == '~' && Matches(p, w[1..])))
  }

  function SkipBlanks(s: string, i: nat): (j: nat)
    requires i <= |s|
    ensures i <= j <= |s| && (j < |s| ==> s[j] != ' ') && forall k :: i <= k < j ==> s[k] == ' '
    decreases |s| - i
  {
    if i < |s| && s[i] == ' ' then SkipBlanks(s, i + 1) else i
  }

  /** Where the match of p that starts at position i of s ends, or -1. Blanks are taken
      greedily, and never given back. */
  function MatchEnd(p: string, s: string, i: nat): (e: int)
    requires i <= |s|
    ensures e == -1 || i <= e <= |s|
    decreases |p|
  {
    if p == "" then i
    else if i == |s| || !TokenFits(p[0], s[i]) then -1
    else if p[0] == '~' then MatchEnd(p[1..], s, SkipBlanks(s, i))
    else MatchEnd(p[1..], s, i + 1)
  }

  predicate Found(p: string, s: string, i: nat) {
    i <= |s| && MatchEnd(p, s, i) >= 0
  }

  // -------------------------------------------------------------- words and their matching

  lemma WellSpacedTail(p: string)
    requires p != "" && WellSpaced(p)
    ensures WellSpaced(p[1..])
  {
    forall k | 0 <= k < |p[1..]| && p[1..][k] == '~' ensures k + 1 < |p[1..]| && IsPlain(p[1..][k + 1]) {
      assert p[k + 1] == '~';
    }
  }

  lemma {:induction false} BlanksBefore(p: string, n: nat, w: string)
    requires p != "" && p[0] == '~' && n > 0 && Matches(p[1..], w)
    ensures Matches(p, seq(n, _ => ' ') + w)
  {
    var all := seq(n, _ => ' ') + w;
    assert all[1..] == seq(n - 1, _ => ' ') + w;
    if n == 1 {
      assert all[1..] == w;
    } else {
      BlanksBefore(p, n - 1, w);
    }
  }

  /** The blanks a '~' takes are all there are. */
  lemma {:induction false} BlanksTaken(p: string, w: string) returns (n: nat)
    requires WellSpaced(p) && p != "" && p[0] == '~' && Matches(p, w)
    ensures 0 < n < |w| && w[n] != ' ' && Matches(p[1..], w[n..]) && forall k :: 0 <= k < n ==> w[k] == ' '
    decreases |w|
  {
    if Matches(p[1..], w[1..]) {
      n := 1;
      assert IsPlain(p[1]);
    } else {
      n := BlanksTaken(p, w[1..]);
      n := n + 1;
      assert w[n..] == w[1..][n - 1..] && w[n] == w[1..][n - 1];
      assert forall k :: 0 < k < n ==> w[k] == w[1..][k - 1];
    }
  }

  /** A pattern that starts with '~' matches a text exactly if, after all the blanks the text
      starts with, the rest of the pattern matches. */
  lemma BlanksFirst(p: string, s: string, i: nat, e: nat)
    requires WellSpaced(p) && p != "" && p[0] == '~' && i < |s| && s[i] == ' ' && i <= e <= |s|
    ensures var j := SkipBlanks(s, i);
      Matches(p, s[i..e]) <==> j <= e && Matches(p[1..], s[j..e])
  {
    var w, j := s[i..e], SkipBlanks(s, i);
    if j <= e && Matches(p[1..], s[j..e]) {
      BlanksBefore(p, j - i, s[j..e]);
      assert w == seq(j - i, _ => ' ') + s[j..e];
    }
    if Matches(p, w) {
      var n := BlanksTaken(p, w);
      assert s[i + n] == w[n];
      assert forall k :: i <= k < i + n ==> s[k] == w[k - i];
      assert j == i + n;
      assert w[n..] == s[j..e];
    }
  }

  /** Greedy matching finds exactly the words of the pattern. */
  lemma {:induction false} GreedyIsExact(p: string, s: string, i: nat, e: nat)
    requires WellSpaced(p) && i <= e <= |s|
    ensures MatchEnd(p, s, i) == e <==> Matches(p, s[i..e])
    decreases |p|
  {
    if p != "" && i < |s| && TokenFits(p[0], s[i]) {
      WellSpacedTail(p);
      if p[0] == '~' {
        BlanksFirst(p, s, i, e);
        var j := SkipBlanks(s, i);
        if j <= e {
          GreedyIsExact(p[1..], s, j, e);
        }
      } else if i < e {
        GreedyIsExact(p[1..], s, i + 1, e);
        assert s[i..e][1..] == s[i + 1..e];
      }
    }
  }

  /** A match is found wherever the same word stands. */
  lemma Relocate(p: string, s: string, x: nat, t: string, y: nat)
    requires WellSpaced(p) && Found(p, s, x)
    requires y + (MatchEnd(p, s, x) - x) <= |t| && t[y..y + (MatchEnd(p, s, x) - x)] == s[x..MatchEnd(p, s, x)]
    ensures Found(p, t, y) && MatchEnd(p, t, y) == y + (MatchEnd(p, s, x) - x)
  {
    var e := MatchEnd(p, s, x);
    GreedyIsExact(p, s, x, e);
    GreedyIsExact(p, t, y, y + (e - x));
  }

  lemma {:induction false} TokenAt(p: string, w: string, k: nat)
    requires Matches(p, w) && k < |p| && forall m :: 0 <= m < k ==> p[m] != '~'
    ensures k < |w| && TokenFits(p[k], w[k])
    decreases k
  {
    if k > 0 {
      assert p[0] != '~';
      forall m | 0 <= m < k - 1 ensures p[1..][m] != '~' {
        assert p[1..][m] == p[m + 1];
      }
      TokenAt(p[1..], w[1..], k - 1);
    }
  }

  lemma {:induction false} NoNewlineInWord(p: string, w: string)
    requires Matches(p, w) && '\n' !in p
    ensures '\n' !in w
    decreases |w|
  {
    if p != "" && w != "" {
      assert p[0] != '\n' && w[0] != '\n';
      assert w == [w[0]] + w[1..];
      if Matches(p[1..], w[1..]) {
        NoNewlineInWord(p[1..], w[1..]);
      } else {
        NoNewlineInWord(p, w[1..]);
      }
    }
  }

  /** A word cut before a character that is not a blank leaves a word of a later part of the
      pattern. */
  lemma {:induction false} CutWord(p: string, w: string, d: nat) returns (t: nat)
    requires Matches(p, w) && 0 < d < |w| && w[d] != ' '
    ensures 0 < t < |p| && Matches(p[t..], w[d..])
    decreases |w|
  {
    if Matches(p[1..], w[1..]) {
      if d == 1 {
        t := 1;
      } else {
        t := CutWord(p[1..], w[1..], d - 1);
        t := t + 1;
        assert p[1..][t - 1..] == p[t..] && w[1..][d - 1..] == w[d..];
      }
    } else {
      assert Matches(p, w[1..]);
      if d > 1 {
        t := CutWord(p, w[1..], d - 1);
        assert w[1..][d - 1..] == w[d..];
      } else {
        assert false;
      }
    }
  }

  /** Reading p from token t on, the text `head` is refuted within its length. */
  ghost predicate Clash(p: string, t: nat, head: string) {
    exists k :: 0 <= k < |head| && ClashAfter(p, t, head, k)
  }

  ghost predicate ClashAfter(p: string, t: nat, head: string, k: nat)
    requires k < |head|
  {
    t + k < |p| && !TokenFits(p[t + k], head[k]) && forall m :: t <= m < t + k ==> p[m] != '~'
  }

  lemma ClashRefutes(p: string, t: nat, head: string, w: string)
    requires t < |p| && Clash(p, t, head)
    requires forall k :: 0 <= k < |w| && k < |head| ==> w[k] == head[k]
    ensures !Matches(p[t..], w)
  {
    if Matches(p[t..], w) {
      var k :| 0 <= k < |head| && ClashAfter(p, t, head, k);
      forall m | 0 <= m < k ensures p[t..][m] != '~' {
        assert p[t..][m] == p[t + m];
      }
      assert p[t..][k] == p[t + k];
      TokenAt(p[t..], w, k);
    }
  }

  // ----------------------------------------------------------------- searching, replacing

  ghost predicate Absent(p: string, s: string) {
    forall x :: 0 <= x <= |s| ==> !Found(p, s, x)
  }

  ghost predicate Unique(p: string, s: string, u: nat) {
    Found(p, s, u) && forall x :: 0 <= x <= |s| && Found(p, s, x) ==> x == u
  }

  /** The first match at or after i, or -1. */
  function FirstMatch(p: string, s: string, i: nat): (x: int)
    requires i <= |s|
    ensures x == -1 <==> forall y :: i <= y <= |s| ==> !Found(p, s, y)
    ensures x != -1 ==> i <= x <= |s| && Found(p, s, x) && forall y :: i <= y < x ==> !Found(p, s, y)
    decreases |s| - i
  {
    if Found(p, s, i) then i else if i == |s| then -1 else FirstMatch(p, s, i + 1)
  }

  predicate Contains(p: string, s: string) {
    FirstMatch(p, s, 0) != -1
  }

  // --------------------------------------------------------- matches at the start of a text

  /** How long the match of p at the start of s is; 0 if there is none. */
  function Span(p: string, s: string): (n: nat)
    ensures n <= |s|
  {
    var e := MatchEnd(p, s, 0);
    if e == -1 then 0 else e
  }

  lemma {:induction false} SkipBlanksInSuffix(s: string, i: nat, k: nat)
    requires i + k <= |s|
    ensures SkipBlanks(s, i + k) == i + SkipBlanks(s[i..], k)
    decreases |s| - i - k
  {
    if i + k < |s| && s[i + k] == ' ' {
      SkipBlanksInSuffix(s, i, k + 1);
    }
  }

  /** Matching looks only at what follows. */
  lemma {:induction false} MatchInSuffix(p: string, s: string, i: nat, k: nat)
    requires i + k <= |s|
    ensures MatchEnd(p, s, i + k) == if MatchEnd(p, s[i..], k) == -1 then -1 else i + MatchEnd(p, s[i..], k)
    decreases |p|
  {
    if p != "" && i + k < |s| && TokenFits(p[0], s[i + k]) {
      if p[0] == '~' {
        SkipBlanksInSuffix(s, i, k);
        MatchInSuffix(p[1..], s, i, SkipBlanks(s[i..], k));
      } else {
        MatchInSuffix(p[1..], s, i, k + 1);
      }
    }
  }

  lemma SpanIsExact(p: string, s: string, n: nat)
    requires WellSpaced(p) && 0 < n <= |s|
    ensures Span(p, s) == n <==> Matches(p, s[..n])
  {
    GreedyIsExact(p, s, 0, n);
    assert s[0..n] == s[..n];
  }

  lemma FoundMeansSpan(p: string, s: string, x: nat)
    requires WellSpaced(p) && p != "" && x <= |s|
    ensures Found(p, s, x) <==> Span(p, s[x..]) > 0
    ensures Found(p, s, x) ==> MatchEnd(p, s, x) == x + Span(p, s[x..])
  {
    MatchInSuffix(p, s, x, 0);
    GreedyIsExact(p, s[x..], 0, 0);
  }

  /** No match of p that starts before v runs into v. */
  ghost predicate StopsBefore(p: string, v: string) {
    forall u: string :: u != "" ==> Span(p, u + v) <= |u|
  }

  /** No match of p starts in l, whatever follows. */
  ghost predicate Skips(p: string, l: string) {
    forall k, z: string :: 0 <= k < |l| ==> Span(p, l[k..] + z) == 0
  }

  /** What p does at the start of u does not depend on what follows, if it stops there. */
  lemma SameSpan(p: string, u: string, v: string, v': string)
    requires WellSpaced(p) && u != "" && StopsBefore(p, v) && StopsBefore(p, v')
    ensures Span(p, u + v) == Span(p, u + v')
  {
    if Span(p, u + v) > 0 {
      SpanCarries(p, u, v, v');
    }
    if Span(p, u + v') > 0 {
      SpanCarries(p, u, v', v);
    }
  }

  lemma SpanCarries(p: string, u: string, v: string, v': string)
    requires WellSpaced(p) && 0 < Span(p, u + v) <= |u|
    ensures Span(p, u + v') == Span(p, u + v)
  {
    var n := Span(p, u + v);
    SpanIsExact(p, u + v, n);
    SpanIsExact(p, u + v', n);
    assert (u + v)[..n] == u[..n] == (u + v')[..n];
  }

  /** What a rewriting comes to: nothing to do, no match, or the new text. */
  datatype Outcome = Skipped | Failed | Rewritten(text: string)

  lemma WellSpacedInParts(p: string, q: string)
    requires WellSpaced(p) && WellSpaced(q)
    ensures WellSpaced(p + q)
  {
  }

  lemma BlankAt(p: string, i: nat, j: nat)
    requires i <= j && j + 1 < |p| && IsPlain(p[i + 1]) && IsPlain(p[j + 1])
    requires forall k :: 0 <= k < |p| && p[k] == '~' ==> k == i || k == j
    ensures WellSpaced(p)
  {
  }

  lemma UniqueIsFirst(p: string, s: string, u: nat)
    requires Unique(p, s, u)
    ensures FirstMatch(p, s, 0) == u && Contains(p, s)
  {
  }

  lemma InSlice(s: string, u: nat, e: nat, k: nat)
    requires u <= k < e <= |s|
    ensures s[k] in s[u..e]
  {
    assert s[u..e][k - u] == s[k];
  }
}
