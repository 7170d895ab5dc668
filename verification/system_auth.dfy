/** The system-auth half of switching multi-factor authentication
    (enableMultiFactorAuthState and disableMultiFactorAuthState in
    src/daemon/account/manager.cpp): a line is put in front of each match of either anchor. */
module SystemAuth {
  import opened Patterns
  import opened Rewriting

  // ------------------------------------------------------------------------- the patterns

  const SERVICE := "kiran-authentication-service\n"

  /** PAM_KIRAN_AUTH_CONFIG and PAM_KIRAN_ACCOUNT_CONFIG: the lines put in. */
  const AUTH_LINE := "auth        include        " + SERVICE
  const ACCOUNT_LINE := "account     include       " + SERVICE

  /** What finds those lines again. */
  const AUTH_INCLUDE := "auth~include~" + SERVICE
  const ACCOUNT_INCLUDE := "account~include~" + SERVICE

  /** What they are put in front of. */
  const AUTH_ANCHOR := "auth~sufficient~pam_unix?so"
  const ACCOUNT_ANCHOR := "account~required~pam_unix?so"

  lemma IncludesAreWellSpaced()
    ensures WellSpaced(AUTH_INCLUDE) && WellSpaced(ACCOUNT_INCLUDE)
  {
    assert '~' !in SERVICE;
    BlankAt(AUTH_INCLUDE, 4, 12);
    BlankAt(ACCOUNT_INCLUDE, 7, 15);
  }

  lemma AnchorsAreWellSpaced()
    ensures WellSpaced(AUTH_ANCHOR) && WellSpaced(ACCOUNT_ANCHOR)
  {
    BlankAt(AUTH_ANCHOR, 4, 15);
    BlankAt(ACCOUNT_ANCHOR, 7, 16);
  }

  // --------------------------------------------------------- where matches cannot be

  /** No match of p can run into text that starts with `head`. */
  ghost predicate NeverRunsInto(p: string, head: string) {
    forall t :: 0 < t < |p| ==> Clash(p, t, head)
  }

  /** No match of p starts in l, whatever follows l. */
  ghost predicate NeverStartsIn(p: string, l: string) {
    forall k :: 0 <= k < |l| ==> Clash(p, 0, l[k..])
  }

  lemma RunsIntoNone(p: string, head: string, v: string)
    requires WellSpaced(p) && NeverRunsInto(p, head) && head != "" && head[0] != ' ' && head <= v
    ensures StopsBefore(p, v)
  {
    forall u: string | u != "" ensures Span(p, u + v) <= |u| {
      var n, d := Span(p, u + v), |u|;
      if n > d {
        var w := (u + v)[..n];
        SpanIsExact(p, u + v, n);
        assert forall k :: 0 <= k < |w[d..]| ==> w[d..][k] == v[k];
        var t := CutWord(p, w, d);
        ClashRefutes(p, t, head, w[d..]);
      }
    }
  }

  lemma StartsInNone(p: string, l: string)
    requires WellSpaced(p) && p != "" && NeverStartsIn(p, l)
    ensures Skips(p, l)
  {
    assert p[0..] == p;
    forall k, z: string | 0 <= k < |l| ensures Span(p, l[k..] + z) == 0 {
      var s := l[k..] + z;
      var n := Span(p, s);
      if n > 0 {
        SpanIsExact(p, s, n);
        assert forall m :: 0 <= m < |l[k..]| ==> s[m] == l[k..][m];
        ClashRefutes(p, 0, l[k..], s[..n]);
      }
    }
  }

  /** Every pattern here starts like this, */
  ghost predicate Starter(p: string) {
    WellSpaced(p) && |p| > 1 && p[0] == 'a' && (p[1] == 'u' || p[1] == 'c')
  }

  /** and behind its start a word of q never looks like it. */
  ghost predicate NoStarterInside(q: string) {
    forall t :: 0 < t < |q| && TokenFits(q[t], 'a') ==>
      q[t] != '~' && t + 1 < |q| && !TokenFits(q[t + 1], 'u') && !TokenFits(q[t + 1], 'c') && q[t + 1] != '~'
  }

  lemma StarterSpan(p: string, s: string)
    requires Starter(p) && Span(p, s) > 0
    ensures |s| > 1 && s[0] == 'a' && s[1] == p[1]
  {
    SpanIsWord(p, s);
    TokenAt(p, s[..Span(p, s)], 0);
    TokenAt(p, s[..Span(p, s)], 1);
  }

  lemma AfterAnA(q: string, w: string, k: nat)
    requires NoStarterInside(q) && Word(q, w) && 0 < k < |w| && w[k] == 'a'
    ensures k + 1 < |w| && w[k + 1] != 'u' && w[k + 1] != 'c'
  {
    var t := CutWord(q, w, k);
    TokenAt(q[t..], w[k..], 0);
    TokenAt(q[t..], w[k..], 1);
  }

  lemma NoStarterBehind(p: string, q: string, w: string, k: nat, z: string)
    requires Starter(p) && NoStarterInside(q) && Word(q, w) && 0 < k < |w|
    ensures Span(p, w[k..] + z) == 0
  {
    hide Word, NoStarterInside, Span;
    var s := w[k..] + z;
    if w[k] == 'a' {
      AfterAnA(q, w, k);
      assert s[1] == w[k + 1];
    }
    if Span(p, s) > 0 {
      StarterSpan(p, s);
    }
  }

  lemma SkippedBehind(p: string, q: string, w: string)
    requires Starter(p) && NoStarterInside(q) && Word(q, w)
    ensures Skips(p, w[1..])
  {
    forall k, z: string | 0 <= k < |w[1..]| ensures Span(p, w[1..][k..] + z) == 0 {
      assert w[1..][k..] == w[k + 1..];
      NoStarterBehind(p, q, w, k + 1, z);
    }
  }

  /** No text starts with a match of both. */
  ghost predicate Exclusive(p: string, q: string) {
    forall s: string :: Span(q, s) > 0 ==> Span(p, s) == 0
  }

  lemma SkippedWord(p: string, q: string, w: string)
    requires Starter(p) && WellSpaced(q) && NoStarterInside(q) && Word(q, w) && Exclusive(p, q)
    ensures Skips(p, w)
  {
    forall k, z: string | 0 <= k < |w| ensures Span(p, w[k..] + z) == 0 {
      if k == 0 {
        assert w[0..] == w;
        WordSpans(q, w, z);
      } else {
        NoStarterBehind(p, q, w, k, z);
      }
    }
  }

  lemma DifferentStarters(p: string, q: string)
    requires Starter(p) && Starter(q) && p[1] != q[1]
    ensures Exclusive(p, q)
  {
    forall s: string | Span(q, s) > 0 ensures Span(p, s) == 0 {
      StarterSpan(q, s);
      if Span(p, s) > 0 {
        StarterSpan(p, s);
      }
    }
  }

  ghost predicate AllPlain(c: string) {
    forall k :: 0 <= k < |c| ==> c[k] != '~' && c[k] != '?'
  }

  lemma {:induction false} AfterPlain(c: string, p: string, s: string, i: nat)
    requires AllPlain(c) && i <= |s| && MatchEnd(c + p, s, i) >= 0
    ensures i + |c| <= |s| && MatchEnd(p, s, i + |c|) >= 0
  {
    if c == "" {
      assert c + p == p;
    } else {
      assert (c + p)[1..] == c[1..] + p;
      AfterPlain(c[1..], p, s, i + 1);
    }
  }

  lemma AfterBlanks(h: string, p: string, s: string)
    requires AllPlain(h) && p != "" && IsPlain(p[0]) && Span(h + ("~" + p), s) > 0
    ensures |h| <= |s| && SkipBlanks(s, |h|) < |s| && s[SkipBlanks(s, |h|)] == p[0]
  {
    AfterPlain(h, "~" + p, s, 0);
    assert ("~" + p)[1..] == p;
  }

  lemma DifferentAfterBlanks(h: string, p: string, q: string)
    requires AllPlain(h) && p != "" && IsPlain(p[0]) && q != "" && IsPlain(q[0]) && p[0] != q[0]
    ensures Exclusive(h + ("~" + p), h + ("~" + q))
  {
    forall s: string | Span(h + ("~" + q), s) > 0 ensures Span(h + ("~" + p), s) == 0 {
      AfterBlanks(h, q, s);
      if Span(h + ("~" + p), s) > 0 {
        AfterBlanks(h, p, s);
      }
    }
  }

  // -------------------------------------------------------- what the actual patterns allow

  lemma AuthIncludeClashes()
    ensures NeverRunsInto(AUTH_INCLUDE, "auth ") && NeverRunsInto(AUTH_INCLUDE, "accou")
  {
    var p := AUTH_INCLUDE;
    forall t | 0 < t < |p| ensures Clash(p, t, "auth ") && Clash(p, t, "accou") {
      assert ClashAfter(p, t, "auth ", 0) || ClashAfter(p, t, "auth ", 1) || ClashAfter(p, t, "auth ", 4);
      assert ClashAfter(p, t, "accou", 0) || ClashAfter(p, t, "accou", 1);
    }
  }

  lemma AccountIncludeClashes()
    ensures NeverRunsInto(ACCOUNT_INCLUDE, "auth ") && NeverRunsInto(ACCOUNT_INCLUDE, "accou")
  {
    var p := ACCOUNT_INCLUDE;
    forall t | 0 < t < |p| ensures Clash(p, t, "auth ") && Clash(p, t, "accou") {
      assert ClashAfter(p, t, "auth ", 0) || ClashAfter(p, t, "auth ", 1) || ClashAfter(p, t, "auth ", 4);
      assert ClashAfter(p, t, "accou", 0) || ClashAfter(p, t, "accou", 1);
    }
  }

  lemma AuthAnchorClashes()
    ensures NeverRunsInto(AUTH_ANCHOR, "auth ") && NeverRunsInto(AUTH_ANCHOR, "accou")
  {
    var p := AUTH_ANCHOR;
    forall t | 0 < t < |p| ensures Clash(p, t, "auth ") && Clash(p, t, "accou") {
      assert ClashAfter(p, t, "auth ", 0) || ClashAfter(p, t, "auth ", 1);
      assert ClashAfter(p, t, "accou", 0) || ClashAfter(p, t, "accou", 1);
    }
  }

  lemma AccountAnchorClashes()
    ensures NeverRunsInto(ACCOUNT_ANCHOR, "auth ") && NeverRunsInto(ACCOUNT_ANCHOR, "accou")
  {
    var p := ACCOUNT_ANCHOR;
    forall t | 0 < t < |p| ensures Clash(p, t, "auth ") && Clash(p, t, "accou") {
      assert ClashAfter(p, t, "auth ", 0) || ClashAfter(p, t, "auth ", 1);
      assert ClashAfter(p, t, "accou", 0) || ClashAfter(p, t, "accou", 1);
    }
  }

  /** The places in an anchor where an 'a' can stand. */
  ghost predicate OnlyAAt(q: string, x: nat, y: nat) {
    forall t :: 0 < t < |q| && (q[t] == 'a' || q[t] == '?') ==> t == x || t == y
  }

  lemma EachAInAuthAnchor()
    ensures OnlyAAt(AUTH_ANCHOR, 17, 24)
  {
  }

  lemma EachAInAccountAnchor()
    ensures OnlyAAt(ACCOUNT_ANCHOR, 18, 25)
  {
  }

  lemma AfterEachA()
    ensures |AUTH_ANCHOR| == 27 && AUTH_ANCHOR[17] == 'a' && AUTH_ANCHOR[18] == 'm'
    ensures AUTH_ANCHOR[24] == '?' && AUTH_ANCHOR[25] == 's'
    ensures |ACCOUNT_ANCHOR| == 28 && ACCOUNT_ANCHOR[18] == 'a' && ACCOUNT_ANCHOR[19] == 'm'
    ensures ACCOUNT_ANCHOR[25] == '?' && ACCOUNT_ANCHOR[26] == 's'
  {
  }

  lemma NoStarterIf(q: string, x: nat, y: nat)
    requires OnlyAAt(q, x, y) && x + 1 < |q| && y + 1 < |q|
    requires q[x] == 'a' && q[x + 1] == 'm' && q[y] == '?' && q[y + 1] == 's'
    ensures NoStarterInside(q)
  {
  }

  lemma NoStarterInAuthAnchor()
    ensures NoStarterInside(AUTH_ANCHOR)
  {
    EachAInAuthAnchor();
    AfterEachA();
    hide OnlyAAt, AUTH_ANCHOR, NoStarterInside;
    NoStarterIf(AUTH_ANCHOR, 17, 24);
  }

  lemma NoStarterInAccountAnchor()
    ensures NoStarterInside(ACCOUNT_ANCHOR)
  {
    EachAInAccountAnchor();
    AfterEachA();
    hide OnlyAAt, ACCOUNT_ANCHOR, NoStarterInside;
    NoStarterIf(ACCOUNT_ANCHOR, 18, 25);
  }

  lemma ClashFromStart(p: string, l: string, k: nat, m: nat)
    requires k + m < |l| && m < |p| && !TokenFits(p[m], l[k + m]) && forall i :: 0 <= i < m ==> p[i] != '~'
    ensures Clash(p, 0, l[k..])
  {
    assert ClashAfter(p, 0, l[k..], m);
  }

  /** Nothing but an 'a' can start p, and after each one the second or fifth character is
      wrong. */
  lemma EveryStartIsRefuted(p: string, l: string)
    requires |p| > 4 && p[0] == 'a' && forall i :: 0 <= i < 4 ==> p[i] != '~'
    requires forall k :: 0 <= k < |l| && l[k] == 'a' ==>
               k + 4 < |l| && (!TokenFits(p[1], l[k + 1]) || !TokenFits(p[4], l[k + 4]))
    ensures NeverStartsIn(p, l)
  {
    forall k | 0 <= k < |l| ensures Clash(p, 0, l[k..]) {
      ClashFromStart(p, l, k, if l[k] != 'a' then 0 else if !TokenFits(p[1], l[k + 1]) then 1 else 4);
    }
  }

  lemma EachAInService()
    ensures forall k :: 0 <= k < |SERVICE| && SERVICE[k] == 'a' ==> k == 3 || k == 6 || k == 15
    ensures SERVICE[4] == 'n' && SERVICE[7] == 'u' && SERVICE[10] == 'e' && SERVICE[16] == 't' && |SERVICE| == 29
  {
  }

  lemma EachAInLine(start: string)
    requires |start| > 4 && start[0] == 'a' && forall k :: 0 < k < |start| ==> start[k] != 'a'
    ensures var l := start + SERVICE;
      forall k :: 0 <= k < |l| && l[k] == 'a' ==>
        k + 4 < |l| && (k > 0 ==> l[k + 1] != 'c' && (l[k + 1] == 'u' ==> l[k + 4] == 'e'))
  {
    EachAInService();
  }

  /** An account anchor never starts in the line for auth, nor an auth include in the line for
      account. */
  lemma LinesAreStrange()
    ensures NeverStartsIn(ACCOUNT_ANCHOR, AUTH_LINE) && NeverStartsIn(AUTH_INCLUDE, ACCOUNT_LINE)
  {
    EachAInLine("auth        include        ");
    EachAInLine("account     include       ");
    AccountAnchorIn(AUTH_LINE);
    AuthIncludeIn(ACCOUNT_LINE);
  }

  lemma AccountAnchorIn(l: string)
    requires forall k :: 0 <= k < |l| && l[k] == 'a' ==> k + 4 < |l| && l[k + 1] != 'c'
    ensures NeverStartsIn(ACCOUNT_ANCHOR, l)
  {
    EveryStartIsRefuted(ACCOUNT_ANCHOR, l);
  }

  lemma AuthIncludeIn(l: string)
    requires forall k :: 0 <= k < |l| && l[k] == 'a' ==> k + 4 < |l| && (l[k + 1] == 'u' ==> l[k + 4] == 'e')
    ensures NeverStartsIn(AUTH_INCLUDE, l)
  {
    EveryStartIsRefuted(AUTH_INCLUDE, l);
  }

  lemma {:induction false} PlainWord(c: string, p: string, w: string)
    requires Matches(p, w) && AllPlain(c)
    ensures Matches(c + p, c + w)
  {
    if c == "" {
      assert c + p == p && c + w == w;
    } else {
      PlainWord(c[1..], p, w);
      assert (c + p)[1..] == c[1..] + p && (c + w)[1..] == c[1..] + w;
    }
  }

  function Blanks(n: nat): string { seq(n, _ => ' ') }

  lemma BlanksThen(p: string, n: nat, w: string)
    requires Matches(p, w) && n > 0
    ensures Matches("~" + p, Blanks(n) + w)
  {
    assert ("~" + p)[1..] == p;
    BlanksBefore("~" + p, n, w);
  }

  lemma ThreeWords(first: string, m: nat, second: string, n: nat, p: string, w: string)
    requires AllPlain(first) && AllPlain(second) && Matches(p, w) && m > 0 && n > 0
    ensures Matches(first + ("~" + (second + ("~" + p))), first + (Blanks(m) + (second + (Blanks(n) + w))))
  {
    BlanksThen(p, n, w);
    PlainWord(second, "~" + p, Blanks(n) + w);
    BlanksThen(second + ("~" + p), m, second + (Blanks(n) + w));
    PlainWord(first, "~" + (second + ("~" + p)), Blanks(m) + (second + (Blanks(n) + w)));
  }

  lemma PlainIsItself(c: string)
    requires AllPlain(c)
    ensures Matches(c, c)
  {
    PlainWord(c, "", "");
    assert c + "" == c;
  }

  lemma PatternsInParts()
    ensures "auth" + ("~" + ("include" + ("~" + SERVICE))) == AUTH_INCLUDE
    ensures "account" + ("~" + ("include" + ("~" + SERVICE))) == ACCOUNT_INCLUDE
  {
  }

  lemma AuthLineInParts()
    ensures "auth" + (Blanks(8) + ("include" + (Blanks(8) + SERVICE))) == AUTH_LINE
  {
    assert "auth" + Blanks(8) + "include" + Blanks(8) == "auth        include        ";
  }

  lemma AccountLineInParts()
    ensures "account" + (Blanks(5) + ("include" + (Blanks(7) + SERVICE))) == ACCOUNT_LINE
  {
    assert "account" + Blanks(5) + "include" + Blanks(7) == "account     include       ";
  }

  /** The lines put in are found again. */
  lemma ServiceIsPlain()
    ensures AllPlain(SERVICE)
  {
  }

  lemma ServiceMatches()
    ensures Matches(SERVICE, SERVICE)
  {
    ServiceIsPlain();
    hide AllPlain, Matches, SERVICE;
    PlainIsItself(SERVICE);
  }

  lemma FirstWordsArePlain()
    ensures AllPlain("auth") && AllPlain("account") && AllPlain("include")
    ensures AllPlain("sufficient") && AllPlain("required")
  {
  }

  lemma LinesMatch()
    ensures Matches(AUTH_INCLUDE, AUTH_LINE) && Matches(ACCOUNT_INCLUDE, ACCOUNT_LINE)
  {
    ServiceMatches();
    FirstWordsArePlain();
    hide Matches, AllPlain, Blanks;
    ThreeWords("auth", 8, "include", 8, SERVICE, SERVICE);
    ThreeWords("account", 5, "include", 7, SERVICE, SERVICE);
    PatternsInParts();
    AuthLineInParts();
    AccountLineInParts();
  }

  /** The first five characters of a match, when the pattern fixes them. */
  lemma MatchHead(p: string, s: string, head: string)
    requires WellSpaced(p) && |p| > 4 && |head| == 5 && Span(p, s) > 0
    requires forall k :: 0 <= k < 4 ==> p[k] == head[k] && p[k] != '~' && p[k] != '?'
    requires p[4] == (if head[4] == ' ' then '~' else head[4]) && head[4] != '~' && head[4] != '?'
    ensures head <= s
  {
    var w := s[..Span(p, s)];
    SpanIsExact(p, s, |w|);
    forall k | 0 <= k < 5 ensures k < |w| && w[k] == head[k] {
      TokenAt(p, w, k);
    }
  }

  lemma AnchorHeads(s: string)
    requires WellSpaced(AUTH_ANCHOR) && WellSpaced(ACCOUNT_ANCHOR)
    ensures Span(AUTH_ANCHOR, s) > 0 ==> "auth " <= s
    ensures Span(ACCOUNT_ANCHOR, s) > 0 ==> "accou" <= s
  {
    hide WellSpaced, Span;
    if Span(AUTH_ANCHOR, s) > 0 {
      MatchHead(AUTH_ANCHOR, s, "auth ");
    }
    if Span(ACCOUNT_ANCHOR, s) > 0 {
      MatchHead(ACCOUNT_ANCHOR, s, "accou");
    }
  }

  // -------------------------------------------------------------------------- system-auth

  datatype Rules = Rules(
    authInclude: string, authAnchor: string, authLine: string,
    accountInclude: string, accountAnchor: string, accountLine: string)

  const SYSTEM_AUTH := Rules(AUTH_INCLUDE, AUTH_ANCHOR, AUTH_LINE, ACCOUNT_INCLUDE, ACCOUNT_ANCHOR, ACCOUNT_LINE)

  /** The system-auth half of enableMultiFactorAuthState. Every match of an anchor is replaced
      by the line and the text of the first match. */
  function EnableSystem(r: Rules, t: string): Outcome {
    if Contains(r.authInclude, t) || Contains(r.accountInclude, t) then Skipped
    else if !Contains(r.authAnchor, t) then Failed
    else
      var t1 := Rewrite([Rule(r.authAnchor, r.authLine + FirstText(r.authAnchor, t))], t);
      if !Contains(r.accountAnchor, t1) then Failed
      else Rewritten(Rewrite([Rule(r.accountAnchor, r.accountLine + FirstText(r.accountAnchor, t1))], t1))
  }

  /** The system-auth half of disableMultiFactorAuthState. */
  function DisableSystem(r: Rules, t: string): Outcome {
    if !Contains(r.authInclude, t) || !Contains(r.accountInclude, t) then Skipped
    else Rewritten(Rewrite([Rule(r.accountInclude, "")], Rewrite([Rule(r.authInclude, "")], t)))
  }

  /** What p, looked for while anchors and lines are in the text, must not do: start in a word
      of an anchor, or run into one or into a line. */
  ghost predicate Sought(r: Rules, p: string) {
    && WellSpaced(p) && p != ""
    && Passes(p, r.authAnchor) && Passes(p, r.accountAnchor)
    && (forall v :: Span(r.authAnchor, v) > 0 || Span(r.accountAnchor, v) > 0 ==> StopsBefore(p, v))
    && (forall z: string :: StopsBefore(p, r.authLine + z) && StopsBefore(p, r.accountLine + z))
  }

  ghost predicate Suited(r: Rules) {
    && Apart([Rule(r.authAnchor, ""), Rule(r.accountAnchor, "")])
    && Sought(r, r.authAnchor) && Sought(r, r.accountAnchor)
    && Sought(r, r.authInclude) && Sought(r, r.accountInclude)
    && r.authInclude != r.authAnchor && r.authInclude != r.accountAnchor
    && r.accountInclude != r.authAnchor && r.accountInclude != r.accountAnchor
    && Word(r.authInclude, r.authLine) && Word(r.accountInclude, r.accountLine)
    && Skips(r.accountAnchor, r.authLine) && Skips(r.authInclude, r.accountLine)
  }

  // ------------------------------------------------------------ the actual rules are suited

  lemma AllAreStarters()
    ensures Starter(AUTH_INCLUDE) && Starter(ACCOUNT_INCLUDE) && Starter(AUTH_ANCHOR) && Starter(ACCOUNT_ANCHOR)
  {
    IncludesAreWellSpaced();
    AnchorsAreWellSpaced();
  }

  lemma IncludesAreNoAnchors()
    ensures Exclusive(AUTH_INCLUDE, AUTH_ANCHOR) && Exclusive(ACCOUNT_INCLUDE, ACCOUNT_ANCHOR)
  {
    var service := "include" + ("~" + SERVICE);
    PatternsInParts();
    assert "auth" + ("~" + "sufficient~pam_unix?so") == AUTH_ANCHOR;
    assert "account" + ("~" + "required~pam_unix?so") == ACCOUNT_ANCHOR;
    DifferentAfterBlanks("auth", service, "sufficient~pam_unix?so");
    DifferentAfterBlanks("account", service, "required~pam_unix?so");
  }

  lemma PassesIfExclusive(p: string, q: string)
    requires Starter(p) && Starter(q) && NoStarterInside(q)
    requires p == q || p[1] != q[1] || Exclusive(p, q)
    ensures Passes(p, q)
  {
    if p != q && p[1] != q[1] {
      DifferentStarters(p, q);
    }
    forall w | Word(q, w) ensures Skips(p, if p == q then w[1..] else w) {
      if p == q {
        SkippedBehind(p, q, w);
      } else {
        SkippedWord(p, q, w);
      }
    }
  }

  lemma AllPass()
    ensures Passes(AUTH_ANCHOR, AUTH_ANCHOR) && Passes(AUTH_ANCHOR, ACCOUNT_ANCHOR)
    ensures Passes(ACCOUNT_ANCHOR, AUTH_ANCHOR) && Passes(ACCOUNT_ANCHOR, ACCOUNT_ANCHOR)
    ensures Passes(AUTH_INCLUDE, AUTH_ANCHOR) && Passes(AUTH_INCLUDE, ACCOUNT_ANCHOR)
    ensures Passes(ACCOUNT_INCLUDE, AUTH_ANCHOR) && Passes(ACCOUNT_INCLUDE, ACCOUNT_ANCHOR)
  {
    AllAreStarters();
    NoStarterInAuthAnchor();
    NoStarterInAccountAnchor();
    IncludesAreNoAnchors();
    SecondLetters();
    hide Starter, NoStarterInside, Exclusive, Passes;
    PassesIfExclusive(AUTH_ANCHOR, AUTH_ANCHOR);
    PassesIfExclusive(AUTH_ANCHOR, ACCOUNT_ANCHOR);
    PassesIfExclusive(ACCOUNT_ANCHOR, AUTH_ANCHOR);
    PassesIfExclusive(ACCOUNT_ANCHOR, ACCOUNT_ANCHOR);
    PassesIfExclusive(AUTH_INCLUDE, AUTH_ANCHOR);
    PassesIfExclusive(AUTH_INCLUDE, ACCOUNT_ANCHOR);
    PassesIfExclusive(ACCOUNT_INCLUDE, AUTH_ANCHOR);
    PassesIfExclusive(ACCOUNT_INCLUDE, ACCOUNT_ANCHOR);
  }

  lemma SecondLetters()
    ensures |AUTH_INCLUDE| > 5 && |AUTH_ANCHOR| > 5 && |ACCOUNT_INCLUDE| > 8 && |ACCOUNT_ANCHOR| > 8
    ensures AUTH_INCLUDE[1] == AUTH_ANCHOR[1] == 'u' && ACCOUNT_INCLUDE[1] == ACCOUNT_ANCHOR[1] == 'c'
    ensures AUTH_INCLUDE[5] != AUTH_ANCHOR[5] && ACCOUNT_INCLUDE[8] != ACCOUNT_ANCHOR[8]
  {
  }

  lemma LineHeads()
    ensures "auth " <= AUTH_LINE && "accou" <= ACCOUNT_LINE
  {
  }

  lemma SoughtIfItRunsIntoNone(p: string)
    requires WellSpaced(p) && p != "" && Passes(p, AUTH_ANCHOR) && Passes(p, ACCOUNT_ANCHOR)
    requires NeverRunsInto(p, "auth ") && NeverRunsInto(p, "accou")
    ensures Sought(SYSTEM_AUTH, p)
  {
    AnchorsAreWellSpaced();
    LineHeads();
    hide NeverRunsInto, StopsBefore, Span, WellSpaced, Passes;
    forall v | Span(AUTH_ANCHOR, v) > 0 || Span(ACCOUNT_ANCHOR, v) > 0 ensures StopsBefore(p, v) {
      AnchorHeads(v);
      RunsIntoNone(p, if "auth " <= v then "auth " else "accou", v);
    }
    forall z: string ensures StopsBefore(p, AUTH_LINE + z) && StopsBefore(p, ACCOUNT_LINE + z) {
      RunsIntoNone(p, "auth ", AUTH_LINE + z);
      RunsIntoNone(p, "accou", ACCOUNT_LINE + z);
    }
  }

  lemma AnchorsAreApart()
    ensures Apart([Rule(AUTH_ANCHOR, ""), Rule(ACCOUNT_ANCHOR, "")])
  {
    AnchorsAreWellSpaced();
    AllPass();
    SecondLetters();
    hide Passes, WellSpaced, AUTH_ANCHOR, ACCOUNT_ANCHOR;
    TwoApart(AUTH_ANCHOR, ACCOUNT_ANCHOR);
  }

  lemma TwoApart(p: string, q: string)
    requires WellSpaced(p) && WellSpaced(q) && p != "" && q != "" && p != q
    requires Passes(p, p) && Passes(p, q) && Passes(q, p) && Passes(q, q)
    ensures Apart([Rule(p, ""), Rule(q, "")])
  {
  }

  lemma SystemAuthIsSuited()
    ensures Suited(SYSTEM_AUTH)
  {
    AnchorsAreApart();
    AllAreStarters();
    AllPass();
    AuthIncludeClashes();
    AccountIncludeClashes();
    AuthAnchorClashes();
    AccountAnchorClashes();
    SecondLetters();
    LinesMatch();
    LinesAreStrange();
    LineHeads();
    hide Passes, NeverRunsInto, NeverStartsIn, Skips, Sought, Apart, Matches, WellSpaced;
    SoughtIfItRunsIntoNone(AUTH_ANCHOR);
    SoughtIfItRunsIntoNone(ACCOUNT_ANCHOR);
    SoughtIfItRunsIntoNone(AUTH_INCLUDE);
    SoughtIfItRunsIntoNone(ACCOUNT_INCLUDE);
    StartsInNone(ACCOUNT_ANCHOR, AUTH_LINE);
    StartsInNone(AUTH_INCLUDE, ACCOUNT_LINE);
  }

  // ------------------------------------------------------- what enabling and disabling do

  lemma SkipsBoth(p: string, a: string, b: string)
    requires Skips(p, a) && Skips(p, b)
    ensures Skips(p, a + b)
  {
    var l := a + b;
    forall k, z: string | 0 <= k < |l| ensures Span(p, l[k..] + z) == 0 {
      if k < |a| {
        assert l[k..] + z == a[k..] + (b + z);
      } else {
        assert l[k..] == b[k - |a|..];
      }
    }
  }

  /** The anchors become w and c, with something in front. */
  function AnchorRules(r: Rules, la: string, w: string, lc: string, c: string): seq<Rule> {
    [Rule(r.authAnchor, la + w), Rule(r.accountAnchor, lc + c)]
  }

  lemma SoughtStops(r: Rules, p: string, q: string, v: string)
    requires Sought(r, p) && (q == r.authAnchor || q == r.accountAnchor) && Span(q, v) > 0
    ensures StopsBefore(p, v)
  {
  }

  lemma SoughtStopsAtLine(r: Rules, p: string, l: string, z: string)
    requires Sought(r, p) && (l == r.authLine || l == r.accountLine)
    ensures StopsBefore(p, l + z)
  {
  }

  lemma StopsAtWord(r: Rules, p: string, q: string, w: string)
    requires Sought(r, p) && (q == r.authAnchor || q == r.accountAnchor) && WellSpaced(q) && Word(q, w)
    ensures StopsAtRule(p, Rule(q, w))
  {
    hide Sought, Word, WellSpaced, StopsBefore, Span;
    forall v: string | Span(q, v) > 0 ensures StopsBefore(p, v) {
      SoughtStops(r, p, q, v);
    }
    forall z: string ensures StopsBefore(p, w + z) {
      WordSpansSome(q, w, z);
      SoughtStops(r, p, q, w + z);
    }
  }

  lemma StopsAtLine(r: Rules, p: string, q: string, l: string, w: string)
    requires Sought(r, p) && (q == r.authAnchor || q == r.accountAnchor)
    requires l == r.authLine || l == r.accountLine
    ensures StopsAtRule(p, Rule(q, l + w))
  {
    hide Sought, StopsBefore, Span;
    forall v: string | Span(q, v) > 0 ensures StopsBefore(p, v) {
      SoughtStops(r, p, q, v);
    }
    forall z: string ensures StopsBefore(p, l + w + z) {
      Regroup(l, w, z);
      SoughtStopsAtLine(r, p, l, w + z);
    }
  }

  lemma WordSpansSome(p: string, w: string, z: string)
    requires WellSpaced(p) && Word(p, w)
    ensures Span(p, w + z) > 0
  {
    WordSpans(p, w, z);
  }

  /** t with line and first text for every match of each anchor. */
  function WithLines(r: Rules, t: string): string {
    Rewrite(AnchorRules(r, r.authLine, FirstText(r.authAnchor, t), r.accountLine, FirstText(r.accountAnchor, t)), t)
  }

  /** t with the first text for every match of each anchor. */
  function Leveled(r: Rules, t: string): string {
    Rewrite(AnchorRules(r, "", FirstText(r.authAnchor, t), "", FirstText(r.accountAnchor, t)), t)
  }

  lemma AnchorsAreWords(r: Rules, t: string)
    requires Suited(r)
    ensures WellSpaced(r.authAnchor) && WellSpaced(r.accountAnchor) && r.authAnchor != r.accountAnchor
    ensures Contains(r.authAnchor, t) <==> FirstText(r.authAnchor, t) != ""
    ensures Contains(r.accountAnchor, t) <==> FirstText(r.accountAnchor, t) != ""
    ensures Contains(r.authAnchor, t) ==> Word(r.authAnchor, FirstText(r.authAnchor, t))
    ensures Contains(r.accountAnchor, t) ==> Word(r.accountAnchor, FirstText(r.accountAnchor, t))
  {
    var rules := [Rule(r.authAnchor, ""), Rule(r.accountAnchor, "")];
    assert rules[0].pattern == r.authAnchor && rules[1].pattern == r.accountAnchor;
    FirstTextIsFirst(r.authAnchor, t);
    FirstTextIsFirst(r.accountAnchor, t);
  }

  lemma AnchorsPass(r: Rules)
    requires Suited(r)
    ensures Passes(r.authAnchor, r.accountAnchor) && Passes(r.accountAnchor, r.authAnchor)
    ensures r.authAnchor != r.accountAnchor
  {
    var rules := [Rule(r.authAnchor, ""), Rule(r.accountAnchor, "")];
    assert rules[0].pattern == r.authAnchor && rules[1].pattern == r.accountAnchor;
  }

  lemma AccountAnchorIsSuited(r: Rules)
    requires Suited(r)
    ensures Sought(r, r.accountAnchor) && WellSpaced(r.accountAnchor) && Skips(r.accountAnchor, r.authLine)
    ensures WellSpaced(r.authAnchor)
    ensures Passes(r.authAnchor, r.accountAnchor) && Passes(r.accountAnchor, r.authAnchor)
    ensures r.authAnchor != r.accountAnchor
  {
    AnchorsPass(r);
    AnchorsAreWords(r, "");
  }

  lemma AnchorWordSkipped(p: string, q: string, w: string)
    requires Passes(p, q) && Word(q, w) && p != q
    ensures Skips(p, w)
  {
  }

  lemma LineAndWordLeaveAccount(r: Rules, w: string)
    requires Suited(r) && Word(r.authAnchor, w)
    ensures var auth := Rule(r.authAnchor, r.authLine + w);
      StopsAt(r.accountAnchor, [auth]) && LeavesWords([auth], r.accountAnchor) && Skips(r.accountAnchor, auth.text)
  {
    hide *;
    var auth := Rule(r.authAnchor, r.authLine + w);
    AccountAnchorIsSuited(r);
    StopsAtLine(r, r.accountAnchor, r.authAnchor, r.authLine, w);
    AnchorWordSkipped(r.accountAnchor, r.authAnchor, w);
    SkipsBoth(r.accountAnchor, r.authLine, w);
    OneRule(r.accountAnchor, auth);
  }

  /** Putting in the line for auth leaves the first account anchor as it was. */
  lemma AccountAnchorStays(r: Rules, t: string, w: string)
    requires Suited(r) && Word(r.authAnchor, w)
    ensures FirstText(r.accountAnchor, Rewrite([Rule(r.authAnchor, r.authLine + w)], t))
         == FirstText(r.accountAnchor, t)
  {
    hide *;
    LineAndWordLeaveAccount(r, w);
    AccountAnchorIsSuited(r);
    FirstTextKept(r.accountAnchor, [Rule(r.authAnchor, r.authLine + w)], t);
  }

  /** One line and then the other is both lines at once. */
  lemma BothLinesPutIn(r: Rules, t: string, w: string, c: string)
    requires Suited(r) && Word(r.authAnchor, w)
    ensures Rewrite([Rule(r.accountAnchor, r.accountLine + c)], Rewrite([Rule(r.authAnchor, r.authLine + w)], t))
         == Rewrite(AnchorRules(r, r.authLine, w, r.accountLine, c), t)
  {
    hide Rewrite, StopsAt, Skips, Word, Suited, Through, LeavesWords, WellSpaced, Sought, Passes, Absent;
    var auth, account := Rule(r.authAnchor, r.authLine + w), Rule(r.accountAnchor, r.accountLine + c);
    LineAndWordLeaveAccount(r, w);
    AccountAnchorIsSuited(r);
    ThroughOne(account, auth);
    OneAfterOthers(account, [auth], [auth], t);
    assert [auth] + [account] == AnchorRules(r, r.authLine, w, r.accountLine, c);
  }

  // ------------------------------------------------------------------- what enabling does

  /** What enabling comes to, for every text: nothing to do if it holds either line, an error
      if it lacks either anchor, otherwise a line in front of each match of the anchors, which
      all take the text of the first. */
  lemma EnableSystemMeans(r: Rules, t: string)
    requires Suited(r)
    ensures EnableSystem(r, t) ==
      if Contains(r.authInclude, t) || Contains(r.accountInclude, t) then Skipped
      else if !Contains(r.authAnchor, t) || !Contains(r.accountAnchor, t) then Failed
      else Rewritten(WithLines(r, t))
  {
    hide Rewrite, FirstText, Suited, Contains, Word, WellSpaced;
    var w, c := FirstText(r.authAnchor, t), FirstText(r.accountAnchor, t);
    AnchorsAreWords(r, t);
    if Contains(r.authAnchor, t) {
      var t1 := Rewrite([Rule(r.authAnchor, r.authLine + w)], t);
      AnchorsAreWords(r, t1);
      AccountAnchorStays(r, t, w);
      BothLinesPutIn(r, t, w, c);
    }
  }

  lemma RulesAreApart(r: Rules, la: string, w: string, lc: string, c: string)
    requires Suited(r)
    ensures Apart(AnchorRules(r, la, w, lc, c))
  {
    hide Passes;
    var rules, anchors := AnchorRules(r, la, w, lc, c), [Rule(r.authAnchor, ""), Rule(r.accountAnchor, "")];
    assert forall k :: 0 <= k < 2 ==> rules[k].pattern == anchors[k].pattern;
  }

  lemma LineIsFound(rules: seq<Rule>, j: nat, p: string, line: string, w: string, t: string)
    requires Apart(rules) && j < |rules| && Contains(rules[j].pattern, t) && rules[j].text == line + w
    requires WellSpaced(p) && Word(p, line)
    ensures Contains(p, Rewrite(rules, t))
  {
    hide *;
    var x := TextIsPutIn(rules, j, t);
    StandsInFront(line, w, Rewrite(rules, t), x);
    ContainsText(p, Rewrite(rules, t), x, line);
  }

  lemma LinesAreFound(r: Rules, t: string)
    requires Suited(r) && Contains(r.authAnchor, t) && Contains(r.accountAnchor, t)
    ensures Contains(r.authInclude, WithLines(r, t)) && Contains(r.accountInclude, WithLines(r, t))
  {
    hide Rewrite, FirstText, Apart, Contains, WellSpaced, Word, Passes, Skips, StopsBefore;
    var w, c := FirstText(r.authAnchor, t), FirstText(r.accountAnchor, t);
    var rules := AnchorRules(r, r.authLine, w, r.accountLine, c);
    RulesAreApart(r, r.authLine, w, r.accountLine, c);
    LineIsFound(rules, 0, r.authInclude, r.authLine, w, t);
    LineIsFound(rules, 1, r.accountInclude, r.accountLine, c, t);
  }

  /** What enabling makes is recognised as enabled. */
  lemma EnabledIsRecognised(r: Rules, t: string)
    requires Suited(r) && EnableSystem(r, t).Rewritten?
    ensures var on := EnableSystem(r, t).text;
      && Contains(r.authInclude, on) && Contains(r.accountInclude, on)
      && EnableSystem(r, on) == Skipped && DisableSystem(r, on).Rewritten? && on != t
  {
    hide Suited, WithLines, Contains, Rewrite;
    EnableSystemMeans(r, t);
    LinesAreFound(r, t);
  }

  lemma InFrontOfText(a: string, l: string, w: string, c: string)
    ensures a + (l + w) + c == a + l + (w + c)
  {
  }

  /** With one match of each anchor in it, the text is kept and the two lines stand right in
      front of the two matches. */
  lemma LinesGoInFront(r: Rules, t: string, i: nat, j: nat)
    requires Suited(r) && Unique(r.authAnchor, t, i) && Unique(r.accountAnchor, t, j)
    ensures i <= |t| && j <= |t| && i != j
    ensures WithLines(r, t) ==
      if i < j then t[..i] + r.authLine + t[i..j] + r.accountLine + t[j..]
      else t[..j] + r.accountLine + t[j..i] + r.authLine + t[i..]
  {
    var w, c := FirstText(r.authAnchor, t), FirstText(r.accountAnchor, t);
    var rules := AnchorRules(r, r.authLine, w, r.accountLine, c);
    hide Suited, FirstText, Unique, Apart, WellSpaced, Contains, Word;
    RulesAreApart(r, r.authLine, w, r.accountLine, c);
    AnchorsAreWords(r, t);
    NotAtOnce(rules, t, i, j);
    hide Suited, Rewrite, FirstText, Unique, MatchEnd, WellSpaced, Apart, Contains, Word;
    assert r.authAnchor != "" && r.accountAnchor != "" by {
      ApartIsWellSpaced(rules);
      assert rules[0].pattern == r.authAnchor && rules[1].pattern == r.accountAnchor;
    }
    UniqueIsFound(r.authAnchor, t, i);
    UniqueIsFound(r.accountAnchor, t, j);
    UniqueFirstText(r.authAnchor, t, i);
    UniqueFirstText(r.accountAnchor, t, j);
    if i < j {
      OneOfEachRewritten(rules, t, 0, 1, i, j);
      Reassembled(t, i, MatchEnd(r.authAnchor, t, i), j, MatchEnd(r.accountAnchor, t, j), r.authLine, r.accountLine);
    } else {
      OneOfEachRewritten(rules, t, 1, 0, j, i);
      Reassembled(t, j, MatchEnd(r.accountAnchor, t, j), i, MatchEnd(r.authAnchor, t, i), r.accountLine, r.authLine);
    }
  }

  lemma NotAtOnce(rules: seq<Rule>, t: string, i: nat, j: nat)
    requires Apart(rules) && |rules| == 2 && Unique(rules[0].pattern, t, i) && Unique(rules[1].pattern, t, j)
    ensures i <= |t| && j <= |t| && i != j
  {
    if i == j {
      var p, q := rules[0].pattern, rules[1].pattern;
      FoundMeansSpan(p, t, i);
      FoundMeansSpan(q, t, i);
      SpanIsWord(p, t[i..]);
      assert Passes(q, p);
      DistinctPatterns(rules, 0, 1);
      var n := Span(p, t[i..]);
      assert t[i..] == t[i..][..n] + t[i..][n..];
      SkipsTail(q, t[i..][..n]);
    }
  }

  lemma Reassembled(t: string, i: nat, e: nat, j: nat, f: nat, la: string, lb: string)
    requires i <= e <= j <= f <= |t|
    ensures t[..i] + (la + t[i..e]) + t[e..j] + (lb + t[j..f]) + t[f..] == t[..i] + la + t[i..j] + lb + t[j..]
  {
    assert t[i..e] + t[e..j] == t[i..j] && t[j..f] + t[f..] == t[j..];
    InFrontOfText(t[..i], la, t[i..e], t[e..j]);
    InFrontOfText(t[..i] + la + t[i..j], lb, t[j..f], t[f..]);
  }

  // ------------------------------------------------------------------ what disabling does

  lemma IncludeTakenOut(r: Rules, p: string, t: string, first: Rule, second: Rule, first': string, second': string)
    requires Suited(r) && Sought(r, p) && Absent(p, t)
    requires StopsAtRule(p, first) && StopsAtRule(p, second)
    requires ThroughText(Rule(p, ""), first.text, first') && ThroughText(Rule(p, ""), second.text, second')
    ensures Rewrite([Rule(p, "")], Rewrite([first, second], t))
         == Rewrite([Rule(first.pattern, first'), Rule(second.pattern, second')], t)
  {
    hide Rewrite, StopsAtRule, Suited, ThroughText, Absent, Through, Passes;
    var r, rules, after :=
      Rule(p, ""), [first, second], [Rule(first.pattern, first'), Rule(second.pattern, second')];
    ThroughTwo(r, first, second, first', second');
    OneAfterOthers(r, rules, after, t);
    IdleRule(after, r, t);
  }

  lemma LineIsThrough(p: string, line: string, w: string)
    requires Word(p, line) && Skips(p, w)
    ensures ThroughText(Rule(p, ""), line + w, w)
  {
  }

  /** Both lines are taken out again, and nothing else. */
  lemma BothLinesTakenOut(r: Rules, t: string, w: string, c: string)
    requires Suited(r) && Absent(r.authInclude, t) && Absent(r.accountInclude, t)
    requires Word(r.authAnchor, w) && Word(r.accountAnchor, c)
    ensures Rewrite([Rule(r.accountInclude, "")],
              Rewrite([Rule(r.authInclude, "")], Rewrite(AnchorRules(r, r.authLine, w, r.accountLine, c), t)))
         == Rewrite(AnchorRules(r, "", w, "", c), t)
  {
    hide Rewrite, StopsAtRule, Skips, Word, Absent, ThroughText, Passes, WellSpaced, Apart, StopsBefore;
    var aa, ac, ia, ic := r.authAnchor, r.accountAnchor, r.authInclude, r.accountInclude;
    assert "" + w == w && "" + c == c;
    StopsAtLine(r, ia, aa, r.authLine, w);
    StopsAtLine(r, ia, ac, r.accountLine, c);
    AnchorsAreWords(r, t);
    StopsAtWord(r, ic, aa, w);
    StopsAtLine(r, ic, ac, r.accountLine, c);
    AnchorWordSkipped(ia, aa, w);
    AnchorWordSkipped(ia, ac, c);
    AnchorWordSkipped(ic, aa, w);
    AnchorWordSkipped(ic, ac, c);
    SkipsBoth(ia, r.accountLine, c);
    LineIsThrough(ia, r.authLine, w);
    LineIsThrough(ic, r.accountLine, c);
    LeftAlone(ia, r.accountLine + c);
    LeftAlone(ic, w);
    IncludeTakenOut(r, ia, t, Rule(aa, r.authLine + w), Rule(ac, r.accountLine + c), w, r.accountLine + c);
    IncludeTakenOut(r, ic, t, Rule(aa, w), Rule(ac, r.accountLine + c), w, c);
  }

  lemma LeftAlone(p: string, w: string)
    requires Skips(p, w)
    ensures ThroughText(Rule(p, ""), w, w)
  {
  }

  lemma LeveledKeeps(r: Rules, t: string)
    requires Suited(r) && Contains(r.authAnchor, t) && Contains(r.accountAnchor, t)
    ensures Leveled(r, t) == t <==>
      && Uniform(r.authAnchor, t, FirstText(r.authAnchor, t))
      && Uniform(r.accountAnchor, t, FirstText(r.accountAnchor, t))
  {
    hide Rewrite, FirstText, Apart, Contains, WellSpaced, Word, Uniform, Suited;
    var w, c := FirstText(r.authAnchor, t), FirstText(r.accountAnchor, t);
    var rules := AnchorRules(r, "", w, "", c);
    AnchorsAreWords(r, t);
    RulesAreApart(r, "", w, "", c);
    assert "" + w == w && "" + c == c;
    assert rules[0] == Rule(r.authAnchor, w) && rules[1] == Rule(r.accountAnchor, c);
    RewriteKeeps(rules, t);
  }

  /** Disabling what enabling made of any text gives the text with the first text for every
      match of an anchor. That is the text itself if and only if, of each anchor, all matches
      have the same text, such as when there is only one. Enabling twice is enabling once. */
  lemma SystemRoundTrip(r: Rules, t: string)
    requires Suited(r) && EnableSystem(r, t).Rewritten?
    ensures var on := EnableSystem(r, t).text;
      && EnableSystem(r, on) == Skipped
      && DisableSystem(r, on) == Rewritten(Leveled(r, t))
      && (Leveled(r, t) == t <==>
            && Uniform(r.authAnchor, t, FirstText(r.authAnchor, t))
            && Uniform(r.accountAnchor, t, FirstText(r.accountAnchor, t)))
  {
    hide Rewrite, Suited, FirstText, Uniform, Contains, Word;
    var w, c := FirstText(r.authAnchor, t), FirstText(r.accountAnchor, t);
    EnableSystemMeans(r, t);
    EnabledIsRecognised(r, t);
    AnchorsAreWords(r, t);
    NotContained(r.authInclude, t);
    NotContained(r.accountInclude, t);
    BothLinesTakenOut(r, t, w, c);
    LeveledKeeps(r, t);
  }

  // --------------------------------------------------------------------- the leveled text

  lemma LeveledRules(r: Rules, t: string)
    requires Suited(r) && Contains(r.authAnchor, t) && Contains(r.accountAnchor, t)
    ensures var rules := AnchorRules(r, "", FirstText(r.authAnchor, t), "", FirstText(r.accountAnchor, t));
      && Apart(rules) && StopsAtEachOther(rules)
      && forall k :: 0 <= k < |rules| ==> Word(rules[k].pattern, rules[k].text)
  {
    hide Rewrite, FirstText, Contains, WellSpaced, Word, Apart, Passes, Skips, StopsAtRule, StopsBefore;
    var w, c := FirstText(r.authAnchor, t), FirstText(r.accountAnchor, t);
    assert "" + w == w && "" + c == c;
    AnchorsAreWords(r, t);
    RulesAreApart(r, "", w, "", c);
    StopsAtWord(r, r.authAnchor, r.authAnchor, w);
    StopsAtWord(r, r.authAnchor, r.accountAnchor, c);
    StopsAtWord(r, r.accountAnchor, r.authAnchor, w);
    StopsAtWord(r, r.accountAnchor, r.accountAnchor, c);
  }

  /** The leveled text has the same first texts, and enabling makes the same of it. */
  lemma LeveledIsEnabledAlike(r: Rules, t: string)
    requires Suited(r) && Contains(r.authAnchor, t) && Contains(r.accountAnchor, t)
    ensures var u := Leveled(r, t);
      && FirstText(r.authAnchor, u) == FirstText(r.authAnchor, t)
      && FirstText(r.accountAnchor, u) == FirstText(r.accountAnchor, t)
      && WithLines(r, u) == WithLines(r, t)
  {
    hide Rewrite, FirstText, Contains, WellSpaced, Word, Apart, StopsAtEachOther, Suited;
    var w, c := FirstText(r.authAnchor, t), FirstText(r.accountAnchor, t);
    var rules := AnchorRules(r, "", w, "", c);
    assert "" + w == w && "" + c == c;
    LeveledRules(r, t);
    AnchorsAreWords(r, t);
    NewFirstText(rules, 0, t);
    NewFirstText(rules, 1, t);
    RewriteAgain(rules, AnchorRules(r, r.authLine, w, r.accountLine, c), t);
  }

  lemma NoIncludeIn(r: Rules, p: string, t: string, w: string, c: string)
    requires Suited(r) && (p == r.authInclude || p == r.accountInclude) && Absent(p, t)
    requires Word(r.authAnchor, w) && Word(r.accountAnchor, c)
    ensures !Contains(p, Rewrite(AnchorRules(r, "", w, "", c), t))
  {
    hide Rewrite, StopsAtRule, Skips, Word, Absent, ThroughText, Passes, WellSpaced, Apart, StopsBefore, Contains;
    hide FirstText;
    assert "" + w == w && "" + c == c;
    AnchorsAreWords(r, t);
    StopsAtWord(r, p, r.authAnchor, w);
    StopsAtWord(r, p, r.accountAnchor, c);
    AnchorWordSkipped(p, r.authAnchor, w);
    AnchorWordSkipped(p, r.accountAnchor, c);
    LeftAlone(p, w);
    LeftAlone(p, c);
    IncludeTakenOut(r, p, t, Rule(r.authAnchor, w), Rule(r.accountAnchor, c), w, c);
    var u := Rewrite(AnchorRules(r, "", w, "", c), t);
    RewriteShrinks(p, u);
    FirstTextIsFirst(p, u);
  }

  /** The leveled text can be enabled if t can, and comes to the same. */
  lemma LeveledCanBeEnabled(r: Rules, t: string)
    requires Suited(r) && EnableSystem(r, t).Rewritten?
    ensures EnableSystem(r, Leveled(r, t)) == Rewritten(WithLines(r, t))
    ensures DisableSystem(r, Leveled(r, t)) == Skipped
  {
    hide Rewrite, FirstText, Suited, Word, Contains, WellSpaced;
    var w, c, u := FirstText(r.authAnchor, t), FirstText(r.accountAnchor, t), Leveled(r, t);
    EnableSystemMeans(r, t);
    EnableSystemMeans(r, u);
    AnchorsAreWords(r, t);
    AnchorsAreWords(r, u);
    LeveledIsEnabledAlike(r, t);
    NotContained(r.authInclude, t);
    NotContained(r.accountInclude, t);
    NoIncludeIn(r, r.authInclude, t, w, c);
    NoIncludeIn(r, r.accountInclude, t, w, c);
  }

  lemma {:induction false} RewriteShrinks(p: string, t: string)
    ensures |Rewrite([Rule(p, "")], t)| <= |t|
    ensures FirstText(p, t) != "" ==> |Rewrite([Rule(p, "")], t)| < |t|
    decreases |t|
  {
    if t != "" {
      RewriteShrinks(p, if Span(p, t) > 0 then t[Span(p, t)..] else t[1..]);
    }
  }

  lemma NotContained(p: string, t: string)
    ensures !Contains(p, t) <==> Absent(p, t)
  {
  }

  // ------------------------------------------------------------------------ the actual rules

  /** The same for the actual patterns, and every text. */
  lemma SystemAuthRoundTrip(t: string)
    ensures EnableSystem(SYSTEM_AUTH, t) ==
      if Contains(AUTH_INCLUDE, t) || Contains(ACCOUNT_INCLUDE, t) then Skipped
      else if !Contains(AUTH_ANCHOR, t) || !Contains(ACCOUNT_ANCHOR, t) then Failed
      else Rewritten(WithLines(SYSTEM_AUTH, t))
    ensures EnableSystem(SYSTEM_AUTH, t).Rewritten? ==>
      var on := EnableSystem(SYSTEM_AUTH, t).text;
      && on != t
      && EnableSystem(SYSTEM_AUTH, on) == Skipped
      && DisableSystem(SYSTEM_AUTH, on) == Rewritten(Leveled(SYSTEM_AUTH, t))
      && (Leveled(SYSTEM_AUTH, t) == t <==>
            && Uniform(AUTH_ANCHOR, t, FirstText(AUTH_ANCHOR, t))
            && Uniform(ACCOUNT_ANCHOR, t, FirstText(ACCOUNT_ANCHOR, t)))
      && EnableSystem(SYSTEM_AUTH, Leveled(SYSTEM_AUTH, t)) == Rewritten(on)
      && DisableSystem(SYSTEM_AUTH, Leveled(SYSTEM_AUTH, t)) == Skipped
  {
    hide Suited, EnableSystem, DisableSystem, Contains, Uniform, WithLines, Leveled, FirstText, Rewrite;
    SystemAuthIsSuited();
    EnableSystemMeans(SYSTEM_AUTH, t);
    if EnableSystem(SYSTEM_AUTH, t).Rewritten? {
      EnabledIsRecognised(SYSTEM_AUTH, t);
      SystemRoundTrip(SYSTEM_AUTH, t);
      LeveledCanBeEnabled(SYSTEM_AUTH, t);
    }
  }

  /** Disabling changes every text that it does not skip. */
  lemma DisablingChanges(t: string)
    ensures DisableSystem(SYSTEM_AUTH, t).Rewritten? ==> DisableSystem(SYSTEM_AUTH, t).text != t
  {
    IncludesAreWellSpaced();
    FirstTextIsFirst(AUTH_INCLUDE, t);
    RewriteShrinks(AUTH_INCLUDE, t);
    RewriteShrinks(ACCOUNT_INCLUDE, Rewrite([Rule(AUTH_INCLUDE, "")], t));
  }

  // ------------------------------------------------------------------------------- letters

  lemma LinesAreLegible()
    ensures forall k :: 0 <= k < |AUTH_LINE| ==> '\n' <= AUTH_LINE[k] <= '~'
    ensures forall k :: 0 <= k < |ACCOUNT_LINE| ==> '\n' <= ACCOUNT_LINE[k] <= '~'
  {
    ServiceIsLegible();
    hide SERVICE;
    assert forall k :: 0 <= k < 23 ==> "auth        include        "[k] in "authinclde ";
    assert forall k :: 0 <= k < 22 ==> "account     include       "[k] in "acountilde ";
  }

  lemma ServiceIsLegible()
    ensures forall k :: 0 <= k < |SERVICE| ==> '\n' <= SERVICE[k] <= '~'
  {
  }

  /** No other characters come in than those of the lines. */
  lemma SystemLetters(t: string, c: char)
    requires c !in t && (c < '\n' || c > '~')
    ensures c !in WithLines(SYSTEM_AUTH, t) && c !in Leveled(SYSTEM_AUTH, t)
  {
    LinesAreLegible();
    hide AUTH_LINE, ACCOUNT_LINE, AUTH_ANCHOR, ACCOUNT_ANCHOR, FirstText, Rewrite;
    assert c !in AUTH_LINE && c !in ACCOUNT_LINE;
    FirstTextLetters(AUTH_ANCHOR, t, c);
    FirstTextLetters(ACCOUNT_ANCHOR, t, c);
    var w, d := FirstText(AUTH_ANCHOR, t), FirstText(ACCOUNT_ANCHOR, t);
    RewriteLetters(AnchorRules(SYSTEM_AUTH, AUTH_LINE, w, ACCOUNT_LINE, d), t, c);
    RewriteLetters(AnchorRules(SYSTEM_AUTH, "", w, "", d), t, c);
  }
}
